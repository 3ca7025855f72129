/** `find_path.py`'s road map: loading the edge list into an adjacency dictionary and a
    distance dictionary, `get_distance`, and what a path through the map is. */
module Graph {
  import opened Wrappers

  type Node = string

  /** One line of the map file: the `END` marker, or `location1 location2 distance`
      already split at spaces, with the distance as `int()` reads it. */
  datatype Line = End | Edge(a: Node, b: Node, d: int)

  /** `map` (neighbours in file order, one entry per edge line) and `distances` (keyed
      by the ordered pair as written). */
  datatype Graph = Graph(adj: map<Node, seq<Node>>, dist: map<(Node, Node), int>)

  const EmptyGraph := Graph(map[], map[])

  /** Append `b` to `a`'s neighbour list, creating the list if `a` is new. */
  function AddNeighbour(adj: map<Node, seq<Node>>, a: Node, b: Node): map<Node, seq<Node>> {
    if a !in adj then adj[a := [b]] else adj[a := adj[a] + [b]]
  }

  /** The body of the loading loop for one edge line. */
  function AddEdge(g: Graph, a: Node, b: Node, d: int): Graph {
    Graph(AddNeighbour(AddNeighbour(g.adj, a, b), b, a), g.dist[(a, b) := d])
  }

  /** The loading loop from graph `g`: stop at the first `END`. */
  function LoadFrom(g: Graph, lines: seq<Line>): Graph
    decreases |lines|
  {
    if lines == [] then g
    else match lines[0]
      case End => g
      case Edge(a, b, d) => LoadFrom(AddEdge(g, a, b, d), lines[1..])
  }

  function Load(lines: seq<Line>): Graph {
    LoadFrom(EmptyGraph, lines)
  }

  // ---------------------------------------------------------------------------
  // What loading builds, stated over the lines themselves.

  /** The lines before the first `END`. */
  function BeforeEnd(lines: seq<Line>): (pre: seq<Line>)
    ensures |pre| <= |lines| && pre == lines[..|pre|] && End !in pre
    ensures |pre| < |lines| ==> lines[|pre|] == End
  {
    if lines == [] || lines[0] == End then []
    else [lines[0]] + BeforeEnd(lines[1..])
  }

  /** The neighbours one line gives `a`: the other endpoint if the line names `a`, both
      (that is, `a` twice) for a line joining `a` to itself. */
  function Here(l: Line, a: Node): seq<Node> {
    match l
    case End => []
    case Edge(x, y, _) => (if x == a then [y] else []) + (if y == a then [x] else [])
  }

  /** `a`'s neighbours according to `lines`, in file order. */
  function Neighbours(lines: seq<Line>, a: Node): seq<Node> {
    if lines == [] then [] else Here(lines[0], a) + Neighbours(lines[1..], a)
  }

  /** The distance of the last line written as `a b d`, if any. */
  function LastDistance(lines: seq<Line>, a: Node, b: Node): Option<int> {
    if lines == [] then None
    else
      var last := lines[|lines| - 1];
      if last.Edge? && last.a == a && last.b == b then Some(last.d)
      else LastDistance(lines[..|lines| - 1], a, b)
  }

  /** The neighbour list of `a`, empty when `a` is not a key. */
  function Listed(adj: map<Node, seq<Node>>, a: Node): seq<Node> {
    if a in adj then adj[a] else []
  }

  /** The distance stored for the ordered pair, if any. */
  function Stored(dist: map<(Node, Node), int>, a: Node, b: Node): Option<int> {
    if (a, b) in dist then Some(dist[(a, b)]) else None
  }

  /** `g` is what `lines` (free of `END`) built on top of nothing: keys have non-empty
      lists, every list is the file-order neighbours, every distance the last written. */
  ghost predicate Built(g: Graph, lines: seq<Line>) {
    && (forall a :: a in g.adj ==> g.adj[a] != [])
    && (forall a :: Listed(g.adj, a) == Neighbours(lines, a))
    && (forall a, b :: Stored(g.dist, a, b) == LastDistance(lines, a, b))
  }

  lemma {:induction false} NeighboursAppend(lines: seq<Line>, l: Line, a: Node)
    ensures Neighbours(lines + [l], a) == Neighbours(lines, a) + Here(l, a)
  {
    if lines != [] {
      assert (lines + [l])[1..] == lines[1..] + [l];
      NeighboursAppend(lines[1..], l, a);
    } else {
      assert [] + [l] == [l];
    }
  }

  /** One edge line extends every neighbour list by what the line gives it. */
  lemma AddEdgeLists(adj: map<Node, seq<Node>>, a: Node, b: Node, d: int, k: Node)
    ensures Listed(AddNeighbour(AddNeighbour(adj, a, b), b, a), k) == Listed(adj, k) + Here(Edge(a, b, d), k)
  {
  }

  lemma AddEdgeBuilt(g: Graph, done: seq<Line>, a: Node, b: Node, d: int)
    requires Built(g, done)
    ensures Built(AddEdge(g, a, b, d), done + [Edge(a, b, d)])
  {
    var l := Edge(a, b, d);
    var g' := AddEdge(g, a, b, d);
    var done' := done + [l];
    forall k
      ensures Listed(g'.adj, k) == Neighbours(done', k)
    {
      NeighboursAppend(done, l, k);
      AddEdgeLists(g.adj, a, b, d, k);
    }
    forall x, y
      ensures Stored(g'.dist, x, y) == LastDistance(done', x, y)
    {
      assert done'[..|done'| - 1] == done;
    }
  }

  lemma {:induction false} LoadFromBuilt(g: Graph, done: seq<Line>, lines: seq<Line>)
    requires Built(g, done)
    ensures Built(LoadFrom(g, lines), done + BeforeEnd(lines))
    decreases |lines|
  {
    if lines != [] && lines[0] != End {
      var l := lines[0];
      AddEdgeBuilt(g, done, l.a, l.b, l.d);
      LoadFromBuilt(AddEdge(g, l.a, l.b, l.d), done + [l], lines[1..]);
      assert done + [l] + BeforeEnd(lines[1..]) == done + BeforeEnd(lines);
    } else {
      assert done + BeforeEnd(lines) == done;
    }
  }

  /** Loading reads exactly the lines before the first `END`: a location is a key when
      some such line names it, its neighbours are the other endpoints of those lines in
      file order, and the distance of an ordered pair is the last one written for it. */
  lemma LoadIsBuilt(lines: seq<Line>)
    ensures Built(Load(lines), BeforeEnd(lines))
  {
    LoadFromBuilt(EmptyGraph, [], lines);
    assert [] + BeforeEnd(lines) == BeforeEnd(lines);
  }

  /** Nothing after the first `END` is read. */
  lemma {:induction false} LoadStopsAtEnd(pre: seq<Line>, post: seq<Line>)
    requires End !in pre
    ensures Load(pre + [End] + post) == Load(pre)
  {
    LoadFromPrefix(EmptyGraph, pre, post);
  }

  lemma {:induction false} LoadFromPrefix(g: Graph, pre: seq<Line>, post: seq<Line>)
    requires End !in pre
    ensures LoadFrom(g, pre + [End] + post) == LoadFrom(g, pre)
    decreases |pre|
  {
    if pre == [] {
      assert (pre + [End] + post)[0] == End;
    } else {
      var l := pre[0];
      assert (pre + [End] + post)[1..] == pre[1..] + [End] + post;
      LoadFromPrefix(AddEdge(g, l.a, l.b, l.d), pre[1..], post);
    }
  }

  /** Each line adds each endpoint to the other's list, so `b` occurs in `a`'s list as
      often as `a` occurs in `b`'s. */
  lemma {:induction false} NeighboursSymmetric(lines: seq<Line>, a: Node, b: Node)
    ensures multiset(Neighbours(lines, a))[b] == multiset(Neighbours(lines, b))[a]
  {
    if lines != [] {
      NeighboursSymmetric(lines[1..], a, b);
      HereSymmetric(lines[0], a, b);
      assert multiset(Neighbours(lines, a)) == multiset(Here(lines[0], a)) + multiset(Neighbours(lines[1..], a));
      assert multiset(Neighbours(lines, b)) == multiset(Here(lines[0], b)) + multiset(Neighbours(lines[1..], b));
    }
  }

  lemma HereSymmetric(l: Line, a: Node, b: Node)
    ensures multiset(Here(l, a))[b] == multiset(Here(l, b))[a]
  {
  }

  /** Every neighbour is itself a location of the map. */
  lemma NeighbourIsKey(lines: seq<Line>, a: Node, b: Node)
    requires b in Neighbours(lines, a)
    ensures Neighbours(lines, b) != []
  {
    NeighboursSymmetric(lines, a, b);
    assert b in multiset(Neighbours(lines, a));
    assert a in multiset(Neighbours(lines, b));
  }

  /** Every neighbour of a location is a location (so `map[child]` never fails). */
  ghost predicate Closed(g: Graph) {
    forall a, b :: a in g.adj && b in g.adj[a] ==> b in g.adj
  }

  /** The loaded map is closed and symmetric: `b` is listed under `a` as often as `a`
      is listed under `b`. */
  lemma LoadClosedSymmetric(lines: seq<Line>)
    ensures Closed(Load(lines))
    ensures forall a, b :: a in Load(lines).adj && b in Load(lines).adj ==>
      multiset(Load(lines).adj[a])[b] == multiset(Load(lines).adj[b])[a]
  {
    var g := Load(lines);
    var pre := BeforeEnd(lines);
    LoadIsBuilt(lines);
    forall a, b | a in g.adj && b in g.adj[a]
      ensures b in g.adj
    {
      assert Listed(g.adj, a) == Neighbours(pre, a);
      NeighbourIsKey(pre, a, b);
      assert Listed(g.adj, b) == Neighbours(pre, b);
    }
    forall a, b | a in g.adj && b in g.adj
      ensures multiset(g.adj[a])[b] == multiset(g.adj[b])[a]
    {
      assert Listed(g.adj, a) == Neighbours(pre, a);
      assert Listed(g.adj, b) == Neighbours(pre, b);
      NeighboursSymmetric(pre, a, b);
    }
  }

  // ---------------------------------------------------------------------------
  // Distances.

  /** `get_distance(from_, to_)`: the pair as given, else the pair reversed, else 0. */
  function GetDistance(g: Graph, from: Node, to: Node): int {
    if (from, to) in g.dist then g.dist[(from, to)]
    else if (to, from) in g.dist then g.dist[(to, from)]
    else 0
  }

  /** The order of the two locations does not matter unless the map gives the two
      orders different distances. */
  lemma GetDistanceSymmetric(g: Graph, u: Node, v: Node)
    requires !((u, v) in g.dist && (v, u) in g.dist && g.dist[(u, v)] != g.dist[(v, u)])
    ensures GetDistance(g, u, v) == GetDistance(g, v, u)
  {
  }

  /** A map listing both `A B 5` and `B A 3` makes the order matter. */
  lemma GetDistanceOrderCanMatter()
    ensures var g := Load([Edge("A", "B", 5), Edge("B", "A", 3)]);
      GetDistance(g, "A", "B") == 5 && GetDistance(g, "B", "A") == 3
  {
    var l1, l2 := Edge("A", "B", 5), Edge("B", "A", 3);
    var g1 := AddEdge(EmptyGraph, "A", "B", 5);
    assert Load([l1, l2]) == LoadFrom(g1, [l2]);
    assert LoadFrom(g1, [l2]) == LoadFrom(AddEdge(g1, "B", "A", 3), []);
  }

  // ---------------------------------------------------------------------------
  // Paths.

  function Last(p: seq<Node>): Node
    requires |p| > 0
  {
    p[|p| - 1]
  }

  /** `p` is a walk through the map: every location is a key, and each next location is
      listed under the one before. */
  ghost predicate IsWalk(g: Graph, p: seq<Node>) {
    && |p| > 0
    && (forall i :: 0 <= i < |p| ==> p[i] in g.adj)
    && (forall i :: 0 <= i < |p| - 1 ==> p[i + 1] in g.adj[p[i]])
  }

  /** A walk from `o` to `t`. */
  ghost predicate IsWalkBetween(g: Graph, p: seq<Node>, o: Node, t: Node) {
    IsWalk(g, p) && p[0] == o && Last(p) == t
  }

  ghost predicate NoRepeats(p: seq<Node>) {
    forall i, j :: 0 <= i < j < |p| ==> p[i] != p[j]
  }

  ghost predicate Reachable(g: Graph, o: Node, t: Node) {
    exists p :: IsWalkBetween(g, p, o, t)
  }

  /** How a search measures a path: in legs (breadth-first) or in miles. */
  datatype Measure = Hops | Miles

  /** The length of the leg from `u` to `v`; miles are `get_distance` in travel
      direction. */
  function Leg(g: Graph, m: Measure, u: Node, v: Node): int {
    match m
    case Hops => 1
    case Miles => GetDistance(g, u, v)
  }

  /** The sum of a path's legs; in miles, the distance `print_path` prints. */
  function Length(g: Graph, m: Measure, p: seq<Node>): int {
    if |p| <= 1 then 0 else Length(g, m, p[..|p| - 1]) + Leg(g, m, p[|p| - 2], p[|p| - 1])
  }

  /** The distance `print_path` adds up along a path. */
  function PathCost(g: Graph, p: seq<Node>): int {
    Length(g, Miles, p)
  }

  /** Legs are never negative: always in hops, in miles when every distance is. */
  ghost predicate NonNegativeLegs(g: Graph, m: Measure) {
    m == Hops || forall e :: e in g.dist ==> g.dist[e] >= 0
  }

  /** Measured in hops, a path is one leg shorter than its number of locations. */
  lemma {:induction false} HopsLength(g: Graph, p: seq<Node>)
    requires |p| > 0
    ensures Length(g, Hops, p) == |p| - 1
  {
    if |p| > 1 {
      HopsLength(g, p[..|p| - 1]);
    }
  }

  /** Extending a path by one location adds that leg. */
  lemma LengthExtend(g: Graph, m: Measure, p: seq<Node>, c: Node)
    requires |p| > 0
    ensures Length(g, m, p + [c]) == Length(g, m, p) + Leg(g, m, Last(p), c)
  {
    assert (p + [c])[..|p|] == p;
  }

  /** With legs that are never negative a path is at least as long as any prefix. */
  lemma {:induction false} LengthPrefix(g: Graph, m: Measure, p: seq<Node>, k: nat)
    requires NonNegativeLegs(g, m) && 1 <= k <= |p|
    ensures Length(g, m, p[..k]) <= Length(g, m, p)
    decreases |p|
  {
    if k < |p| {
      assert p[..|p| - 1][..k] == p[..k];
      LengthPrefix(g, m, p[..|p| - 1], k);
      assert Leg(g, m, p[|p| - 2], p[|p| - 1]) >= 0;
    } else {
      assert p[..k] == p;
    }
  }
}
