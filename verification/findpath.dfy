/** The four searches of `find_path.py` and the command-line dispatch. Each search keeps
    `reached` (a list in the program; only membership is ever asked, so a set here) and
    returns the first popped path that ends at the destination. */
module FindPath {
  import opened Wrappers
  import opened Graph
  import opened Search
  import opened PriorityQueue

  /** A FIFO frontier: path lengths never decrease from front to back and differ by at
      most one. */
  ghost predicate LevelOrder(paths: seq<seq<Node>>) {
    && (forall i, j :: 0 <= i <= j < |paths| ==> |paths[i]| <= |paths[j]|)
    && (forall i :: 0 <= i < |paths| ==> |paths[i]| <= |paths[0]| + 1)
  }

  /** The front of a FIFO frontier is one of its shortest paths. */
  lemma FrontIsShortest(g: Graph, paths: seq<seq<Node>>)
    requires LevelOrder(paths) && paths != [] && forall i :: 0 <= i < |paths| ==> |paths[i]| > 0
    ensures forall i :: 0 <= i < |paths| ==> Length(g, Hops, paths[0]) <= Length(g, Hops, paths[i])
  {
    forall i | 0 <= i < |paths|
      ensures Length(g, Hops, paths[0]) <= Length(g, Hops, paths[i])
    {
      HopsLength(g, paths[0]);
      HopsLength(g, paths[i]);
    }
  }

  /** Popping the front and queueing paths one location longer keeps the level order. */
  lemma LevelOrderStep(paths: seq<seq<Node>>, ext: seq<seq<Node>>)
    requires LevelOrder(paths) && paths != []
    requires forall i :: 0 <= i < |ext| ==> |ext[i]| == |paths[0]| + 1
    ensures LevelOrder(paths[1..] + ext)
  {
  }

  /** A popped path ending at the destination that is shortest in hops among the
      frontier has no more locations than any walk to the destination. */
  lemma FewestLegs(g: Graph, o: Node, t: Node, reached: set<Node>, best: map<Node, int>,
                   paths: seq<seq<Node>>, path: seq<Node>)
    requires OptInv(g, Hops, o, t, reached, best, paths) && path in paths && Last(path) == t
    requires forall i :: 0 <= i < |paths| ==> Length(g, Hops, path) <= Length(g, Hops, paths[i])
    ensures IsWalkBetween(g, path, o, t) && NoRepeats(path)
    ensures forall w :: IsWalkBetween(g, w, o, t) ==> |path| <= |w|
  {
    FoundIsPath(g, o, t, reached, paths, path);
    ShortestPopIsOptimal(g, Hops, o, t, reached, best, paths, path);
    forall w | IsWalkBetween(g, w, o, t)
      ensures |path| <= |w|
    {
      HopsLength(g, path);
      HopsLength(g, w);
    }
  }

  /** What holds of `bfs`'s queue between iterations. */
  ghost predicate BfsInv(g: Graph, o: Node, t: Node, reached: set<Node>, best: map<Node, int>, frontier: seq<seq<Node>>) {
    OptInv(g, Hops, o, t, reached, best, frontier) && LevelOrder(frontier)
  }

  /** The front path ends at a location of the map, and before the first expansion
      it is the origin's path. */
  lemma BfsFront(g: Graph, o: Node, t: Node, reached: set<Node>, best: map<Node, int>, frontier: seq<seq<Node>>)
    requires frontier != [] && BfsInv(g, o, t, reached, best, frontier)
    ensures |frontier[0]| > 0 && Last(frontier[0]) in g.adj && (reached == {} ==> frontier[0] == [o])
    ensures reached <= g.adj.Keys
  {
  }

  /** The step of `bfs` that expands a new, non-destination location. */
  lemma BfsExpand(g: Graph, o: Node, t: Node, reached: set<Node>, best: map<Node, int>,
                  frontier: seq<seq<Node>>, ext: seq<seq<Node>>)
    requires frontier != [] && BfsInv(g, o, t, reached, best, frontier)
    requires |frontier[0]| > 0 && Last(frontier[0]) !in reached && Last(frontier[0]) != t
    requires Last(frontier[0]) in g.adj
    requires ext == Extensions(frontier[0], g.adj[Last(frontier[0])], reached + {Last(frontier[0])})
    ensures BfsInv(g, o, t, reached + {Last(frontier[0])},
                   best[Last(frontier[0]) := Length(g, Hops, frontier[0])], frontier[1..] + ext)
  {
    assert PoppedFrom(frontier, frontier[0], frontier[1..]);
    FrontIsShortest(g, frontier);
    ExpandKeepsOptInv(g, Hops, o, t, reached, best, frontier, frontier[0], frontier[1..], ext);
    LevelOrderStep(frontier, ext);
  }

  /** A front location already reached is dropped. */
  lemma BfsDiscard(g: Graph, o: Node, t: Node, reached: set<Node>, best: map<Node, int>, frontier: seq<seq<Node>>)
    requires frontier != [] && BfsInv(g, o, t, reached, best, frontier)
    requires |frontier[0]| > 0 && Last(frontier[0]) in reached
    ensures BfsInv(g, o, t, reached, best, frontier[1..])
  {
    assert PoppedFrom(frontier, frontier[0], frontier[1..]);
    DiscardKeepsOptInv(g, Hops, o, t, reached, best, frontier, frontier[0], frontier[1..]);
    LevelOrderStep(frontier, []);
    assert frontier[1..] + [] == frontier[1..];
  }

  /** When `bfs` pops the destination, its path has the fewest locations. */
  lemma BfsFound(g: Graph, o: Node, t: Node, reached: set<Node>, best: map<Node, int>, frontier: seq<seq<Node>>)
    requires frontier != [] && BfsInv(g, o, t, reached, best, frontier)
    requires |frontier[0]| > 0 && Last(frontier[0]) == t
    ensures IsWalkBetween(g, frontier[0], o, t) && NoRepeats(frontier[0])
    ensures forall w :: IsWalkBetween(g, w, o, t) ==> |frontier[0]| <= |w|
  {
    FrontIsShortest(g, frontier);
    FewestLegs(g, o, t, reached, best, frontier, frontier[0]);
  }

  /** `bfs(origin, destination)`: the answer is a path with the fewest legs. */
  method Bfs(g: Graph, o: Node, t: Node) returns (r: Option<seq<Node>>)
    requires Closed(g) && o in g.adj
    ensures r.Some? ==> IsWalkBetween(g, r.value, o, t) && NoRepeats(r.value)
    ensures r.None? <==> !Reachable(g, o, t)
    ensures o == t ==> r == Some([o])
    ensures r.Some? ==> forall w :: IsWalkBetween(g, w, o, t) ==> |r.value| <= |w|
  {
    var frontier: seq<seq<Node>> := [[o]];
    var reached: set<Node> := {};
    ghost var best: map<Node, int> := map[];
    InitialOptInv(g, Hops, o, t);
    while frontier != []
      invariant BfsInv(g, o, t, reached, best, frontier)
      invariant o == t ==> reached == {}
      invariant reached <= g.adj.Keys
      decreases |g.adj.Keys - reached|, |frontier|
    {
      BfsFront(g, o, t, reached, best, frontier);
      var path := frontier[0];
      var parent := Last(path);
      if parent !in reached {
        if parent == t {
          BfsFound(g, o, t, reached, best, frontier);
          return Some(path);
        }
        var ext := Extensions(path, g.adj[parent], reached + {parent});
        BfsExpand(g, o, t, reached, best, frontier, ext);
        FewerUnreached(g.adj.Keys, reached, parent);
        best := best[parent := Length(g, Hops, path)];
        reached := reached + {parent};
        frontier := frontier[1..] + ext;
      } else {
        BfsDiscard(g, o, t, reached, best, frontier);
        frontier := frontier[1..];
      }
    }
    ExhaustedUnreachable(g, o, t, reached);
    return None;
  }

  /** `dfs(origin, destination)`: the frontier is a stack; the answer is a path, not
      necessarily a short one. */
  method Dfs(g: Graph, o: Node, t: Node) returns (r: Option<seq<Node>>)
    requires Closed(g) && o in g.adj
    ensures r.Some? ==> IsWalkBetween(g, r.value, o, t) && NoRepeats(r.value)
    ensures r.None? <==> !Reachable(g, o, t)
    ensures o == t ==> r == Some([o])
  {
    var stack: seq<seq<Node>> := [[o]];
    var reached: set<Node> := {};
    InitialInv(g, o, t);
    while stack != []
      invariant SearchInv(g, o, t, reached, stack)
      invariant o == t ==> reached == {}
      decreases |g.adj.Keys - reached|, |stack|
    {
      var path := stack[|stack| - 1];
      var rest := stack[..|stack| - 1];
      var parent := Last(path);
      assert PoppedFrom(stack, path, rest);
      if parent !in reached {
        if parent == t {
          FoundIsPath(g, o, t, reached, stack, path);
          return Some(path);
        }
        var ext := Extensions(path, g.adj[parent], reached + {parent});
        ExpandKeepsInv(g, o, t, reached, stack, path, rest, ext);
        FewerUnreached(g.adj.Keys, reached, parent);
        reached := reached + {parent};
        stack := rest + ext;
      } else {
        DiscardKeepsInv(g, o, t, reached, stack, path, rest);
        stack := rest;
      }
    }
    ExhaustedUnreachable(g, o, t, reached);
    return None;
  }

  // ---------------------------------------------------------------------------
  // Priority-queue searches.

  /** Removing the entry at `k` pops its path from the frontier's paths. */
  lemma RemoveAtPops(q: seq<Entry>, k: nat)
    requires k < |q|
    ensures PoppedFrom(Paths(q), q[k].1, Paths(RemoveAt(q, k)))
  {
    var ps, rs := Paths(q), Paths(RemoveAt(q, k));
    assert ps[k] == q[k].1;
    forall x | x in rs
      ensures x in ps
    {
      var i :| 0 <= i < |rs| && rs[i] == x;
      if i < k {
        assert x == ps[i];
      } else {
        assert x == ps[i + 1];
      }
    }
    forall x | x in ps
      ensures x == q[k].1 || x in rs
    {
      var i :| 0 <= i < |ps| && ps[i] == x;
      if i < k {
        assert x == rs[i];
      } else if i > k {
        assert x == rs[i - 1];
      }
    }
  }

  lemma PathsAppend(q: seq<Entry>, r: seq<Entry>)
    ensures Paths(q + r) == Paths(q) + Paths(r)
  {
  }

  /** Every entry's priority is its path's cost in miles. */
  ghost predicate CostPriced(g: Graph, q: seq<Entry>) {
    forall i :: 0 <= i < |q| ==> q[i].0 == PathCost(g, q[i].1)
  }

  /** `ucs`'s pushes: each extension with `distance` plus the last leg. */
  function UcsEntries(g: Graph, distance: int, parent: Node, ext: seq<seq<Node>>): (q: seq<Entry>)
    requires forall i :: 0 <= i < |ext| ==> |ext[i]| > 0
    ensures Paths(q) == ext
  {
    seq(|ext|, i requires 0 <= i < |ext| => (distance + GetDistance(g, parent, Last(ext[i])), ext[i]))
  }

  /** The one-location extensions of a path. */
  ghost predicate ExtendsByOne(path: seq<Node>, ext: seq<seq<Node>>) {
    forall i :: 0 <= i < |ext| ==> |ext[i]| == |path| + 1 && ext[i][..|path|] == path
  }

  /** Pushed with the popped path's cost plus the leg, each extension is priced at its
      own cost. */
  lemma UcsEntriesPriced(g: Graph, distance: int, path: seq<Node>, ext: seq<seq<Node>>)
    requires |path| > 0 && distance == PathCost(g, path) && ExtendsByOne(path, ext)
    ensures CostPriced(g, UcsEntries(g, distance, Last(path), ext))
  {
    forall i | 0 <= i < |ext|
      ensures UcsEntries(g, distance, Last(path), ext)[i].0 == PathCost(g, ext[i])
    {
      assert ext[i] == path + [Last(ext[i])];
      LengthExtend(g, Miles, path, Last(ext[i]));
    }
  }

  /** The least entry of a cost-priced queue holds a cheapest frontier path. */
  lemma LeastIsCheapest(g: Graph, q: seq<Entry>, k: nat)
    requires CostPriced(g, q) && k < |q|
    requires forall i :: 0 <= i < |q| ==> q[i] == q[k] || EntryLess(q[k], q[i])
    ensures forall i :: 0 <= i < |Paths(q)| ==> Length(g, Miles, q[k].1) <= Length(g, Miles, Paths(q)[i])
  {
    LeastHasLeastPriority(q, k);
  }

  /** A popped cheapest path ending at the destination costs no more than any walk to
      the destination, when no distance is negative. */
  lemma CheapestAnswer(g: Graph, o: Node, t: Node, reached: set<Node>, best: map<Node, int>,
                       paths: seq<seq<Node>>, path: seq<Node>)
    requires OptInv(g, Miles, o, t, reached, best, paths) && path in paths && Last(path) == t
    requires forall i :: 0 <= i < |paths| ==> Length(g, Miles, path) <= Length(g, Miles, paths[i])
    ensures forall w :: IsWalkBetween(g, w, o, t) ==> PathCost(g, path) <= PathCost(g, w)
  {
    ShortestPopIsOptimal(g, Miles, o, t, reached, best, paths, path);
  }

  /** What holds of `ucs`'s queue between iterations. */
  ghost predicate UcsInv(g: Graph, o: Node, t: Node, reached: set<Node>, best: map<Node, int>, q: seq<Entry>) {
    && SearchInv(g, o, t, reached, Paths(q)) && CostPriced(g, q)
    && (NonNegativeLegs(g, Miles) ==> OptInv(g, Miles, o, t, reached, best, Paths(q)))
  }

  /** A popped path ends at a location of the map, and leaving the destination
      unreached for now means the origin is not the destination. */
  lemma UcsPopped(g: Graph, o: Node, t: Node, reached: set<Node>, best: map<Node, int>, q: seq<Entry>, k: nat)
    requires k < |q| && UcsInv(g, o, t, reached, best, q)
    ensures |q[k].1| > 0 && Last(q[k].1) in g.adj && (reached == {} ==> q[k].1 == [o])
  {
    assert q[k].1 == Paths(q)[k];
  }

  /** A popped location already reached is dropped. */
  lemma UcsDiscard(g: Graph, o: Node, t: Node, reached: set<Node>, best: map<Node, int>, q: seq<Entry>, k: nat)
    requires k < |q| && UcsInv(g, o, t, reached, best, q)
    requires |q[k].1| > 0 && Last(q[k].1) in reached
    ensures UcsInv(g, o, t, reached, best, RemoveAt(q, k))
  {
    PqDiscard(g, Miles, o, t, reached, best, q, k);
    forall i | 0 <= i < |RemoveAt(q, k)|
      ensures RemoveAt(q, k)[i].0 == PathCost(g, RemoveAt(q, k)[i].1)
    {
      if i >= k {
        assert RemoveAt(q, k)[i] == q[i + 1];
      }
    }
  }

  /** When `ucs` pops the destination, its path is the answer it promises. */
  lemma UcsFound(g: Graph, o: Node, t: Node, reached: set<Node>, best: map<Node, int>,
                 q: seq<Entry>, k: nat)
    requires k < |q| && UcsInv(g, o, t, reached, best, q)
    requires forall i :: 0 <= i < |q| ==> q[i] == q[k] || EntryLess(q[k], q[i])
    requires |q[k].1| > 0 && Last(q[k].1) == t
    ensures IsWalkBetween(g, q[k].1, o, t) && NoRepeats(q[k].1)
    ensures NonNegativeLegs(g, Miles) ==>
      forall w :: IsWalkBetween(g, w, o, t) ==> PathCost(g, q[k].1) <= PathCost(g, w)
  {
    assert q[k].1 == Paths(q)[k];
    FoundIsPath(g, o, t, reached, Paths(q), q[k].1);
    if NonNegativeLegs(g, Miles) {
      LeastIsCheapest(g, q, k);
      CheapestAnswer(g, o, t, reached, best, Paths(q), q[k].1);
    }
  }

  /** The shared step of `ucs`: the invariants after expanding a new, non-destination
      location, for either answer to whether distances are non-negative. */
  lemma UcsExpand(g: Graph, o: Node, t: Node, reached: set<Node>, best: map<Node, int>,
                  q: seq<Entry>, k: nat, ext: seq<seq<Node>>)
    requires k < |q| && UcsInv(g, o, t, reached, best, q)
    requires forall i :: 0 <= i < |q| ==> q[i] == q[k] || EntryLess(q[k], q[i])
    requires |q[k].1| > 0 && Last(q[k].1) !in reached && Last(q[k].1) != t
    requires Last(q[k].1) in g.adj
    requires ext == Extensions(q[k].1, g.adj[Last(q[k].1)], reached + {Last(q[k].1)})
    ensures UcsInv(g, o, t, reached + {Last(q[k].1)}, best[Last(q[k].1) := Length(g, Miles, q[k].1)],
                   RemoveAt(q, k) + UcsEntries(g, q[k].0, Last(q[k].1), ext))
  {
    var path := q[k].1;
    var rest := RemoveAt(q, k);
    var pushed := UcsEntries(g, q[k].0, Last(path), ext);
    RemoveAtPops(q, k);
    PathsAppend(rest, pushed);
    assert Paths(rest + pushed) == Paths(rest) + ext;
    ExpandKeepsInv(g, o, t, reached, Paths(q), path, Paths(rest), ext);
    if NonNegativeLegs(g, Miles) {
      LeastIsCheapest(g, q, k);
      ExpandKeepsOptInv(g, Miles, o, t, reached, best, Paths(q), path, Paths(rest), ext);
    }
    UcsEntriesPriced(g, q[k].0, path, ext);
  }

  /** The shared step of `ucs` and `a_star` for a popped location already reached. */
  lemma PqDiscard(g: Graph, m: Measure, o: Node, t: Node, reached: set<Node>, best: map<Node, int>,
                  q: seq<Entry>, k: nat)
    requires k < |q| && SearchInv(g, o, t, reached, Paths(q))
    requires NonNegativeLegs(g, m) ==> OptInv(g, m, o, t, reached, best, Paths(q))
    requires |q[k].1| > 0 && Last(q[k].1) in reached
    ensures SearchInv(g, o, t, reached, Paths(RemoveAt(q, k)))
    ensures NonNegativeLegs(g, m) ==> OptInv(g, m, o, t, reached, best, Paths(RemoveAt(q, k)))
  {
    RemoveAtPops(q, k);
    DiscardKeepsInv(g, o, t, reached, Paths(q), q[k].1, Paths(RemoveAt(q, k)));
    if NonNegativeLegs(g, m) {
      DiscardKeepsOptInv(g, m, o, t, reached, best, Paths(q), q[k].1, Paths(RemoveAt(q, k)));
    }
  }

  /** `ucs(origin, destination)`: with no negative distance the answer is a path of
      least cost in miles. */
  method Ucs(g: Graph, o: Node, t: Node) returns (r: Option<seq<Node>>)
    requires Closed(g) && o in g.adj
    ensures r.Some? ==> IsWalkBetween(g, r.value, o, t) && NoRepeats(r.value)
    ensures r.None? <==> !Reachable(g, o, t)
    ensures o == t ==> r == Some([o])
    ensures r.Some? && NonNegativeLegs(g, Miles) ==>
      forall w :: IsWalkBetween(g, w, o, t) ==> PathCost(g, r.value) <= PathCost(g, w)
  {
    var q: seq<Entry> := [(0, [o])];
    var reached: set<Node> := {};
    ghost var best: map<Node, int> := map[];
    InitialInv(g, o, t);
    assert Paths(q) == [[o]];
    if NonNegativeLegs(g, Miles) {
      InitialOptInv(g, Miles, o, t);
    }
    while q != []
      invariant UcsInv(g, o, t, reached, best, q)
      invariant o == t ==> reached == {}
      invariant reached <= g.adj.Keys
      decreases |g.adj.Keys - reached|, |q|
    {
      var k := PopMin(q);
      UcsPopped(g, o, t, reached, best, q, k);
      var distance, path := q[k].0, q[k].1;
      var parent := Last(path);
      if parent !in reached {
        if parent == t {
          UcsFound(g, o, t, reached, best, q, k);
          return Some(path);
        }
        var ext := Extensions(path, g.adj[parent], reached + {parent});
        UcsExpand(g, o, t, reached, best, q, k, ext);
        FewerUnreached(g.adj.Keys, reached, parent);
        best := best[parent := Length(g, Miles, path)];
        reached := reached + {parent};
        q := RemoveAt(q, k) + UcsEntries(g, distance, parent, ext);
      } else {
        UcsDiscard(g, o, t, reached, best, q, k);
        q := RemoveAt(q, k);
      }
    }
    ExhaustedUnreachable(g, o, t, reached);
    return None;
  }

  // ---------------------------------------------------------------------------
  // A*: priorities carry the heuristic of the path's last location.

  /** How `a_star` prices a queue entry: the origin's path at 0, any longer path at its
      cost plus the heuristic of its last location. */
  ghost predicate HeuristicPriced(g: Graph, h: map<Node, int>, e: Entry) {
    && |e.1| > 0
    && (|e.1| == 1 ==> e.0 == 0)
    && (|e.1| > 1 ==> Last(e.1) in h && e.0 == PathCost(g, e.1) + h[Last(e.1)])
  }

  /** What holds of `a_star`'s queue between iterations. */
  ghost predicate AStarInv(g: Graph, h: map<Node, int>, o: Node, t: Node, reached: set<Node>, q: seq<Entry>) {
    && SearchInv(g, o, t, reached, Paths(q))
    && forall i :: 0 <= i < |q| ==> HeuristicPriced(g, h, q[i])
  }

  /** The distance `a_star` recovers from a popped entry: the priority, less the
      heuristic of the last location unless the path is the origin's. On a priced
      entry it is the path's cost. */
  function CostSoFar(g: Graph, h: map<Node, int>, e: Entry): (d: int)
    requires |e.1| > 0 && (|e.1| > 1 ==> Last(e.1) in h)
    ensures HeuristicPriced(g, h, e) ==> d == PathCost(g, e.1)
  {
    if |e.1| > 1 then e.0 - h[Last(e.1)] else e.0
  }

  /** The first extension whose last location has no heuristic, where `a_star` fails
      with a missing key. */
  function FirstMissing(ext: seq<seq<Node>>, h: map<Node, int>): (m: Option<Node>)
    requires forall i :: 0 <= i < |ext| ==> |ext[i]| > 0
    ensures m.None? <==> forall i :: 0 <= i < |ext| ==> Last(ext[i]) in h
    ensures m.Some? ==> m.value !in h
    ensures m.Some? ==>
      exists i :: 0 <= i < |ext| && Last(ext[i]) == m.value && forall j :: 0 <= j < i ==> Last(ext[j]) in h
  {
    if ext == [] then None
    else if Last(ext[0]) !in h then Some(Last(ext[0]))
    else
      var m := FirstMissing(ext[1..], h);
      assert forall i :: 1 <= i < |ext| ==> ext[i] == ext[1..][i - 1];
      m
  }

  /** `a_star`'s pushes: each extension at `distance` plus the last leg plus the
      heuristic of the new location. */
  function AStarEntries(g: Graph, h: map<Node, int>, distance: int, parent: Node, ext: seq<seq<Node>>): (q: seq<Entry>)
    requires forall i :: 0 <= i < |ext| ==> |ext[i]| > 0 && Last(ext[i]) in h
    ensures Paths(q) == ext
  {
    seq(|ext|, i requires 0 <= i < |ext| => (distance + GetDistance(g, parent, Last(ext[i])) + h[Last(ext[i])], ext[i]))
  }

  /** Pushed with the popped path's cost, each extension is priced as `a_star` intends. */
  lemma AStarEntriesPriced(g: Graph, h: map<Node, int>, distance: int, path: seq<Node>, ext: seq<seq<Node>>)
    requires |path| > 0 && distance == PathCost(g, path) && ExtendsByOne(path, ext)
    requires forall i :: 0 <= i < |ext| ==> Last(ext[i]) in h
    ensures forall i :: 0 <= i < |ext| ==> HeuristicPriced(g, h, AStarEntries(g, h, distance, Last(path), ext)[i])
  {
    forall i | 0 <= i < |ext|
      ensures HeuristicPriced(g, h, AStarEntries(g, h, distance, Last(path), ext)[i])
    {
      assert ext[i] == path + [Last(ext[i])];
      LengthExtend(g, Miles, path, Last(ext[i]));
    }
  }

  /** A popped path ends at a location of the map, with a heuristic unless it is the
      origin's path, and before the first expansion it is the origin's path. */
  lemma AStarPopped(g: Graph, h: map<Node, int>, o: Node, t: Node, reached: set<Node>, q: seq<Entry>, k: nat)
    requires k < |q| && AStarInv(g, h, o, t, reached, q)
    ensures |q[k].1| > 0 && Last(q[k].1) in g.adj && (|q[k].1| > 1 ==> Last(q[k].1) in h)
    ensures HeuristicPriced(g, h, q[k]) && (reached == {} ==> q[k].1 == [o])
  {
    assert q[k].1 == Paths(q)[k];
  }

  /** When `a_star` pops the destination, its path is a path from the origin. */
  lemma AStarFound(g: Graph, h: map<Node, int>, o: Node, t: Node, reached: set<Node>, q: seq<Entry>, k: nat)
    requires k < |q| && AStarInv(g, h, o, t, reached, q)
    requires |q[k].1| > 0 && Last(q[k].1) == t
    ensures IsWalkBetween(g, q[k].1, o, t) && NoRepeats(q[k].1)
  {
    assert q[k].1 == Paths(q)[k];
    FoundIsPath(g, o, t, reached, Paths(q), q[k].1);
  }

  /** The step of `a_star` that expands a new, non-destination location. */
  lemma AStarExpand(g: Graph, h: map<Node, int>, o: Node, t: Node, reached: set<Node>,
                    q: seq<Entry>, k: nat, ext: seq<seq<Node>>)
    requires k < |q| && AStarInv(g, h, o, t, reached, q)
    requires |q[k].1| > 0 && Last(q[k].1) !in reached && Last(q[k].1) != t
    requires Last(q[k].1) in g.adj && HeuristicPriced(g, h, q[k])
    requires ext == Extensions(q[k].1, g.adj[Last(q[k].1)], reached + {Last(q[k].1)})
    requires forall i :: 0 <= i < |ext| ==> Last(ext[i]) in h
    ensures AStarInv(g, h, o, t, reached + {Last(q[k].1)},
                     RemoveAt(q, k) + AStarEntries(g, h, CostSoFar(g, h, q[k]), Last(q[k].1), ext))
  {
    var path := q[k].1;
    var rest := RemoveAt(q, k);
    var pushed := AStarEntries(g, h, CostSoFar(g, h, q[k]), Last(path), ext);
    RemoveAtPops(q, k);
    PathsAppend(rest, pushed);
    ExpandKeepsInv(g, o, t, reached, Paths(q), path, Paths(rest), ext);
    AStarEntriesPriced(g, h, CostSoFar(g, h, q[k]), path, ext);
    PricedAfterPop(g, h, q, k, pushed);
  }

  /** Popping one entry and queueing priced ones leaves every entry priced. */
  lemma PricedAfterPop(g: Graph, h: map<Node, int>, q: seq<Entry>, k: nat, pushed: seq<Entry>)
    requires k < |q|
    requires forall i :: 0 <= i < |q| ==> HeuristicPriced(g, h, q[i])
    requires forall i :: 0 <= i < |pushed| ==> HeuristicPriced(g, h, pushed[i])
    ensures forall i :: 0 <= i < |RemoveAt(q, k) + pushed| ==> HeuristicPriced(g, h, (RemoveAt(q, k) + pushed)[i])
  {
    var rest := RemoveAt(q, k);
    forall i | 0 <= i < |rest + pushed|
      ensures HeuristicPriced(g, h, (rest + pushed)[i])
    {
      if i >= |rest| {
        assert (rest + pushed)[i] == pushed[i - |rest|];
      } else if i >= k {
        assert (rest + pushed)[i] == q[i + 1];
      } else {
        assert (rest + pushed)[i] == q[i];
      }
    }
  }

  /** A popped location already reached is dropped. */
  lemma AStarDiscard(g: Graph, h: map<Node, int>, o: Node, t: Node, reached: set<Node>, q: seq<Entry>, k: nat)
    requires k < |q| && AStarInv(g, h, o, t, reached, q)
    requires |q[k].1| > 0 && Last(q[k].1) in reached
    ensures AStarInv(g, h, o, t, reached, RemoveAt(q, k))
  {
    RemoveAtPops(q, k);
    DiscardKeepsInv(g, o, t, reached, Paths(q), q[k].1, Paths(RemoveAt(q, k)));
    forall i | 0 <= i < |RemoveAt(q, k)|
      ensures HeuristicPriced(g, h, RemoveAt(q, k)[i])
    {
      if i >= k {
        assert RemoveAt(q, k)[i] == q[i + 1];
      }
    }
  }

  /** `a_star(origin, destination)` with the heuristics `h`. `missing` is the location
      whose heuristic the search looked up and did not find, which ends the program
      with a missing-key error; it cannot happen when every location has one. */
  method AStar(g: Graph, h: map<Node, int>, o: Node, t: Node) returns (r: Option<seq<Node>>, missing: Option<Node>)
    requires Closed(g) && o in g.adj
    ensures missing.Some? ==> r.None? && missing.value in g.adj && missing.value !in h
    ensures g.adj.Keys <= h.Keys ==> missing.None?
    ensures missing.None? ==> (r.Some? ==> IsWalkBetween(g, r.value, o, t) && NoRepeats(r.value))
    ensures missing.None? ==> (r.None? <==> !Reachable(g, o, t))
    ensures o == t ==> r == Some([o]) && missing.None?
  {
    var q: seq<Entry> := [(0, [o])];
    var reached: set<Node> := {};
    InitialInv(g, o, t);
    assert Paths(q) == [[o]];
    while q != []
      invariant AStarInv(g, h, o, t, reached, q)
      invariant o == t ==> reached == {}
      invariant reached <= g.adj.Keys
      decreases |g.adj.Keys - reached|, |q|
    {
      var k := PopMin(q);
      AStarPopped(g, h, o, t, reached, q, k);
      var path := q[k].1;
      var parent := Last(path);
      if parent !in reached {
        var distance := CostSoFar(g, h, q[k]);
        if parent == t {
          AStarFound(g, h, o, t, reached, q, k);
          return Some(path), None;
        }
        var ext := Extensions(path, g.adj[parent], reached + {parent});
        var m := FirstMissing(ext, h);
        if m.Some? {
          return None, m;
        }
        AStarExpand(g, h, o, t, reached, q, k, ext);
        FewerUnreached(g.adj.Keys, reached, parent);
        reached := reached + {parent};
        q := RemoveAt(q, k) + AStarEntries(g, h, distance, parent, ext);
      } else {
        AStarDiscard(g, h, o, t, reached, q, k);
        q := RemoveAt(q, k);
      }
    }
    ExhaustedUnreachable(g, o, t, reached);
    return None, None;
  }
}
