/** What the four searches of `find_path.py` share: a frontier of paths from the origin,
    the `reached` locations, and the step that pops a path and pushes its one-location
    extensions to every neighbour not yet reached. */
module Search {
  import opened Wrappers
  import opened Graph

  /** A frontier path: a walk from `o` without repeated locations whose locations, all
      but the last, are reached. */
  ghost predicate Pending(g: Graph, o: Node, reached: set<Node>, p: seq<Node>) {
    && IsWalk(g, p) && p[0] == o && NoRepeats(p)
    && forall j :: 0 <= j < |p| - 1 ==> p[j] in reached
  }

  /** Some path of `paths` ends at `v`. */
  ghost predicate HasTail(paths: seq<seq<Node>>, v: Node) {
    exists i :: 0 <= i < |paths| && |paths[i]| > 0 && Last(paths[i]) == v
  }

  /** What holds at the top of every search loop, `t` being the destination:
      - until the first pop the frontier is just `[origin]`, afterwards the origin is
        reached, and the destination is never reached (it would have been returned);
      - every frontier path is pending;
      - every neighbour of a reached location is reached or ends a frontier path. */
  ghost predicate SearchInv(g: Graph, o: Node, t: Node, reached: set<Node>, paths: seq<seq<Node>>) {
    && Closed(g) && o in g.adj
    && reached <= g.adj.Keys
    && t !in reached
    && (reached == {} ==> paths == [[o]])
    && (reached != {} ==> o in reached)
    && (forall i :: 0 <= i < |paths| ==> Pending(g, o, reached, paths[i]))
    && (forall u, v :: u in reached && v in g.adj[u] && v !in reached ==> HasTail(paths, v))
  }

  /** `rest` is the frontier after popping `popped` from `paths`. */
  ghost predicate PoppedFrom(paths: seq<seq<Node>>, popped: seq<Node>, rest: seq<seq<Node>>) {
    && popped in paths
    && (forall x :: x in rest ==> x in paths)
    && (forall x :: x in paths ==> x == popped || x in rest)
  }

  /** The paths the loop over `map[parent]` pushes: `path` extended by each neighbour
      not in `reached`, in neighbour-list order. */
  function Extensions(path: seq<Node>, kids: seq<Node>, reached: set<Node>): (ext: seq<seq<Node>>)
    ensures |ext| <= |kids|
    ensures forall i :: 0 <= i < |ext| ==>
      |ext[i]| == |path| + 1 && ext[i][..|path|] == path && Last(ext[i]) in kids && Last(ext[i]) !in reached
  {
    if kids == [] then []
    else
      var rest := Extensions(path, kids[1..], reached);
      if kids[0] !in reached then [path + [kids[0]]] + rest else rest
  }

  /** Every neighbour not in `reached` gets an extension. */
  lemma {:induction false} ExtensionsComplete(path: seq<Node>, kids: seq<Node>, reached: set<Node>, c: Node)
    requires c in kids && c !in reached
    ensures exists i :: 0 <= i < |Extensions(path, kids, reached)| && Extensions(path, kids, reached)[i] == path + [c]
  {
    if kids[0] != c {
      ExtensionsComplete(path, kids[1..], reached, c);
      var i :| 0 <= i < |Extensions(path, kids[1..], reached)| && Extensions(path, kids[1..], reached)[i] == path + [c];
      if kids[0] !in reached {
        assert Extensions(path, kids, reached)[i + 1] == path + [c];
      } else {
        assert Extensions(path, kids, reached)[i] == path + [c];
      }
    } else {
      assert Extensions(path, kids, reached)[0] == path + [c];
    }
  }

  /** The frontier the searches start from is `[[origin]]` with nothing reached. */
  lemma InitialInv(g: Graph, o: Node, t: Node)
    requires Closed(g) && o in g.adj
    ensures SearchInv(g, o, t, {}, [[o]])
  {
    assert Pending(g, o, {}, [o]);
  }

  /** Popping a path whose last location is already reached just drops it. */
  lemma DiscardKeepsInv(g: Graph, o: Node, t: Node, reached: set<Node>, paths: seq<seq<Node>>,
                        popped: seq<Node>, rest: seq<seq<Node>>)
    requires SearchInv(g, o, t, reached, paths) && PoppedFrom(paths, popped, rest)
    requires Last(popped) in reached
    ensures SearchInv(g, o, t, reached, rest)
  {
    forall i | 0 <= i < |rest|
      ensures Pending(g, o, reached, rest[i])
    {
      assert rest[i] in paths;
    }
    forall u, v | u in reached && v in g.adj[u] && v !in reached
      ensures HasTail(rest, v)
    {
      var i :| 0 <= i < |paths| && |paths[i]| > 0 && Last(paths[i]) == v;
      assert paths[i] in rest;
      var k :| 0 <= k < |rest| && rest[k] == paths[i];
    }
  }

  /** Extending a pending path whose last location has just been reached by a location
      not reached gives a pending path. */
  lemma ExtendPending(g: Graph, o: Node, reached: set<Node>, path: seq<Node>, c: Node)
    requires |path| > 0 && Closed(g) && Pending(g, o, reached - {Last(path)}, path) && Last(path) in reached
    requires c in g.adj[Last(path)] && c !in reached
    ensures Pending(g, o, reached, path + [c])
  {
    var p := path + [c];
    forall i, j | 0 <= i < j < |p|
      ensures p[i] != p[j]
    {
      if j == |path| {
        assert p[i] in reached;
      }
    }
  }

  /** Popping a path whose last location `parent` is new (and not the destination):
      `parent` becomes reached and the extensions are pushed. */
  lemma ExpandKeepsInv(g: Graph, o: Node, t: Node, reached: set<Node>, paths: seq<seq<Node>>,
                       popped: seq<Node>, rest: seq<seq<Node>>, ext: seq<seq<Node>>)
    requires SearchInv(g, o, t, reached, paths) && PoppedFrom(paths, popped, rest)
    requires Last(popped) !in reached && Last(popped) != t
    requires ext == Extensions(popped, g.adj[Last(popped)], reached + {Last(popped)})
    ensures SearchInv(g, o, t, reached + {Last(popped)}, rest + ext)
  {
    var parent := Last(popped);
    var reached' := reached + {parent};
    var paths' := rest + ext;
    assert Pending(g, o, reached, popped);
    if reached == {} {
      assert popped == [o];
    }
    forall i | 0 <= i < |paths'|
      ensures Pending(g, o, reached', paths'[i])
    {
      if i < |rest| {
        assert rest[i] in paths;
      } else {
        var e := ext[i - |rest|];
        assert e == popped + [Last(e)];
        ExtendPending(g, o, reached', popped, Last(e));
      }
    }
    forall u, v | u in reached' && v in g.adj[u] && v !in reached'
      ensures HasTail(paths', v)
    {
      if u == parent {
        ExtensionsComplete(popped, g.adj[parent], reached', v);
        var i :| 0 <= i < |ext| && ext[i] == popped + [v];
        assert paths'[|rest| + i] == popped + [v];
      } else {
        var i :| 0 <= i < |paths| && |paths[i]| > 0 && Last(paths[i]) == v;
        assert paths[i] in rest;
        var k :| 0 <= k < |rest| && rest[k] == paths[i];
        assert paths'[k] == rest[k];
      }
    }
  }

  /** A walk that starts inside a set closed under the neighbour relation never leaves
      it. */
  lemma {:induction false} WalkStaysInside(g: Graph, inside: set<Node>, p: seq<Node>)
    requires IsWalk(g, p) && p[0] in inside
    requires forall u, v :: u in inside && u in g.adj && v in g.adj[u] ==> v in inside
    ensures Last(p) in inside
    decreases |p|
  {
    if |p| > 1 {
      var q := p[..|p| - 1];
      assert IsWalk(g, q);
      WalkStaysInside(g, inside, q);
    }
  }

  /** An exhausted frontier means the destination cannot be reached: the reached set
      contains the origin and is closed under the neighbour relation. */
  lemma ExhaustedUnreachable(g: Graph, o: Node, t: Node, reached: set<Node>)
    requires SearchInv(g, o, t, reached, [])
    ensures !Reachable(g, o, t)
  {
    if p :| IsWalkBetween(g, p, o, t) {
      WalkStaysInside(g, reached, p);
    }
  }

  /** A popped path ending at the destination is the answer: a walk from the origin to
      the destination that repeats no location. */
  lemma FoundIsPath(g: Graph, o: Node, t: Node, reached: set<Node>, paths: seq<seq<Node>>, popped: seq<Node>)
    requires SearchInv(g, o, t, reached, paths) && popped in paths && Last(popped) == t
    ensures IsWalkBetween(g, popped, o, t) && NoRepeats(popped)
  {
  }

  /** Reaching a new location shrinks the set of locations still to reach. */
  lemma FewerUnreached(keys: set<Node>, reached: set<Node>, parent: Node)
    requires parent in keys && parent !in reached
    ensures |keys - (reached + {parent})| < |keys - reached|
  {
    assert keys - (reached + {parent}) == (keys - reached) - {parent};
  }

  // ---------------------------------------------------------------------------
  // Optimality of the first arrival (breadth-first in hops, uniform-cost in miles).

  /** Every reached location `u` was reached by a path of length `best[u]`, and no walk
      from the origin to `u` is shorter. */
  ghost predicate BestSoFar(g: Graph, m: Measure, o: Node, reached: set<Node>, best: map<Node, int>) {
    && best.Keys == reached
    && forall u, w :: u in reached && IsWalkBetween(g, w, o, u) ==> best[u] <= Length(g, m, w)
  }

  /** Every neighbour `v` not reached of a reached `u` ends a frontier path no longer
      than `best[u]` plus the leg from `u` to `v`. */
  ghost predicate Offered(g: Graph, m: Measure, reached: set<Node>, best: map<Node, int>, paths: seq<seq<Node>>)
    requires best.Keys == reached && reached <= g.adj.Keys
  {
    forall u, v :: u in reached && v in g.adj[u] && v !in reached ==>
      exists i :: (0 <= i < |paths| && |paths[i]| > 0 && Last(paths[i]) == v
                   && Length(g, m, paths[i]) <= best[u] + Leg(g, m, u, v))
  }

  ghost predicate OptInv(g: Graph, m: Measure, o: Node, t: Node, reached: set<Node>, best: map<Node, int>, paths: seq<seq<Node>>) {
    && SearchInv(g, o, t, reached, paths)
    && NonNegativeLegs(g, m)
    && BestSoFar(g, m, o, reached, best)
    && Offered(g, m, reached, best, paths)
  }

  lemma InitialOptInv(g: Graph, m: Measure, o: Node, t: Node)
    requires Closed(g) && o in g.adj && NonNegativeLegs(g, m)
    ensures OptInv(g, m, o, t, {}, map[], [[o]])
  {
    InitialInv(g, o, t);
  }

  /** The first index of a walk whose location is not reached. */
  lemma FirstOutside(g: Graph, reached: set<Node>, w: seq<Node>) returns (j: nat)
    requires |w| > 0 && w[0] in reached && Last(w) !in reached
    ensures 0 < j < |w| && w[j] !in reached && forall i :: 0 <= i < j ==> w[i] in reached
  {
    j := 1;
    while w[j] in reached
      invariant 0 < j < |w| && forall i :: 0 <= i < j ==> w[i] in reached
      decreases |w| - j
    {
      j := j + 1;
    }
  }

  /** A prefix of a walk is a walk, from the same start, and its length in legs adds up
      to the longer prefix's. */
  lemma WalkPrefix(g: Graph, m: Measure, w: seq<Node>, k: nat)
    requires IsWalk(g, w) && 1 <= k < |w|
    ensures IsWalk(g, w[..k]) && w[..k][0] == w[0] && Last(w[..k]) == w[k - 1]
    ensures Length(g, m, w[..k + 1]) == Length(g, m, w[..k]) + Leg(g, m, w[k - 1], w[k])
  {
    assert w[..k + 1][..k] == w[..k];
  }

  /** Any walk from the origin to a location not reached is at least as long as some
      frontier path: where it first leaves the reached set, from `u` to `v`, the
      frontier offers `v` no longer than the walk up to `v`. */
  lemma WalkMeetsFrontier(g: Graph, m: Measure, o: Node, reached: set<Node>, best: map<Node, int>,
                          paths: seq<seq<Node>>, w: seq<Node>) returns (i: nat)
    requires reached <= g.adj.Keys && NonNegativeLegs(g, m)
    requires BestSoFar(g, m, o, reached, best) && Offered(g, m, reached, best, paths)
    requires IsWalk(g, w) && w[0] == o && o in reached && Last(w) !in reached
    ensures i < |paths| && Length(g, m, paths[i]) <= Length(g, m, w)
  {
    var j := FirstOutside(g, reached, w);
    var u, v := w[j - 1], w[j];
    WalkPrefix(g, m, w, j);
    assert IsWalkBetween(g, w[..j], o, u);
    assert best[u] <= Length(g, m, w[..j]);
    i :| 0 <= i < |paths| && |paths[i]| > 0 && Last(paths[i]) == v
      && Length(g, m, paths[i]) <= best[u] + Leg(g, m, u, v);
    LengthPrefix(g, m, w, j + 1);
  }

  /** The shortest frontier path to a location not yet reached is a shortest walk to
      it. */
  lemma ShortestPopIsOptimal(g: Graph, m: Measure, o: Node, t: Node, reached: set<Node>, best: map<Node, int>,
                             paths: seq<seq<Node>>, popped: seq<Node>)
    requires OptInv(g, m, o, t, reached, best, paths) && popped in paths && Last(popped) !in reached
    requires forall i :: 0 <= i < |paths| ==> Length(g, m, popped) <= Length(g, m, paths[i])
    ensures forall w :: IsWalkBetween(g, w, o, Last(popped)) ==> Length(g, m, popped) <= Length(g, m, w)
  {
    forall w | IsWalkBetween(g, w, o, Last(popped))
      ensures Length(g, m, popped) <= Length(g, m, w)
    {
      if reached == {} {
        assert popped == [o];
        LengthPrefix(g, m, w, 1);
      } else {
        var i := WalkMeetsFrontier(g, m, o, reached, best, paths, w);
      }
    }
  }

  /** The frontier offer for the parent's own neighbours: its extension. */
  lemma OfferedByExtension(g: Graph, m: Measure, popped: seq<Node>, reached': set<Node>,
                           rest: seq<seq<Node>>, ext: seq<seq<Node>>, v: Node) returns (i: nat)
    requires |popped| > 0 && Last(popped) in g.adj && v in g.adj[Last(popped)] && v !in reached'
    requires ext == Extensions(popped, g.adj[Last(popped)], reached')
    ensures i < |rest + ext| && |(rest + ext)[i]| > 0 && Last((rest + ext)[i]) == v
    ensures Length(g, m, (rest + ext)[i]) == Length(g, m, popped) + Leg(g, m, Last(popped), v)
  {
    ExtensionsComplete(popped, g.adj[Last(popped)], reached', v);
    var k :| 0 <= k < |ext| && ext[k] == popped + [v];
    i := |rest| + k;
    assert (rest + ext)[i] == popped + [v];
    LengthExtend(g, m, popped, v);
  }

  /** A frontier offer that was not popped survives in the rest of the frontier. */
  lemma OfferSurvives(g: Graph, m: Measure, paths: seq<seq<Node>>, popped: seq<Node>,
                      rest: seq<seq<Node>>, ext: seq<seq<Node>>, v: Node, bound: int) returns (k: nat)
    requires PoppedFrom(paths, popped, rest) && |popped| > 0 && Last(popped) != v
    requires exists i :: (0 <= i < |paths| && |paths[i]| > 0 && Last(paths[i]) == v
                          && Length(g, m, paths[i]) <= bound)
    ensures k < |rest + ext| && |(rest + ext)[k]| > 0 && Last((rest + ext)[k]) == v
    ensures Length(g, m, (rest + ext)[k]) <= bound
  {
    var i :| 0 <= i < |paths| && |paths[i]| > 0 && Last(paths[i]) == v && Length(g, m, paths[i]) <= bound;
    assert paths[i] in rest;
    k :| 0 <= k < |rest| && rest[k] == paths[i];
    assert (rest + ext)[k] == rest[k];
  }

  /** After popping `popped` and pushing its extensions, every reached location still
      has its neighbours offered, the new one through its extensions. */
  lemma ExpandKeepsOffered(g: Graph, m: Measure, reached: set<Node>, best: map<Node, int>,
                           paths: seq<seq<Node>>, popped: seq<Node>, rest: seq<seq<Node>>, ext: seq<seq<Node>>)
    requires PoppedFrom(paths, popped, rest) && |popped| > 0 && Last(popped) in g.adj
    requires best.Keys == reached && reached <= g.adj.Keys && Offered(g, m, reached, best, paths)
    requires ext == Extensions(popped, g.adj[Last(popped)], reached + {Last(popped)})
    ensures Offered(g, m, reached + {Last(popped)}, best[Last(popped) := Length(g, m, popped)], rest + ext)
  {
    var parent := Last(popped);
    var reached' := reached + {parent};
    var best' := best[parent := Length(g, m, popped)];
    var paths' := rest + ext;
    forall u, v | u in reached' && v in g.adj[u] && v !in reached'
      ensures exists i :: (0 <= i < |paths'| && |paths'[i]| > 0 && Last(paths'[i]) == v
                           && Length(g, m, paths'[i]) <= best'[u] + Leg(g, m, u, v))
    {
      if u == parent {
        var i := OfferedByExtension(g, m, popped, reached', rest, ext, v);
      } else {
        var k := OfferSurvives(g, m, paths, popped, rest, ext, v, best[u] + Leg(g, m, u, v));
      }
    }
  }

  /** Popping the shortest frontier path to a new location (not the destination) keeps
      the optimality invariant, recording its length as the location's best. */
  lemma ExpandKeepsOptInv(g: Graph, m: Measure, o: Node, t: Node, reached: set<Node>, best: map<Node, int>,
                          paths: seq<seq<Node>>, popped: seq<Node>, rest: seq<seq<Node>>, ext: seq<seq<Node>>)
    requires OptInv(g, m, o, t, reached, best, paths) && PoppedFrom(paths, popped, rest)
    requires Last(popped) !in reached && Last(popped) != t
    requires forall i :: 0 <= i < |paths| ==> Length(g, m, popped) <= Length(g, m, paths[i])
    requires ext == Extensions(popped, g.adj[Last(popped)], reached + {Last(popped)})
    ensures OptInv(g, m, o, t, reached + {Last(popped)}, best[Last(popped) := Length(g, m, popped)], rest + ext)
  {
    ExpandKeepsInv(g, o, t, reached, paths, popped, rest, ext);
    ShortestPopIsOptimal(g, m, o, t, reached, best, paths, popped);
    ExpandKeepsOffered(g, m, reached, best, paths, popped, rest, ext);
  }

  /** Dropping a popped path whose last location is already reached keeps the
      optimality invariant. */
  lemma DiscardKeepsOptInv(g: Graph, m: Measure, o: Node, t: Node, reached: set<Node>, best: map<Node, int>,
                           paths: seq<seq<Node>>, popped: seq<Node>, rest: seq<seq<Node>>)
    requires OptInv(g, m, o, t, reached, best, paths) && PoppedFrom(paths, popped, rest)
    requires Last(popped) in reached
    ensures OptInv(g, m, o, t, reached, best, rest)
  {
    DiscardKeepsInv(g, o, t, reached, paths, popped, rest);
    forall u, v | u in reached && v in g.adj[u] && v !in reached
      ensures exists i :: (0 <= i < |rest| && |rest[i]| > 0 && Last(rest[i]) == v
                           && Length(g, m, rest[i]) <= best[u] + Leg(g, m, u, v))
    {
      var i :| 0 <= i < |paths| && |paths[i]| > 0 && Last(paths[i]) == v
        && Length(g, m, paths[i]) <= best[u] + Leg(g, m, u, v);
      assert paths[i] in rest;
      var k :| 0 <= k < |rest| && rest[k] == paths[i];
    }
  }
}
