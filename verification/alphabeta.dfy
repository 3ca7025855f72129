/** `alphabeta(player, board, depth_limit)`: minimax with fail-soft alpha-beta pruning.
    `alpha` and `beta` are parameters of each frame, so an update in one frame is seen
    only by that frame's later children. */
module AlphaBeta {
  import opened Wrappers
  import opened Board
  import opened Successors
  import opened GameTree
  import opened Minimax

  /** The inner `value(player, board, depth_limit, alpha, beta)`. */
  function AbValue(root: Player, mover: Player, b: Board, d: nat, alpha: Ext, beta: Ext): Ext
    requires WellFormed(b)
    decreases d, 0
  {
    if d == 0 || Terminal(b) then Leaf(root, b)
    else if mover == root then
      ChildrenWellFormed(root, b);
      AbMax(root, Children(root, b), d - 1, alpha, beta, NegInf)
    else
      ChildrenWellFormed(Other(root), b);
      AbMin(root, Children(Other(root), b), d - 1, alpha, beta, PosInf)
  }

  /** The loop of `max_value`: stop as soon as `v >= beta`, otherwise raise `alpha`. */
  function AbMax(root: Player, kids: seq<Child>, d: nat, alpha: Ext, beta: Ext, v: Ext): Ext
    requires AllWellFormed(kids)
    decreases d, 1, |kids|
  {
    if kids == [] then v
    else
      var node := AbValue(root, Other(root), kids[0].1, d, alpha, beta);
      var v' := if Less(v, node) then node else v;
      if AtMost(beta, v') then v'
      else AbMax(root, kids[1..], d, Max(alpha, v'), beta, v')
  }

  /** The loop of `min_value`: stop as soon as `v <= alpha`, otherwise lower `beta`. */
  function AbMin(root: Player, kids: seq<Child>, d: nat, alpha: Ext, beta: Ext, v: Ext): Ext
    requires AllWellFormed(kids)
    decreases d, 1, |kids|
  {
    if kids == [] then v
    else
      var v' := Min(v, AbValue(root, root, kids[0].1, d, alpha, beta));
      if AtMost(v', alpha) then v'
      else AbMin(root, kids[1..], d, alpha, Min(beta, v'), v')
  }

  /** The outermost `max_value` frame: the loop of `AbMax`, also recording the column of
      each child whose value beats the running maximum. */
  function AbRoot(root: Player, kids: seq<Child>, d: nat, alpha: Ext, beta: Ext, v: Ext, placement: Option<nat>): Option<nat>
    requires AllWellFormed(kids)
  {
    if kids == [] then placement
    else
      var node := AbValue(root, Other(root), kids[0].1, d, alpha, beta);
      var better := Less(v, node);
      var v' := if better then node else v;
      var placement' := if better then Some(kids[0].0) else placement;
      if AtMost(beta, v') then placement'
      else AbRoot(root, kids[1..], d, Max(alpha, v'), beta, v', placement')
  }

  /** `alphabeta(player, board, depth_limit)`, starting from `alpha = -inf`, `beta = inf`.
      Pruning never changes the answer: it is exactly the column minimax answers, on
      every board and depth. */
  function AlphaBeta(p: Player, b: Board, depth: nat): (r: Option<nat>)
    requires WellFormed(b)
    ensures r == Minimax.Minimax(p, b, depth)
  {
    if depth == 0 || Terminal(b) then None
    else
      ChildrenWellFormed(p, b);
      var kids := Children(p, b);
      AbRootFromFullWindow(p, kids, depth - 1);
      AbRoot(p, kids, depth - 1, NegInf, PosInf, NegInf, None)
  }

  // ---------------------------------------------------------------------------
  // Pruning never changes the answer.

  /** The fail-soft contract of a search with window (`alpha`, `beta`) whose exact
      minimax value is `t` and whose pruned result is `r`: below the window `r` stays
      below it, inside the window `r` is exact, above the window `r` stays above it. */
  ghost predicate FailSoft(t: Ext, r: Ext, alpha: Ext, beta: Ext) {
    && (AtMost(t, alpha) ==> AtMost(r, alpha))
    && (Less(alpha, t) && Less(t, beta) ==> r == t)
    && (AtMost(beta, t) ==> AtMost(beta, r))
  }

  lemma {:induction false} AbValueFailSoft(root: Player, mover: Player, b: Board, d: nat, alpha: Ext, beta: Ext)
    requires WellFormed(b) && Less(alpha, beta)
    ensures FailSoft(Value(root, mover, b, d), AbValue(root, mover, b, d, alpha, beta), alpha, beta)
    decreases d, 0
  {
    if d > 0 && !Terminal(b) {
      if mover == root {
        ChildrenWellFormed(root, b);
        AbMaxFailSoft(root, Children(root, b), d - 1, alpha, beta, alpha, NegInf, NegInf);
      } else {
        ChildrenWellFormed(Other(root), b);
        AbMinFailSoft(root, Children(Other(root), b), d - 1, alpha, beta, beta, PosInf, PosInf);
      }
    }
  }

  /** The max loop keeps `alpha` at `max(alpha0, v)`; while no cutoff has happened its
      running value `v` tracks the exact running maximum `m` whenever `m` is above the
      window's lower end, and stays at or below that end otherwise. */
  lemma {:induction false} AbMaxFailSoft(root: Player, kids: seq<Child>, d: nat,
                                        a: Ext, b: Ext, alpha: Ext, v: Ext, m: Ext)
    requires AllWellFormed(kids) && Less(a, b)
    requires alpha == Max(a, v) && Less(v, b)
    requires Less(a, m) ==> v == m
    requires AtMost(m, a) ==> AtMost(v, a)
    ensures FailSoft(MaxFold(ChildValues(root, Other(root), kids, d), m), AbMax(root, kids, d, alpha, b, v), a, b)
    decreases d, 1, |kids|
  {
    if kids != [] {
      var vals := ChildValues(root, Other(root), kids, d);
      ChildValuesCons(root, Other(root), kids, d);
      var t := vals[0];
      var r := AbValue(root, Other(root), kids[0].1, d, alpha, b);
      AbValueFailSoft(root, Other(root), kids[0].1, d, alpha, b);
      var v' := if Less(v, r) then r else v;
      var m' := if Less(m, t) then t else m;
      MaxStep(a, b, alpha, v, m, t, r);
      if !AtMost(b, v') {
        AbMaxFailSoft(root, kids[1..], d, a, b, Max(alpha, v'), v', m');
      } else {
        AtLeastAboveWindow(MaxFold(vals[1..], m'), m', v', a, b);
      }
    }
  }

  /** The mirror image for the min loop and `beta`. */
  lemma {:induction false} AbMinFailSoft(root: Player, kids: seq<Child>, d: nat,
                                        a: Ext, b: Ext, beta: Ext, v: Ext, m: Ext)
    requires AllWellFormed(kids) && Less(a, b)
    requires beta == Min(b, v) && Less(a, v)
    requires Less(m, b) ==> v == m
    requires AtMost(b, m) ==> AtMost(b, v)
    ensures FailSoft(MinFold(ChildValues(root, root, kids, d), m), AbMin(root, kids, d, a, beta, v), a, b)
    decreases d, 1, |kids|
  {
    if kids != [] {
      var vals := ChildValues(root, root, kids, d);
      ChildValuesCons(root, root, kids, d);
      var t := vals[0];
      var r := AbValue(root, root, kids[0].1, d, a, beta);
      AbValueFailSoft(root, root, kids[0].1, d, a, beta);
      var v' := Min(v, r);
      var m' := Min(m, t);
      MinStep(a, b, beta, v, m, t, r);
      if !AtMost(v', a) {
        AbMinFailSoft(root, kids[1..], d, a, b, Min(beta, v'), v', m');
      } else {
        AtMostBelowWindow(MinFold(vals[1..], m'), m', v', a, b);
      }
    }
  }

  /** One step of the max loop keeps `AbMaxFailSoft`'s requirements, or cuts off with
      both the pruned and the exact running maximum at or above `b`. */
  lemma MaxStep(a: Ext, b: Ext, alpha: Ext, v: Ext, m: Ext, t: Ext, r: Ext)
    requires Less(a, b) && alpha == Max(a, v) && Less(v, b)
    requires (Less(a, m) ==> v == m) && (AtMost(m, a) ==> AtMost(v, a))
    requires FailSoft(t, r, alpha, b)
    ensures var v' := if Less(v, r) then r else v;
            var m' := if Less(m, t) then t else m;
            if AtMost(b, v') then AtMost(b, m')
            else (Less(v', b) && Max(alpha, v') == Max(a, v')
                  && (Less(a, m') ==> v' == m') && (AtMost(m', a) ==> AtMost(v', a)))
  {}

  /** The mirror image of `MaxStep` for the min loop. */
  lemma MinStep(a: Ext, b: Ext, beta: Ext, v: Ext, m: Ext, t: Ext, r: Ext)
    requires Less(a, b) && beta == Min(b, v) && Less(a, v)
    requires (Less(m, b) ==> v == m) && (AtMost(b, m) ==> AtMost(b, v))
    requires FailSoft(t, r, a, beta)
    ensures var v' := Min(v, r);
            var m' := Min(m, t);
            if AtMost(v', a) then AtMost(m', a)
            else (Less(a, v') && Min(beta, v') == Min(b, v')
                  && (Less(m', b) ==> v' == m') && (AtMost(b, m') ==> AtMost(b, v')))
  {}

  /** A cutoff in the max loop: an exact value at least `m' >= b` is fail-soft matched
      by any pruned value at least `b`. */
  lemma AtLeastAboveWindow(t: Ext, m': Ext, r: Ext, a: Ext, b: Ext)
    requires Less(a, b) && AtMost(m', t) && AtMost(b, m') && AtMost(b, r)
    ensures FailSoft(t, r, a, b)
  {}

  /** A cutoff in the min loop, the mirror image of `AtLeastAboveWindow`. */
  lemma AtMostBelowWindow(t: Ext, m': Ext, r: Ext, a: Ext, b: Ext)
    requires Less(a, b) && AtMost(t, m') && AtMost(m', a) && AtMost(r, a)
    ensures FailSoft(t, r, a, b)
  {}

  /** With the full window the pruned value is the exact minimax value. */
  lemma FullWindowIsExact(root: Player, mover: Player, b: Board, d: nat)
    requires WellFormed(b)
    ensures AbValue(root, mover, b, d, NegInf, PosInf) == Value(root, mover, b, d)
  {
    ValueFinite(root, mover, b, d);
    AbValueFailSoft(root, mover, b, d, NegInf, PosInf);
  }

  /** The root frame records the same column as minimax's: its `alpha` always equals
      its running maximum and its `beta` stays `inf`. */
  lemma {:induction false} AbRootIsRootPick(p: Player, kids: seq<Child>, d: nat, v: Ext, placement: Option<nat>)
    requires AllWellFormed(kids) && AllFinite(ChildValues(p, Other(p), kids, d)) && !v.PosInf?
    ensures AbRoot(p, kids, d, v, PosInf, v, placement)
      == RootPick(Columns(kids), ChildValues(p, Other(p), kids, d), v, placement)
  {
    if kids != [] {
      var vals := ChildValues(p, Other(p), kids, d);
      ChildValuesCons(p, Other(p), kids, d);
      var t := vals[0];
      var r := AbValue(p, Other(p), kids[0].1, d, v, PosInf);
      AbValueFailSoft(p, Other(p), kids[0].1, d, v, PosInf);
      assert Columns(kids)[1..] == Columns(kids[1..]);
      var v' := if Less(v, r) then r else v;
      var placement' := if Less(v, r) then Some(kids[0].0) else placement;
      assert Max(v, v') == v';
      AbRootIsRootPick(p, kids[1..], d, v', placement');
    }
  }

  /** The root frame from the full window, on any list of children. */
  lemma AbRootFromFullWindow(p: Player, kids: seq<Child>, d: nat)
    requires AllWellFormed(kids)
    ensures AbRoot(p, kids, d, NegInf, PosInf, NegInf, None)
      == RootPick(Columns(kids), ChildValues(p, Other(p), kids, d), NegInf, None)
  {
    ChildValuesFinite(p, Other(p), kids, d);
    AbRootIsRootPick(p, kids, d, NegInf, None);
  }
}
