/** `expectimax(player, board, depth_limit)`: the root player maximises, the opponent
    is a chance node picking each of its moves with equal probability. */
module Expectimax {
  import opened Wrappers
  import opened Board
  import opened Successors
  import opened GameTree
  import Minimax

  /** How a chance node combines its children's values. */
  datatype ChanceRule =
    | DivideEachStep  // the loop as written: `v = (v + value) / n` on every iteration
    | DivideSum       // the uniform average: the sum of the values, divided once by `n`

  /** Python's `+` on search values, with an infinite operand absorbing a finite one.
      Opposite infinities (NaN in Python) never meet on a well-formed board. */
  function Plus(v: Ext, x: Ext): Ext {
    if !v.Fin? then v else if !x.Fin? then x else Fin(v.x + x.x)
  }

  /** Python's `/ n` on search values. */
  function Over(v: Ext, n: nat): Ext
    requires n > 0
  {
    if v.Fin? then Fin(v.x / n as real) else v
  }

  /** The loop of the chance node as written, with `n` children in all. */
  function ChanceFold(vals: seq<Ext>, n: nat, v: Ext): Ext
    requires vals == [] || n > 0
  {
    if vals == [] then v else ChanceFold(vals[1..], n, Over(Plus(v, vals[0]), n))
  }

  /** The chance node as written: from `v = 0`, each child's value is added and the
      running total divided by the number of children. */
  function StepChance(vals: seq<Ext>): (r: Ext)
    ensures vals == [] ==> r == Fin(0.0)
    ensures |vals| == 1 ==> r == vals[0]
  {
    assert |vals| == 1 ==> ChanceFold(vals, |vals|, Fin(0.0)) == vals[0] by {
      if |vals| == 1 {
        var x := vals[0];
        assert ChanceFold(vals, 1, Fin(0.0)) == Over(Plus(Fin(0.0), x), 1);
        assert x.Fin? ==> x.x / 1 as real == x.x;
      }
    }
    ChanceFold(vals, |vals|, Fin(0.0))
  }

  /** The sum of the values. */
  function Sum(vals: seq<Ext>): Ext {
    if vals == [] then Fin(0.0) else Plus(vals[0], Sum(vals[1..]))
  }

  /** `k` copies of `x` added up. */
  function Times(k: nat, x: real): real {
    if k == 0 then 0.0 else Times(k - 1, x) + x
  }

  lemma {:induction false} TimesIsProduct(k: nat, x: real)
    ensures Times(k, x) == k as real * x
  {
    if k > 0 {
      TimesIsProduct(k - 1, x);
      assert k as real * x == (k - 1) as real * x + x;
    }
  }

  /** The sum of finite values lies between `n` copies of the least and `n` copies of
      the greatest of them. */
  lemma {:induction false} SumBounds(vals: seq<Ext>, lo: real, hi: real)
    requires AllFinite(vals)
    requires forall i :: 0 <= i < |vals| ==> lo <= vals[i].x <= hi
    ensures Sum(vals).Fin?
    ensures Times(|vals|, lo) <= Sum(vals).x <= Times(|vals|, hi)
  {
    if vals != [] {
      assert lo <= vals[0].x <= hi;
      SumBounds(vals[1..], lo, hi);
    }
  }

  /** Dividing by a positive `n` keeps a value between `n * lo` and `n * hi` within
      `lo` and `hi`. */
  lemma DivideBounds(s: real, n: real, lo: real, hi: real)
    requires n > 0.0 && n * lo <= s <= n * hi
    ensures lo <= s / n <= hi
  {
    var q := s / n;
    assert q * n == s;
    assert (q - lo) * n >= 0.0;
    assert (hi - q) * n >= 0.0;
  }

  /** The uniform average a chance node stands for: the expected value lies between the
      worst and the best outcome, and a node without children is worth 0. */
  function Mean(vals: seq<Ext>): (r: Ext)
    ensures vals == [] ==> r == Fin(0.0)
    ensures AllFinite(vals) && vals != [] ==>
      r.Fin? && AtMost(MinFold(vals, PosInf), r) && AtMost(r, MaxFold(vals, NegInf))
  {
    if vals == [] then Fin(0.0)
    else
      var r := Over(Sum(vals), |vals|);
      assert AllFinite(vals) ==> r.Fin? && AtMost(MinFold(vals, PosInf), r) && AtMost(r, MaxFold(vals, NegInf)) by {
        if AllFinite(vals) {
          MeanWithin(vals);
        }
      }
      r
  }

  lemma MeanWithin(vals: seq<Ext>)
    requires AllFinite(vals) && vals != []
    ensures Over(Sum(vals), |vals|).Fin?
    ensures AtMost(MinFold(vals, PosInf), Over(Sum(vals), |vals|))
    ensures AtMost(Over(Sum(vals), |vals|), MaxFold(vals, NegInf))
  {
    FoldBounds(vals);
    var lo := MinFold(vals, PosInf).x;
    var hi := MaxFold(vals, NegInf).x;
    MeanBetween(vals, lo, hi);
    var m := Over(Sum(vals), |vals|);
    assert MinFold(vals, PosInf) == Fin(lo) && MaxFold(vals, NegInf) == Fin(hi);
    FinOrder(lo, m.x);
    FinOrder(m.x, hi);
  }

  /** Finite values lie between their least and their greatest. */
  lemma FoldBounds(vals: seq<Ext>)
    requires AllFinite(vals) && vals != []
    ensures MinFold(vals, PosInf).Fin? && MaxFold(vals, NegInf).Fin?
    ensures forall i :: 0 <= i < |vals| ==> MinFold(vals, PosInf).x <= vals[i].x <= MaxFold(vals, NegInf).x
  {
    FoldsFinite(vals);
    forall i | 0 <= i < |vals|
      ensures MinFold(vals, PosInf).x <= vals[i].x <= MaxFold(vals, NegInf).x
    {
      assert AtMost(MinFold(vals, PosInf), vals[i]) && AtMost(vals[i], MaxFold(vals, NegInf));
    }
  }

  /** The average of finite values between `lo` and `hi` is itself between them. */
  lemma MeanBetween(vals: seq<Ext>, lo: real, hi: real)
    requires AllFinite(vals) && vals != []
    requires forall i :: 0 <= i < |vals| ==> lo <= vals[i].x <= hi
    ensures Over(Sum(vals), |vals|).Fin? && lo <= Over(Sum(vals), |vals|).x <= hi
  {
    SumBounds(vals, lo, hi);
    OverBounds(Sum(vals), |vals|, lo, hi);
  }

  lemma OverBounds(s: Ext, k: nat, lo: real, hi: real)
    requires k > 0 && s.Fin? && Times(k, lo) <= s.x <= Times(k, hi)
    ensures Over(s, k).Fin? && lo <= Over(s, k).x <= hi
  {
    TimesIsProduct(k, lo);
    TimesIsProduct(k, hi);
    DivideBounds(s.x, k as real, lo, hi);
  }

  lemma FinOrder(a: real, b: real)
    requires a <= b
    ensures AtMost(Fin(a), Fin(b))
  {
  }

  /** The chance node under `rule`. */
  function Combine(rule: ChanceRule, vals: seq<Ext>): Ext {
    match rule
    case DivideEachStep => StepChance(vals)
    case DivideSum => Mean(vals)
  }

  /** Finite children give a finite chance value under either rule. */
  lemma CombineFinite(rule: ChanceRule, vals: seq<Ext>)
    requires AllFinite(vals)
    ensures Combine(rule, vals).Fin?
  {
    if rule.DivideEachStep? {
      ChanceFoldFinite(vals, |vals|, Fin(0.0));
    }
  }

  lemma {:induction false} ChanceFoldFinite(vals: seq<Ext>, n: nat, v: Ext)
    requires AllFinite(vals) && v.Fin? && (vals == [] || n > 0)
    ensures ChanceFold(vals, n, v).Fin?
  {
    if vals != [] {
      ChanceFoldFinite(vals[1..], n, Over(Plus(v, vals[0]), n));
    }
  }

  /** The inner `value(player, board, depth_limit)`: `mover == root` is a `max_value`
      node, anything else a chance node. */
  function ExpValue(rule: ChanceRule, root: Player, mover: Player, b: Board, d: nat): Ext
    requires WellFormed(b)
    decreases d, 0
  {
    if d == 0 || Terminal(b) then Minimax.Leaf(root, b)
    else if mover == root then
      ChildrenWellFormed(root, b);
      MaxFold(ExpChildValues(rule, root, Other(root), Children(root, b), d - 1), NegInf)
    else
      ChildrenWellFormed(Other(root), b);
      Combine(rule, ExpChildValues(rule, root, root, Children(Other(root), b), d - 1))
  }

  /** The values of the successors, in column order, with `mover` to play in each. */
  function ExpChildValues(rule: ChanceRule, root: Player, mover: Player, kids: seq<Child>, d: nat): (vals: seq<Ext>)
    requires AllWellFormed(kids)
    ensures |vals| == |kids|
    decreases d, 1, |kids|
  {
    if kids == [] then [] else [ExpValue(rule, root, mover, kids[0].1, d)] + ExpChildValues(rule, root, mover, kids[1..], d)
  }

  /** The values of the root's successors, one per column `get_child_boards` yields. */
  function ExpRootValues(rule: ChanceRule, p: Player, b: Board, depth: nat): (vals: seq<Ext>)
    requires WellFormed(b) && depth >= 1
    ensures |vals| == |Children(p, b)|
  {
    ChildrenWellFormed(p, b);
    ExpChildValues(rule, p, Other(p), Children(p, b), depth - 1)
  }

  /** `expectimax(player, board, depth_limit)` with chance nodes under `rule`: no move at
      depth 0 or on a finished game, otherwise the column recorded by the outermost
      `max_value` frame. */
  function Expectimax(rule: ChanceRule, p: Player, b: Board, depth: nat): Option<nat>
    requires WellFormed(b)
  {
    if depth == 0 || Terminal(b) then None
    else RootPick(Columns(Children(p, b)), ExpRootValues(rule, p, b, depth), NegInf, None)
  }

  /** On a well-formed board every expectimax value is finite. */
  lemma {:induction false} ExpValueFinite(rule: ChanceRule, root: Player, mover: Player, b: Board, d: nat)
    requires WellFormed(b)
    ensures ExpValue(rule, root, mover, b, d).Fin?
    decreases d, 0
  {
    if d > 0 && !Terminal(b) {
      if mover == root {
        NotTerminalHasChildren(root, b);
        ChildrenWellFormed(root, b);
        var vals := ExpChildValues(rule, root, Other(root), Children(root, b), d - 1);
        ExpChildValuesFinite(rule, root, Other(root), Children(root, b), d - 1);
        FoldsFinite(vals);
      } else {
        ChildrenWellFormed(Other(root), b);
        var vals := ExpChildValues(rule, root, root, Children(Other(root), b), d - 1);
        ExpChildValuesFinite(rule, root, root, Children(Other(root), b), d - 1);
        CombineFinite(rule, vals);
      }
    }
  }

  lemma {:induction false} ExpChildValuesFinite(rule: ChanceRule, root: Player, mover: Player, kids: seq<Child>, d: nat)
    requires AllWellFormed(kids)
    ensures AllFinite(ExpChildValues(rule, root, mover, kids, d))
    decreases d, 1, |kids|
  {
    if kids != [] {
      ExpValueFinite(rule, root, mover, kids[0].1, d);
      ExpChildValuesFinite(rule, root, mover, kids[1..], d);
    }
  }

  /** With depth at least 1 and a game that is not over, expectimax answers the leftmost
      column among those whose child value is maximal. */
  lemma ExpectimaxPicksLeftmostBest(rule: ChanceRule, p: Player, b: Board, depth: nat)
    requires WellFormed(b) && depth >= 1 && !Terminal(b)
    ensures |Children(p, b)| > 0
    ensures exists k :: (IsLeftmostMax(ExpRootValues(rule, p, b, depth), k)
                         && Expectimax(rule, p, b, depth) == Some(Children(p, b)[k].0))
  {
    ChildrenWellFormed(p, b);
    var kids := Children(p, b);
    var vals := ExpChildValues(rule, p, Other(p), kids, depth - 1);
    NotTerminalHasChildren(p, b);
    ExpChildValuesFinite(rule, p, Other(p), kids, depth - 1);
    RootPickFinite(Columns(kids), vals);
    assert IsLeftmostMax(vals, ArgMax(vals));
  }

  /** The chance node as written is not the average: two children both worth 4 give
      `(0 + 4) / 2 = 2`, then `(2 + 4) / 2 = 3`, below every outcome. */
  lemma StepChanceIsNotMean()
    ensures var vals := [Fin(4.0), Fin(4.0)];
      StepChance(vals) == Fin(3.0) && Mean(vals) == Fin(4.0)
      && Less(StepChance(vals), MinFold(vals, PosInf))
  {
    var vals := [Fin(4.0), Fin(4.0)];
    assert ChanceFold(vals, 2, Fin(0.0)) == ChanceFold(vals[1..], 2, Fin(2.0));
    assert ChanceFold(vals[1..], 2, Fin(2.0)) == ChanceFold([], 2, Fin(3.0));
    assert Sum(vals[1..]) == Fin(4.0);
    assert MinFold(vals, PosInf) == MinFold(vals[1..], Fin(4.0));
  }
}
