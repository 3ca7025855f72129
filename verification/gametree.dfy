/** What the three engines share: search values with infinities, the max and min folds
    of `max_value` and `min_value`, and the root frame's move recording. */
module GameTree {
  import opened Wrappers

  /** A search value: a finite number, or Python's `-math.inf` / `math.inf`. */
  datatype Ext = NegInf | Fin(x: real) | PosInf

  /** Python's `<` on search values. */
  predicate Less(a: Ext, b: Ext) {
    match a
    case NegInf => !b.NegInf?
    case Fin(x) => (b.Fin? && x < b.x) || b.PosInf?
    case PosInf => false
  }

  predicate AtMost(a: Ext, b: Ext) {
    !Less(b, a)
  }

  /** Python's `min(v, x)`: the first argument unless the second is smaller. */
  function Min(v: Ext, x: Ext): (r: Ext)
    ensures AtMost(r, v) && AtMost(r, x) && (r == v || r == x)
  {
    if Less(x, v) then x else v
  }

  /** Python's `max(alpha, v)`: the first argument unless the second is larger. */
  function Max(a: Ext, v: Ext): (r: Ext)
    ensures AtMost(a, r) && AtMost(v, r) && (r == a || r == v)
  {
    if Less(a, v) then v else a
  }

  /** The loop of `max_value`: `if node > v: v = node` over the children's values. */
  function MaxFold(vals: seq<Ext>, v: Ext): (r: Ext)
    ensures AtMost(v, r) && forall i :: 0 <= i < |vals| ==> AtMost(vals[i], r)
    ensures r == v || r in vals
  {
    if vals == [] then v else MaxFold(vals[1..], if Less(v, vals[0]) then vals[0] else v)
  }

  /** The loop of `min_value`: `v = min(v, node)` over the children's values. */
  function MinFold(vals: seq<Ext>, v: Ext): (r: Ext)
    ensures AtMost(r, v) && forall i :: 0 <= i < |vals| ==> AtMost(r, vals[i])
    ensures r == v || r in vals
  {
    if vals == [] then v else MinFold(vals[1..], Min(v, vals[0]))
  }

  ghost predicate AllFinite(vals: seq<Ext>) {
    forall i :: 0 <= i < |vals| ==> vals[i].Fin?
  }

  /** Folding finite values from the matching infinity yields a finite value as soon as
      there is one child. */
  lemma FoldsFinite(vals: seq<Ext>)
    requires AllFinite(vals) && |vals| > 0
    ensures MaxFold(vals, NegInf).Fin? && MinFold(vals, PosInf).Fin?
  {
  }

  /** Position `k` holds a maximum of `vals` and every earlier position holds less. */
  ghost predicate IsLeftmostMax(vals: seq<Ext>, k: int) {
    && 0 <= k < |vals|
    && (forall i :: 0 <= i < |vals| ==> AtMost(vals[i], vals[k]))
    && (forall i :: 0 <= i < k ==> Less(vals[i], vals[k]))
  }

  /** The leftmost position of a maximum. */
  function ArgMax(vals: seq<Ext>): (k: nat)
    requires |vals| > 0
    ensures IsLeftmostMax(vals, k)
  {
    if |vals| == 1 then 0
    else
      var k := ArgMax(vals[1..]);
      if Less(vals[0], vals[1..][k]) then k + 1 else 0
  }

  /** The outermost `max_value` frame: a child's column is recorded as `placement`
      exactly when its value is strictly greater than the running maximum. */
  function RootPick(cols: seq<nat>, vals: seq<Ext>, v: Ext, placement: Option<nat>): Option<nat>
    requires |cols| == |vals|
  {
    if vals == [] then placement
    else if Less(v, vals[0]) then RootPick(cols[1..], vals[1..], vals[0], Some(cols[0]))
    else RootPick(cols[1..], vals[1..], v, placement)
  }

  /** The root frame ends up with the column of the leftmost maximal child when that
      maximum beats the starting value, and keeps `placement` otherwise. */
  lemma {:induction false} RootPickIsLeftmostMax(cols: seq<nat>, vals: seq<Ext>, v: Ext, placement: Option<nat>)
    requires |cols| == |vals| > 0
    ensures RootPick(cols, vals, v, placement)
      == if Less(v, vals[ArgMax(vals)]) then Some(cols[ArgMax(vals)]) else placement
  {
    if |vals| > 1 {
      var x := vals[0];
      if Less(v, x) {
        RootPickIsLeftmostMax(cols[1..], vals[1..], x, Some(cols[0]));
      } else {
        RootPickIsLeftmostMax(cols[1..], vals[1..], v, placement);
      }
    }
  }

  /** Starting from `-inf`, a non-empty list of finite values picks the column of its
      leftmost maximum. */
  lemma RootPickFinite(cols: seq<nat>, vals: seq<Ext>)
    requires |cols| == |vals| > 0 && AllFinite(vals)
    ensures RootPick(cols, vals, NegInf, None) == Some(cols[ArgMax(vals)])
  {
    RootPickIsLeftmostMax(cols, vals, NegInf, None);
  }
}
