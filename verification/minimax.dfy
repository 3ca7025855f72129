/** `minimax(player, board, depth_limit)`: depth-limited minimax with the column of the
    first strictly best root child as the answer. */
module Minimax {
  import opened Wrappers
  import opened Board
  import opened Successors
  import opened Evaluator
  import opened GameTree

  /** A frontier position, scored from the root player's perspective. */
  function Leaf(root: Player, b: Board): Ext
    requires WellFormed(b)
  {
    Fin(Evaluate(root, b) as real)
  }

  /** The inner `value(player, board, depth_limit)`: `mover == root` is a `max_value`
      node, anything else a `min_value` node. */
  function Value(root: Player, mover: Player, b: Board, d: nat): Ext
    requires WellFormed(b)
    decreases d, 0
  {
    if d == 0 || Terminal(b) then Leaf(root, b)
    else if mover == root then
      ChildrenWellFormed(root, b);
      MaxFold(ChildValues(root, Other(root), Children(root, b), d - 1), NegInf)
    else
      ChildrenWellFormed(Other(root), b);
      MinFold(ChildValues(root, root, Children(Other(root), b), d - 1), PosInf)
  }

  /** The values of the successors, in column order, with `mover` to play in each. */
  function ChildValues(root: Player, mover: Player, kids: seq<Child>, d: nat): (vals: seq<Ext>)
    requires AllWellFormed(kids)
    ensures |vals| == |kids|
    decreases d, 1, |kids|
  {
    if kids == [] then [] else [Value(root, mover, kids[0].1, d)] + ChildValues(root, mover, kids[1..], d)
  }

  /** The values of the root's successors, one per column `get_child_boards` yields. */
  function RootValues(p: Player, b: Board, depth: nat): (vals: seq<Ext>)
    requires WellFormed(b) && depth >= 1
    ensures |vals| == |Children(p, b)|
  {
    ChildrenWellFormed(p, b);
    ChildValues(p, Other(p), Children(p, b), depth - 1)
  }

  /** `minimax(player, board, depth_limit)`: no move at depth 0 or on a finished game,
      otherwise the column recorded by the outermost `max_value` frame. */
  function Minimax(p: Player, b: Board, depth: nat): Option<nat>
    requires WellFormed(b)
  {
    if depth == 0 || Terminal(b) then None
    else
      RootPick(Columns(Children(p, b)), RootValues(p, b, depth), NegInf, None)
  }

  /** The first child's value heads the list; the rest are the remaining children's. */
  lemma ChildValuesCons(root: Player, mover: Player, kids: seq<Child>, d: nat)
    requires AllWellFormed(kids) && kids != []
    ensures ChildValues(root, mover, kids, d)[0] == Value(root, mover, kids[0].1, d)
    ensures ChildValues(root, mover, kids, d)[1..] == ChildValues(root, mover, kids[1..], d)
  {}

  /** On a well-formed board every value is finite: a position whose game is not over
      always has a successor, so no fold returns its starting infinity. */
  lemma {:induction false} ValueFinite(root: Player, mover: Player, b: Board, d: nat)
    requires WellFormed(b)
    ensures Value(root, mover, b, d).Fin?
    decreases d, 0
  {
    if d > 0 && !Terminal(b) {
      var p := if mover == root then root else Other(root);
      NotTerminalHasChildren(p, b);
      ChildrenWellFormed(p, b);
      ChildValuesFinite(root, if mover == root then Other(root) else root, Children(p, b), d - 1);
      FoldsFinite(ChildValues(root, if mover == root then Other(root) else root, Children(p, b), d - 1));
    }
  }

  lemma {:induction false} ChildValuesFinite(root: Player, mover: Player, kids: seq<Child>, d: nat)
    requires AllWellFormed(kids)
    ensures AllFinite(ChildValues(root, mover, kids, d))
    decreases d, 1, |kids|
  {
    if kids != [] {
      ValueFinite(root, mover, kids[0].1, d);
      ChildValuesFinite(root, mover, kids[1..], d);
    }
  }

  /** With depth at least 1 and a game that is not over, minimax answers the leftmost
      column among those whose child value is maximal. */
  lemma MinimaxPicksLeftmostBest(p: Player, b: Board, depth: nat)
    requires WellFormed(b) && depth >= 1 && !Terminal(b)
    ensures |Children(p, b)| > 0
    ensures exists k :: IsLeftmostMax(RootValues(p, b, depth), k) && Minimax(p, b, depth) == Some(Children(p, b)[k].0)
  {
    ChildrenWellFormed(p, b);
    var kids := Children(p, b);
    var vals := ChildValues(p, Other(p), kids, depth - 1);
    NotTerminalHasChildren(p, b);
    ChildValuesFinite(p, Other(p), kids, depth - 1);
    RootPickFinite(Columns(kids), vals);
    assert IsLeftmostMax(vals, ArgMax(vals));
  }
}
