/** The successor generator `get_child_boards`. */
module Successors {
  import opened Board

  /** A successor: the column a disc was dropped into and the resulting board. */
  type Child = (nat, Board)

  ghost predicate AllWellFormed(kids: seq<Child>) {
    forall k :: 0 <= k < |kids| ==> WellFormed(kids[k].1)
  }

  /** `kid` is the result of `p` dropping a disc into a placeable column of `b`. */
  predicate IsChild(p: Player, b: Board, kid: Child)
    requires WellFormed(b)
  {
    kid.0 < b.cols && Placeable(b, kid.0) && kid.1 == Place(b, p, kid.0)
  }

  /** The columns of a successor list, in order. */
  function Columns(kids: seq<Child>): (cs: seq<nat>)
    ensures |cs| == |kids| && forall k :: 0 <= k < |kids| ==> cs[k] == kids[k].0
  {
    seq(|kids|, k requires 0 <= k < |kids| => kids[k].0)
  }

  /** Some successor in `kids` plays column `col`. */
  predicate HasColumn(kids: seq<Child>, col: nat) {
    kids != [] && (kids[0].0 == col || HasColumn(kids[1..], col))
  }

  /** The successors for columns `c`, `c + 1`, ..., `cols - 1`. */
  function ChildrenFrom(p: Player, b: Board, c: nat): (kids: seq<Child>)
    requires WellFormed(b) && c <= b.cols
    ensures forall k :: 0 <= k < |kids| ==> c <= kids[k].0 && IsChild(p, b, kids[k])
    ensures forall i, j :: 0 <= i < j < |kids| ==> kids[i].0 < kids[j].0
    decreases b.cols - c
  {
    if c == b.cols then []
    else if Placeable(b, c) then [(c, Place(b, p, c))] + ChildrenFrom(p, b, c + 1)
    else ChildrenFrom(p, b, c + 1)
  }

  /** No placeable column from `c` on is skipped. */
  lemma {:induction false} ChildrenFromComplete(p: Player, b: Board, c: nat, col: nat)
    requires WellFormed(b) && c <= col < b.cols && Placeable(b, col)
    ensures HasColumn(ChildrenFrom(p, b, c), col)
    decreases b.cols - c
  {
    if c < col {
      ChildrenFromComplete(p, b, c + 1, col);
      var rest := ChildrenFrom(p, b, c + 1);
      if Placeable(b, c) {
        assert ChildrenFrom(p, b, c) == [(c, Place(b, p, c))] + rest;
        assert ([(c, Place(b, p, c))] + rest)[1..] == rest;
      } else {
        assert ChildrenFrom(p, b, c) == rest;
      }
    } else {
      assert c == col && Placeable(b, c);
      var kids := [(c, Place(b, p, c))] + ChildrenFrom(p, b, c + 1);
      assert ChildrenFrom(p, b, c) == kids;
      assert kids[0].0 == c;
    }
  }

  /** `get_child_boards(player, board)`: exactly the placeable columns, in strictly
      increasing order, each paired with the board after `p` plays there. */
  function Children(p: Player, b: Board): (kids: seq<Child>)
    requires WellFormed(b)
    ensures forall k :: 0 <= k < |kids| ==> IsChild(p, b, kids[k])
    ensures forall i, j :: 0 <= i < j < |kids| ==> kids[i].0 < kids[j].0
    ensures forall col :: 0 <= col < b.cols && Placeable(b, col) ==> HasColumn(kids, col)
  {
    var kids := ChildrenFrom(p, b, 0);
    assert forall col :: 0 <= col < b.cols && Placeable(b, col) ==> HasColumn(kids, col) by {
      forall col | 0 <= col < b.cols && Placeable(b, col) ensures HasColumn(kids, col) {
        ChildrenFromComplete(p, b, 0, col);
      }
    }
    kids
  }

  /** Every successor board is well formed. */
  lemma ChildrenWellFormed(p: Player, b: Board)
    requires WellFormed(b)
    ensures AllWellFormed(Children(p, b))
  {
    var kids := Children(p, b);
    forall k | 0 <= k < |kids| ensures WellFormed(kids[k].1) {
      assert IsChild(p, b, kids[k]);
    }
  }

  /** A position whose game is not over has at least one successor. */
  lemma NotTerminalHasChildren(p: Player, b: Board)
    requires WellFormed(b) && !Terminal(b)
    ensures |Children(p, b)| > 0
  {
    var c :| 0 <= c < b.cols && Placeable(b, c);
    assert HasColumn(Children(p, b), c);
  }

  /** With `c` the only placeable column, the successors from column `j` on are
      `(c, Place(b, p, c))` while `j <= c`, and none after. */
  lemma {:induction false} SingleColumnFrom(p: Player, b: Board, c: nat, j: nat)
    requires WellFormed(b) && c < b.cols && Placeable(b, c) && j <= b.cols
    requires forall i :: 0 <= i < b.cols && i != c ==> !Placeable(b, i)
    ensures ChildrenFrom(p, b, j) == if j <= c then [(c, Place(b, p, c))] else []
    decreases b.cols - j
  {
    if j < b.cols {
      SingleColumnFrom(p, b, c, j + 1);
    }
  }

  /** A board with a single placeable column has exactly that successor. */
  lemma SinglePlaceableColumn(p: Player, b: Board, c: nat)
    requires WellFormed(b) && c < b.cols && Placeable(b, c)
    requires forall j :: 0 <= j < b.cols && j != c ==> !Placeable(b, j)
    ensures Children(p, b) == [(c, Place(b, p, c))]
  {
    SingleColumnFrom(p, b, c, 0);
  }
}
