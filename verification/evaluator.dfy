/** The static evaluator `evaluate`: every length-4 segment of the board (rows, columns
    and both diagonals through sentinel padding) is scored with fixed weights. */
module Evaluator {
  import opened Board

  /** Weight of a segment holding 0, 1, 2, 3 or 4 discs of one player and none of the other. */
  const Weights: seq<int> := [0, 1, 4, 16, 1000]

  function Max0(n: int): nat {
    if n < 0 then 0 else n
  }

  /** `[invalid_slot] * n`. */
  function Pad(n: nat): (s: seq<Cell>)
    ensures |s| == n && forall i :: 0 <= i < n ==> s[i] == Invalid
  {
    seq(n, _ => Invalid)
  }

  /** The windows `line[k:k+4]` for `k` in `range(len(line) - 3)`. */
  function Windows(line: seq<Cell>): (ws: seq<seq<Cell>>)
    ensures |ws| == Max0(|line| - 3)
    ensures forall k :: 0 <= k < |ws| ==> ws[k] == line[k..k + 4]
  {
    if |line| <= 3 then [] else seq(|line| - 3, k requires 0 <= k < |line| - 3 => line[k..k + 4])
  }

  /** The windows of every line, line after line. */
  function AllWindows(lines: seq<seq<Cell>>): (ws: seq<seq<Cell>>)
    ensures forall k :: 0 <= k < |ws| ==> |ws[k]| == 4
  {
    if lines == [] then [] else Windows(lines[0]) + AllWindows(lines[1..])
  }

  ghost predicate UniformWidth(lines: seq<seq<Cell>>, width: nat) {
    forall i :: 0 <= i < |lines| ==> |lines[i]| == width
  }

  function RowLines(b: Board): (lines: seq<seq<Cell>>)
    requires WellFormed(b)
    ensures |lines| == b.rows && UniformWidth(lines, b.cols)
  {
    seq(b.rows, r requires 0 <= r < b.rows => Row(b, r))
  }

  function ColLines(b: Board): (lines: seq<seq<Cell>>)
    requires WellFormed(b)
    ensures |lines| == b.cols && UniformWidth(lines, b.rows)
  {
    seq(b.cols, c requires 0 <= c < b.cols => Col(b, c))
  }

  /** `left_revolved`: row `r` shifted right by `r` sentinels, so that the board's
      up-right diagonals become the columns of this matrix. */
  function LeftRevolved(b: Board): (m: seq<seq<Cell>>)
    requires WellFormed(b)
    ensures |m| == b.rows && UniformWidth(m, b.rows + b.cols - 1)
  {
    seq(b.rows, r requires 0 <= r < b.rows => Pad(r) + Row(b, r) + Pad(b.rows - 1 - r))
  }

  /** `right_revolved`: row `r` shifted left, so that the down-right diagonals become columns. */
  function RightRevolved(b: Board): (m: seq<seq<Cell>>)
    requires WellFormed(b)
    ensures |m| == b.rows && UniformWidth(m, b.rows + b.cols - 1)
  {
    seq(b.rows, r requires 0 <= r < b.rows => Pad(b.rows - 1 - r) + Row(b, r) + Pad(r))
  }

  /** `zip(*m)`: the columns of a matrix whose rows all have length `width`. */
  function Zip(m: seq<seq<Cell>>, width: nat): (t: seq<seq<Cell>>)
    requires UniformWidth(m, width)
    ensures |t| == width && UniformWidth(t, |m|)
  {
    seq(width, j requires 0 <= j < width => seq(|m|, r requires 0 <= r < |m| => m[r][j]))
  }

  /** The windows of four families of lines, family after family. */
  function FamilyWindows(a: seq<seq<Cell>>, b: seq<seq<Cell>>, c: seq<seq<Cell>>, d: seq<seq<Cell>>): (segs: seq<seq<Cell>>)
    ensures forall k :: 0 <= k < |segs| ==> |segs[k]| == 4
  {
    AllWindows(a) + AllWindows(b) + AllWindows(c) + AllWindows(d)
  }

  /** `seg`: horizontal, vertical, slash and backslash windows, in that order. */
  function Segments(b: Board): (segs: seq<seq<Cell>>)
    requires WellFormed(b)
    ensures forall k :: 0 <= k < |segs| ==> |segs[k]| == 4
  {
    var width := b.rows + b.cols - 1;
    FamilyWindows(RowLines(b), ColLines(b), Zip(LeftRevolved(b), width), Zip(RightRevolved(b), width))
  }

  /** `s.count(Disc(p))`. */
  function Count(p: Player, s: seq<Cell>): (n: nat)
    ensures n <= |s|
    ensures n == 0 <==> Disc(p) !in s
  {
    if s == [] then 0 else (if s[0] == Disc(p) then 1 else 0) + Count(p, s[1..])
  }

  /** One step of the scoring loop for the histogram of `me` against `other`: a window
      without sentinel and without a disc of `other` bumps the bucket of `me`'s count. */
  function Bump(h: seq<nat>, me: Player, other: Player, s: seq<Cell>): seq<nat>
    requires |h| == 5 && |s| == 4
  {
    if Invalid in s || Disc(other) in s then h
    else h[Count(me, s) := h[Count(me, s)] + 1]
  }

  /** `score` (or, with the roles swapped, `adv_score`): the 5-bucket histogram. */
  function Histogram(me: Player, other: Player, segs: seq<seq<Cell>>): (h: seq<nat>)
    requires forall k :: 0 <= k < |segs| ==> |segs[k]| == 4
    ensures |h| == 5
  {
    if segs == [] then [0, 0, 0, 0, 0]
    else Bump(Histogram(me, other, segs[1..]), me, other, segs[0])
  }

  /** `sum([s * w for s, w in zip(h, weights)])`. */
  function Weighted(h: seq<nat>): int
    requires |h| == 5
  {
    h[0] * Weights[0] + h[1] * Weights[1] + h[2] * Weights[2] + h[3] * Weights[3] + h[4] * Weights[4]
  }

  /** `evaluate(player, board)`: reward minus penalty. */
  function Evaluate(p: Player, b: Board): int
    requires WellFormed(b)
  {
    var segs := Segments(b);
    Weighted(Histogram(p, Other(p), segs)) - Weighted(Histogram(Other(p), p, segs))
  }

  // ---------------------------------------------------------------------------
  // Reference definition: a sum of per-window contributions.

  /** What one window adds to the histogram score of `me` against `other`. */
  function Gain(me: Player, other: Player, s: seq<Cell>): nat
    requires |s| == 4
  {
    if Invalid in s || Disc(other) in s then 0 else Weights[Count(me, s)] as nat
  }

  /** What one window adds to the evaluation from `p`'s point of view. */
  function WindowScore(p: Player, s: seq<Cell>): int
    requires |s| == 4
  {
    Gain(p, Other(p), s) - Gain(Other(p), p, s)
  }

  function TotalGain(me: Player, other: Player, segs: seq<seq<Cell>>): int
    requires forall k :: 0 <= k < |segs| ==> |segs[k]| == 4
  {
    if segs == [] then 0 else Gain(me, other, segs[0]) + TotalGain(me, other, segs[1..])
  }

  function TotalScore(p: Player, segs: seq<seq<Cell>>): int
    requires forall k :: 0 <= k < |segs| ==> |segs[k]| == 4
  {
    if segs == [] then 0 else WindowScore(p, segs[0]) + TotalScore(p, segs[1..])
  }

  /** The weighted histogram is the sum of the windows' gains. */
  lemma {:induction false} HistogramIsTotalGain(me: Player, other: Player, segs: seq<seq<Cell>>)
    requires forall k :: 0 <= k < |segs| ==> |segs[k]| == 4
    ensures Weighted(Histogram(me, other, segs)) == TotalGain(me, other, segs)
  {
    if segs != [] {
      HistogramIsTotalGain(me, other, segs[1..]);
    }
  }

  lemma {:induction false} TotalScoreSplits(p: Player, segs: seq<seq<Cell>>)
    requires forall k :: 0 <= k < |segs| ==> |segs[k]| == 4
    ensures TotalScore(p, segs) == TotalGain(p, Other(p), segs) - TotalGain(Other(p), p, segs)
  {
    if segs != [] {
      TotalScoreSplits(p, segs[1..]);
    }
  }

  /** The evaluation is the sum, over all segments, of each window's own score. */
  lemma EvaluateIsWindowSum(p: Player, b: Board)
    requires WellFormed(b)
    ensures Evaluate(p, b) == TotalScore(p, Segments(b))
  {
    var segs := Segments(b);
    HistogramIsTotalGain(p, Other(p), segs);
    HistogramIsTotalGain(Other(p), p, segs);
    TotalScoreSplits(p, segs);
  }

  /** Antisymmetry: `score` and `adv_score` swap roles when the perspective flips. */
  lemma EvaluateAntisymmetric(p: Player, b: Board)
    requires WellFormed(b)
    ensures Evaluate(p, b) == -Evaluate(Other(p), b)
  {
  }

  /** A window touching the sentinel, a window holding discs of both players and an
      all-empty window add nothing. */
  lemma NeutralWindows(p: Player, s: seq<Cell>)
    requires |s| == 4
    ensures Invalid in s ==> WindowScore(p, s) == 0
    ensures Disc(p) in s && Disc(Other(p)) in s ==> WindowScore(p, s) == 0
    ensures (forall i :: 0 <= i < 4 ==> s[i] == Empty) ==> WindowScore(p, s) == 0
  {
    if forall i :: 0 <= i < 4 ==> s[i] == Empty {
      assert Disc(p) !in s && Disc(Other(p)) !in s;
    }
  }

  // ---------------------------------------------------------------------------
  // How many windows each orientation yields.

  lemma {:induction false} AllWindowsCount(lines: seq<seq<Cell>>, width: nat)
    requires UniformWidth(lines, width)
    ensures |AllWindows(lines)| == |lines| * Max0(width - 3)
  {
    if lines != [] {
      var m := Max0(width - 3);
      var k := |lines| - 1;
      assert UniformWidth(lines[1..], width) by {
        forall i | 0 <= i < k ensures |lines[1..][i]| == width {
          assert lines[1..][i] == lines[i + 1];
        }
      }
      AllWindowsCount(lines[1..], width);
      assert |Windows(lines[0])| == m;
      assert |AllWindows(lines)| == m + k * m;
      assert (k + 1) * m == k * m + m;
    }
  }

  /** Four families of uniform lines yield, each, one window per line per start. */
  lemma FamilyCount(a: seq<seq<Cell>>, b: seq<seq<Cell>>, c: seq<seq<Cell>>, d: seq<seq<Cell>>,
                    wa: nat, wb: nat, wc: nat, wd: nat)
    requires UniformWidth(a, wa) && UniformWidth(b, wb) && UniformWidth(c, wc) && UniformWidth(d, wd)
    ensures |FamilyWindows(a, b, c, d)|
      == |a| * Max0(wa - 3) + |b| * Max0(wb - 3) + |c| * Max0(wc - 3) + |d| * Max0(wd - 3)
  {
    AllWindowsCount(a, wa);
    AllWindowsCount(b, wb);
    AllWindowsCount(c, wc);
    AllWindowsCount(d, wd);
  }

  /** The number of segments the evaluator scores: `rows * (cols - 3)` horizontal,
      `cols * (rows - 3)` vertical and `(rows + cols - 1) * (rows - 3)` for each diagonal
      orientation (none for a negative factor, as `range` of a negative bound is empty). */
  lemma SegmentTotal(b: Board)
    requires WellFormed(b)
    ensures |Segments(b)| == b.rows * Max0(b.cols - 3) + b.cols * Max0(b.rows - 3)
      + 2 * ((b.rows + b.cols - 1) * Max0(b.rows - 3))
  {
    var width := b.rows + b.cols - 1;
    FamilyCount(RowLines(b), ColLines(b), Zip(LeftRevolved(b), width), Zip(RightRevolved(b), width),
                b.cols, b.rows, b.rows, b.rows);
  }

  // ---------------------------------------------------------------------------
  // The empty board is worth nothing to either player.

  ghost predicate NoDisc(s: seq<Cell>) {
    forall i :: 0 <= i < |s| ==> !s[i].Disc?
  }

  ghost predicate AllNoDisc(lines: seq<seq<Cell>>) {
    forall i :: 0 <= i < |lines| ==> NoDisc(lines[i])
  }

  lemma {:induction false} WindowsKeepNoDisc(lines: seq<seq<Cell>>)
    requires AllNoDisc(lines)
    ensures AllNoDisc(AllWindows(lines))
  {
    if lines != [] {
      WindowsKeepNoDisc(lines[1..]);
      var ws := Windows(lines[0]);
      assert AllNoDisc(ws) by {
        forall k | 0 <= k < |ws| ensures NoDisc(ws[k]) {
          assert ws[k] == lines[0][k..k + 4];
        }
      }
    }
  }

  lemma {:induction false} DiscFreeScoresZero(p: Player, segs: seq<seq<Cell>>)
    requires forall k :: 0 <= k < |segs| ==> |segs[k]| == 4
    requires AllNoDisc(segs)
    ensures TotalScore(p, segs) == 0
  {
    if segs != [] {
      DiscFreeScoresZero(p, segs[1..]);
      var s := segs[0];
      assert NoDisc(s);
      if Invalid !in s {
        forall i | 0 <= i < 4 ensures s[i] == Empty {
          assert s[i] in s;
        }
      }
      NeutralWindows(p, s);
    }
  }

  /** Column `j` of `zip(*m)` holds entry `j` of every row, so a disc-free matrix has
      disc-free columns. */
  lemma ZipNoDisc(m: seq<seq<Cell>>, width: nat)
    requires UniformWidth(m, width) && AllNoDisc(m)
    ensures AllNoDisc(Zip(m, width))
  {
    var t := Zip(m, width);
    forall j | 0 <= j < width ensures NoDisc(t[j]) {
      forall r | 0 <= r < |m| ensures !t[j][r].Disc? {
        assert t[j][r] == m[r][j];
        assert NoDisc(m[r]);
      }
    }
  }

  /** The four families of lines of an empty board hold no disc. */
  lemma EmptyBoardLines(b: Board)
    requires WellFormed(b)
    requires forall r, c :: 0 <= r < b.rows && 0 <= c < b.cols ==> b.grid[r][c] == Empty
    ensures AllNoDisc(RowLines(b)) && AllNoDisc(ColLines(b))
    ensures AllNoDisc(Zip(LeftRevolved(b), b.rows + b.cols - 1))
    ensures AllNoDisc(Zip(RightRevolved(b), b.rows + b.cols - 1))
  {
    var left := LeftRevolved(b);
    var right := RightRevolved(b);
    forall r | 0 <= r < b.rows ensures NoDisc(left[r]) && NoDisc(right[r]) {
      assert left[r] == Pad(r) + Row(b, r) + Pad(b.rows - 1 - r);
      assert right[r] == Pad(b.rows - 1 - r) + Row(b, r) + Pad(r);
    }
    ZipNoDisc(left, b.rows + b.cols - 1);
    ZipNoDisc(right, b.rows + b.cols - 1);
  }

  lemma AllNoDiscConcat(a: seq<seq<Cell>>, b: seq<seq<Cell>>)
    requires AllNoDisc(a) && AllNoDisc(b)
    ensures AllNoDisc(a + b)
  {
    forall i | 0 <= i < |a + b| ensures NoDisc((a + b)[i]) {
      if i < |a| {
        assert (a + b)[i] == a[i];
      } else {
        assert (a + b)[i] == b[i - |a|];
      }
    }
  }

  /** Windows of disc-free lines, in any four families, hold no disc. */
  lemma FamiliesNoDisc(a: seq<seq<Cell>>, b: seq<seq<Cell>>, c: seq<seq<Cell>>, d: seq<seq<Cell>>)
    requires AllNoDisc(a) && AllNoDisc(b) && AllNoDisc(c) && AllNoDisc(d)
    ensures AllNoDisc(FamilyWindows(a, b, c, d))
  {
    WindowsKeepNoDisc(a);
    WindowsKeepNoDisc(b);
    WindowsKeepNoDisc(c);
    WindowsKeepNoDisc(d);
    AllNoDiscConcat(AllWindows(a), AllWindows(b));
    AllNoDiscConcat(AllWindows(a) + AllWindows(b), AllWindows(c));
    AllNoDiscConcat(AllWindows(a) + AllWindows(b) + AllWindows(c), AllWindows(d));
  }

  /** When no line of any family holds a disc, no segment does. */
  lemma SegmentsNoDisc(b: Board)
    requires WellFormed(b)
    requires AllNoDisc(RowLines(b)) && AllNoDisc(ColLines(b))
    requires AllNoDisc(Zip(LeftRevolved(b), b.rows + b.cols - 1))
    requires AllNoDisc(Zip(RightRevolved(b), b.rows + b.cols - 1))
    ensures AllNoDisc(Segments(b))
  {
    var width := b.rows + b.cols - 1;
    FamiliesNoDisc(RowLines(b), ColLines(b), Zip(LeftRevolved(b), width), Zip(RightRevolved(b), width));
  }

  /** An empty board evaluates to 0 for either player. */
  lemma EmptyBoardScoresZero(p: Player, rows: nat, cols: nat)
    requires rows > 0 && cols > 0
    ensures Evaluate(p, EmptyBoard(rows, cols)) == 0
  {
    var b := EmptyBoard(rows, cols);
    EmptyBoardLines(b);
    SegmentsNoDisc(b);
    DiscFreeScoresZero(p, Segments(b));
    EvaluateIsWindowSum(p, b);
  }
}
