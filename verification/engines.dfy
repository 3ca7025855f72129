/** The three move engines of `four_in_a_row.py` side by side. */
module Engines {
  import opened Board
  import Minimax
  import AlphaBeta
  import Expectimax

  /** Every engine gives up (answers `None`) exactly at depth 0 or on a finished game,
      and otherwise proposes a column. */
  lemma GiveUpExactlyWhenOver(rule: Expectimax.ChanceRule, p: Player, b: Board, depth: nat)
    requires WellFormed(b)
    ensures Minimax.Minimax(p, b, depth).None? <==> depth == 0 || Terminal(b)
    ensures AlphaBeta.AlphaBeta(p, b, depth).None? <==> depth == 0 || Terminal(b)
    ensures Expectimax.Expectimax(rule, p, b, depth).None? <==> depth == 0 || Terminal(b)
  {
    if depth > 0 && !Terminal(b) {
      Minimax.MinimaxPicksLeftmostBest(p, b, depth);
      Expectimax.ExpectimaxPicksLeftmostBest(rule, p, b, depth);
    }
  }
}
