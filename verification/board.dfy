/**
  The board and the two board-level passes: marking every present stone
  dead, and summing the score bits into per-player totals.

  The source mutates a borrowed board in place; here a pass returns the
  updated board instead.
 */
module Boards {
  import opened Wrappers
  import opened Stones

  /** An unsigned 32-bit integer, the type of komi and of the totals. */
  newtype u32 = x: int | 0 <= x < 0x1_0000_0000

  const U32Max: int := 0xFFFF_FFFF

  /** Row-major cells plus the dimensions they were given with. */
  datatype Board = Board(stones: seq<Stone>, width: nat, height: nat)

  // Guessing dead stones ////////////////////////////////////////////////////

  /** What the guessing pass does to one cell: a present stone becomes dead. */
  function MarkDead(s: Stone): (r: Stone)
    ensures Present(r) == Present(s) && ColorOf(r) == ColorOf(s) && Score(r) == Score(s)
    ensures Dead(r) == (Present(s) || Dead(s))
    ensures SameOutside(r, s, StoneDead)
    ensures !Present(s) ==> r == s
  {
    if Present(s) then SetDead(s, true) else s
  }

  /**
    Marks every present stone dead, leaving empty cells bit-for-bit alone
    and every other bit of every cell unchanged.
   */
  method GuessDeadTiles(board: Board) returns (r: Board)
    ensures r.width == board.width && r.height == board.height
    ensures |r.stones| == |board.stones|
    ensures forall i :: 0 <= i < |board.stones| ==> r.stones[i] == MarkDead(board.stones[i])
    ensures forall i :: 0 <= i < |board.stones| && Present(board.stones[i]) ==> Dead(r.stones[i])
    ensures forall i :: 0 <= i < |board.stones| && !Present(board.stones[i]) ==> r.stones[i] == board.stones[i]
    ensures forall i :: 0 <= i < |board.stones| ==> SameOutside(r.stones[i], board.stones[i], StoneDead)
  {
    var stones := board.stones;
    var i := 0;
    while i < |stones|
      invariant 0 <= i <= |stones| == |board.stones|
      invariant forall k :: 0 <= k < i ==> stones[k] == MarkDead(board.stones[k])
      invariant forall k :: i <= k < |stones| ==> stones[k] == board.stones[k]
    {
      if Present(stones[i]) {
        stones := stones[i := SetDead(stones[i], true)];
      }
      i := i + 1;
    }
    r := Board(stones, board.width, board.height);
  }

  /** Guessing twice marks nothing more than guessing once. */
  lemma MarkDeadIdempotent(s: Stone)
    ensures MarkDead(MarkDead(s)) == MarkDead(s)
  {
  }

  // Summing scores //////////////////////////////////////////////////////////

  /** The indices among the first `n` cells whose score belongs to `c`. */
  function ScoredBelow(stones: seq<Stone>, n: nat, c: Color): set<nat>
    requires n <= |stones|
  {
    set k: nat | k < n && Score(stones[k]) == Some(c)
  }

  /** The cells counting for `c`. */
  function ScoredFor(stones: seq<Stone>, c: Color): set<nat> {
    ScoredBelow(stones, |stones|, c)
  }

  /** The cells counting for either player. */
  function ScoredCells(stones: seq<Stone>): set<nat> {
    set k: nat | k < |stones| && Score(stones[k]).Some?
  }

  /** Extending the prefix by one cell adds that cell exactly when it scores for `c`. */
  lemma ScoredBelowStep(stones: seq<Stone>, n: nat, c: Color)
    requires n < |stones|
    ensures |ScoredBelow(stones, n + 1, c)| ==
            |ScoredBelow(stones, n, c)| + (if Score(stones[n]) == Some(c) then 1 else 0)
  {
    if Score(stones[n]) == Some(c) {
      assert ScoredBelow(stones, n + 1, c) == ScoredBelow(stones, n, c) + {n};
    } else {
      assert ScoredBelow(stones, n + 1, c) == ScoredBelow(stones, n, c);
    }
  }

  /** A prefix never holds more scored cells than the whole board. */
  lemma ScoredBelowMonotone(stones: seq<Stone>, n: nat, c: Color)
    requires n <= |stones|
    ensures |ScoredBelow(stones, n, c)| <= |ScoredFor(stones, c)|
  {
    var a, b := ScoredBelow(stones, n, c), ScoredFor(stones, c);
    assert b == a + (b - a);
  }

  /** A prefix of `n` cells holds at most `n` scored cells. */
  lemma {:induction false} ScoredBelowBound(stones: seq<Stone>, n: nat, c: Color)
    requires n <= |stones|
    ensures |ScoredBelow(stones, n, c)| <= n
  {
    if n > 0 {
      ScoredBelowBound(stones, n - 1, c);
      ScoredBelowStep(stones, n - 1, c);
    }
  }

  /** Every scored cell counts for exactly one of the two players. */
  lemma ScoredCellsSplit(stones: seq<Stone>)
    ensures |ScoredCells(stones)| == |ScoredFor(stones, Black)| + |ScoredFor(stones, White)|
  {
    var b, w := ScoredFor(stones, Black), ScoredFor(stones, White);
    assert ScoredCells(stones) == b + w;
    assert b * w == {};
  }

  /** Komi plus two half-points per cell for each player must fit in a `u32`. */
  predicate SumsFit(stones: seq<Stone>, komi: u32) {
    && 2 * |ScoredFor(stones, Black)| <= U32Max
    && komi as int + 2 * |ScoredFor(stones, White)| <= U32Max
  }

  /**
    Totals in half points: each cell scored for Black adds 2 to Black, each
    cell scored for White adds 2 to White, and White starts at `komi`.
   */
  method ScoreSums(board: Board, komi: u32) returns (black: u32, white: u32)
    requires SumsFit(board.stones, komi)
    ensures black as int == 2 * |ScoredFor(board.stones, Black)|
    ensures white as int == komi as int + 2 * |ScoredFor(board.stones, White)|
    ensures black as int + white as int == komi as int + 2 * |ScoredCells(board.stones)|
    ensures black as int <= 2 * |board.stones|
  {
    var stones := board.stones;
    black, white := 0, komi;
    var i := 0;
    while i < |stones|
      invariant 0 <= i <= |stones|
      invariant black as int == 2 * |ScoredBelow(stones, i, Black)|
      invariant white as int == komi as int + 2 * |ScoredBelow(stones, i, White)|
    {
      ScoredBelowStep(stones, i, Black);
      ScoredBelowStep(stones, i, White);
      match Score(stones[i]) {
        case None =>
        case Some(Black) =>
          ScoredBelowMonotone(stones, i + 1, Black);
          black := black + 2;
        case Some(White) =>
          ScoredBelowMonotone(stones, i + 1, White);
          white := white + 2;
      }
      i := i + 1;
    }
    ScoredCellsSplit(stones);
    ScoredBelowBound(stones, |stones|, Black);
  }

  /** Guessing dead stones never changes what either player scores. */
  lemma GuessDeadKeepsScores(stones: seq<Stone>, marked: seq<Stone>, c: Color)
    requires |marked| == |stones|
    requires forall i :: 0 <= i < |stones| ==> marked[i] == MarkDead(stones[i])
    ensures ScoredFor(marked, c) == ScoredFor(stones, c)
  {
  }
}
