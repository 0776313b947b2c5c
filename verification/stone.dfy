/**
  One board cell, packed into a single byte.

  Five flags live in the low five bits: presence, colour (set = White),
  dead, score (the cell is worth a point) and score colour (set = White).
  The three high bits are carried along untouched by every setter.
 */
module Stones {
  import opened Wrappers

  datatype Color = Black | White

  /** A stone is just its byte; every bit pattern is a valid stone. */
  datatype Stone = Stone(bits: bv8)

  const StonePresence: bv8 := 0x01
  const StoneColor: bv8 := 0x02
  const StoneDead: bv8 := 0x04
  const StoneScore: bv8 := 0x08
  const StoneScoreColor: bv8 := 0x10

  /** A mask with exactly one bit set. */
  predicate SingleBit(m: bv8) {
    m != 0 && m & (m - 1) == 0
  }

  /** True when `a` and `b` agree on every bit outside `changed`. */
  predicate SameOutside(a: Stone, b: Stone, changed: bv8) {
    a.bits & !changed == b.bits & !changed
  }

  // Accessors ///////////////////////////////////////////////////////////////

  /** Bit number `k` of the stone's byte, read arithmetically (bit 0 is the lowest). */
  predicate BitAt(s: Stone, k: nat)
    requires k < 8
  {
    (s.bits as int / Pow2(k)) % 2 == 1
  }

  function Pow2(k: nat): (r: nat)
    ensures r > 0
  {
    if k == 0 then 1 else 2 * Pow2(k - 1)
  }

  /** Presence is bit 0. */
  predicate Present(s: Stone)
    ensures Present(s) <==> BitAt(s, 0)
  {
    s.bits & StonePresence != 0
  }

  /** The raw dead bit, bit 2; unlike the colour it is not gated on presence. */
  predicate Dead(s: Stone)
    ensures Dead(s) <==> BitAt(s, 2)
  {
    s.bits & StoneDead != 0
  }

  /** `None` when bit 0 is clear; otherwise bit 1 picks White over Black. */
  function ColorOf(s: Stone): (r: Option<Color>)
    ensures r.None? <==> !BitAt(s, 0)
    ensures r == Some(White) <==> BitAt(s, 0) && BitAt(s, 1)
    ensures r == Some(Black) <==> BitAt(s, 0) && !BitAt(s, 1)
  {
    if Present(s) then
      if s.bits & StoneColor == 0 then Some(Black) else Some(White)
    else
      None
  }

  /** `None` when bit 3 is clear; otherwise bit 4 picks White over Black. */
  function Score(s: Stone): (r: Option<Color>)
    ensures r.None? <==> !BitAt(s, 3)
    ensures r == Some(White) <==> BitAt(s, 3) && BitAt(s, 4)
    ensures r == Some(Black) <==> BitAt(s, 3) && !BitAt(s, 4)
  {
    if s.bits & StoneScore != 0 then
      if s.bits & StoneScoreColor == 0 then Some(Black) else Some(White)
    else
      None
  }

  // Setters /////////////////////////////////////////////////////////////////

  function SetPresent(s: Stone, present: bool): (r: Stone)
    ensures Present(r) == present
    ensures SameOutside(r, s, StonePresence)
    ensures Dead(r) == Dead(s) && Score(r) == Score(s)
  {
    if present then Stone(s.bits | StonePresence)
    else Stone(s.bits & !StonePresence)
  }

  function SetDead(s: Stone, dead: bool): (r: Stone)
    ensures Dead(r) == dead
    ensures SameOutside(r, s, StoneDead)
    ensures Present(r) == Present(s) && ColorOf(r) == ColorOf(s) && Score(r) == Score(s)
  {
    if dead then Stone(s.bits | StoneDead)
    else Stone(s.bits & !StoneDead)
  }

  /** `None` only clears presence: the colour bit survives underneath. */
  function SetColor(s: Stone, color: Option<Color>): (r: Stone)
    ensures ColorOf(r) == color
    ensures Present(r) == color.Some?
    ensures SameOutside(r, s, StonePresence | StoneColor)
    ensures color.None? ==> SameOutside(r, s, StonePresence)
    ensures Dead(r) == Dead(s) && Score(r) == Score(s)
  {
    match color
    case None => Stone(s.bits & !StonePresence)
    case Some(Black) => Stone((s.bits | StonePresence) & !StoneColor)
    case Some(White) => Stone(s.bits | StonePresence | StoneColor)
  }

  function SetScore(s: Stone, score: Option<Color>): (r: Stone)
    ensures Score(r) == score
    ensures SameOutside(r, s, StoneScore | StoneScoreColor)
    ensures score.None? ==> SameOutside(r, s, StoneScore)
    ensures Present(r) == Present(s) && ColorOf(r) == ColorOf(s) && Dead(r) == Dead(s)
  {
    match score
    case None => Stone(s.bits & !StoneScore)
    case Some(Black) => Stone((s.bits | StoneScore) & !StoneScoreColor)
    case Some(White) => Stone(s.bits | StoneScore | StoneScoreColor)
  }

  // Properties //////////////////////////////////////////////////////////////

  /** The five flags are distinct single bits, so no two setters share a bit. */
  lemma FlagsAreDistinctBits()
    ensures SingleBit(StonePresence) && SingleBit(StoneColor) && SingleBit(StoneDead)
    ensures SingleBit(StoneScore) && SingleBit(StoneScoreColor)
    ensures StonePresence & StoneColor == 0 && StonePresence & StoneDead == 0
    ensures StonePresence & StoneScore == 0 && StonePresence & StoneScoreColor == 0
    ensures StoneColor & StoneDead == 0 && StoneColor & StoneScore == 0
    ensures StoneColor & StoneScoreColor == 0 && StoneDead & StoneScore == 0
    ensures StoneDead & StoneScoreColor == 0 && StoneScore & StoneScoreColor == 0
  {
  }

  /** The all-zero byte is an empty, live, unscored cell. */
  lemma EmptyStone()
    ensures !Present(Stone(0)) && !Dead(Stone(0))
    ensures ColorOf(Stone(0)) == None && Score(Stone(0)) == None
  {
  }

  /** The colour reads as absent exactly when the presence bit is clear. */
  lemma ColorGatedOnPresence(s: Stone)
    ensures ColorOf(s) == None <==> !Present(s)
  {
  }

  /** The dead bit is observable on an empty cell: `Dead` is not gated. */
  lemma DeadIgnoresPresence(s: Stone, dead: bool)
    ensures var t := SetDead(SetColor(s, None), dead); !Present(t) && Dead(t) == dead
  {
  }

  /**
    Hiding a stone with `SetPresent(false)` and showing it again with
    `SetPresent(true)` brings back the colour it was given, because the
    colour bit is never touched by presence.
   */
  lemma PresenceRestoresColor(s: Stone, c: Color)
    ensures ColorOf(SetPresent(SetColor(s, Some(c)), false)) == None
    ensures ColorOf(SetPresent(SetPresent(SetColor(s, Some(c)), false), true)) == Some(c)
  {
  }

  /**
    One round of the exhaustive accessor test, for an arbitrary starting
    stone: set colour, score and dead, read them back, then force presence.
   */
  lemma AccessorRoundTrips(s: Stone, color: Option<Color>, score: Option<Color>, present: bool, dead: bool)
    ensures var t := SetDead(SetScore(SetColor(s, color), score), dead);
      && ColorOf(t) == color && Score(t) == score && Dead(t) == dead
      && Present(t) == color.Some?
    ensures var u := SetPresent(SetDead(SetScore(SetColor(s, color), score), dead), present);
      && Present(u) == present
      && (present && color.Some? ==> ColorOf(u) == color)
      && (!present ==> ColorOf(u) == None)
  {
  }
}
