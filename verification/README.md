# libgoscore scoring core in Dafny

This project models the Rust library `libgoscore`, which scores Go-style
boards. It covers the parts of `src/lib.rs` that are actually implemented:

- **Stone**: one cell packed into a byte. Five flags are defined: presence
  `0x1`, colour `0x2` (set means White), dead `0x4`, score `0x8` and score
  colour `0x10` (set means White). Each flag has an accessor and a setter.
- **Board**: the row-major cells plus a width and a height.
- **`guess_dead_tiles`**: sets the dead bit on every present stone.
- **`score_sums`**: folds the score bits into a `(black, white)` pair of
  `u32` totals in half-point units. Each cell scored for a player adds 2 to
  that player's total, and White starts at `komi`.

Layout:

- `wrappers.dfy` holds the `Option` type.
- `stone.dfy` (module `Stones`) holds the bit constants, the accessors, the
  setters and the per-stone properties.
- `board.dfy` (module `Boards`) holds the board and the two passes. It also
  defines a `u32` newtype for komi and for the totals.

The source changes a borrowed `&mut Board` in place. The model returns the
updated board instead. `score_sums` takes `&Board`, so it cannot change the
board. In the model the board is an immutable value.

Notes on the code as written:

- `dead()` reads the raw bit and is not gated on presence
  (src/lib.rs:80-82, `Stones.DeadIgnoresPresence`).
- `score_sums` adds 2 per scored cell and returns only `(black, white)`
  (src/lib.rs:36-47).
- `score_tiles` is `unimplemented!()` (src/lib.rs:32-34).

## Model

| member | source | states |
|---|---|---|
| Stones.Present | src/lib.rs:68-70 | true exactly when bit 0 (`0x1`) of the byte is set |
| Stones.Dead | src/lib.rs:80-82 | true exactly when bit 2 (`0x4`) is set; it reads the raw bit and is not gated on presence |
| Stones.ColorOf | src/lib.rs:92-102 | `None` exactly when bit 0 is clear; otherwise `Some(White)` when bit 1 (`0x2`) is set and `Some(Black)` when it is clear |
| Stones.Score | src/lib.rs:117-127 | `None` exactly when bit 3 (`0x8`) is clear; otherwise `Some(White)` when bit 4 (`0x10`) is set and `Some(Black)` when it is clear; presence plays no part |
| Stones.SetPresent | src/lib.rs:72-78 | afterwards `Present` reads back the requested value; only bit `0x1` changes; dead and score are kept |
| Stones.SetDead | src/lib.rs:84-90 | afterwards `Dead` reads back the requested value whether or not a stone is present; only bit `0x4` changes; presence, colour and score are kept |
| Stones.SetColor | src/lib.rs:104-115 | afterwards `ColorOf` reads back the requested colour and `Present` equals `color.Some?`; only bits `0x1`/`0x2` change; `None` changes only bit `0x1`; dead and score are kept |
| Stones.SetScore | src/lib.rs:129-140 | afterwards `Score` reads back the requested owner; only bits `0x8`/`0x10` change; `None` changes only bit `0x8`; presence, colour and dead are kept |
| Stones.FlagsAreDistinctBits | src/lib.rs:52-56 | each of the five flag constants is a single bit, and no two of them share a bit |
| Stones.EmptyStone | src/lib.rs:152-156 | the zero byte is not present, not dead, has no colour and has no score |
| Stones.ColorGatedOnPresence | src/lib.rs:92-102 | the colour reads as `None` exactly when the presence bit is clear |
| Stones.DeadIgnoresPresence | src/lib.rs:80-82 | on a stone with no presence, `Dead` still reports the dead bit as it was set |
| Stones.PresenceRestoresColor | src/lib.rs:174-183 | `SetPresent(false)` hides the colour; `SetPresent(true)` afterwards brings back the colour set earlier |
| Stones.AccessorRoundTrips | src/lib.rs:158-188 | for any starting stone and every colour, score, presence and dead choice, the test's sequence of setters reads back every value as the test asserts |
| Boards.MarkDead | src/lib.rs:26-28 | the per-cell step: a present stone becomes dead; an empty cell is returned unchanged; presence, colour and score are kept; only bit `0x4` can change |
| Boards.GuessDeadTiles | src/lib.rs:24-30 | keeps the dimensions and the cell count; every present stone ends up dead; empty cells are unchanged bit for bit; no bit other than `0x4` changes in any cell |
| Boards.MarkDeadIdempotent | src/lib.rs:26-28 | the per-cell step applied twice gives the same stone as applying it once |
| Boards.GuessDeadKeepsScores | src/lib.rs:24-47 | guessing dead stones leaves the set of cells scored for each player unchanged, so the totals of `score_sums` are unchanged |
| Boards.ScoredCellsSplit | src/lib.rs:40-44 | every scored cell counts for exactly one player, so the scored cells are the disjoint union of Black's and White's |
| Boards.ScoreSums | src/lib.rs:36-47 | `black` is 2 × the number of cells scored for Black; `white` is komi + 2 × the number scored for White; together they equal komi + 2 × the number of scored cells; `black` is at most 2 × the board size |

## Left out

- `src/ffi.rs` is not part of this model. It is the C boundary: it builds a
  board over raw memory with `slice::from_raw_parts_mut` and forwards calls.
  It calls `guess_dead_stones` and `score_stones`, which `lib.rs` does not
  define. It also binds the `(black, white)` result as `(w, b)`.
- `goscore.h` is not part of this model. It holds only constants and extern
  declarations, and its `int` return for `score_sums` has no counterpart in
  Rust.
- `main.c` is not part of this model. It is a demo driver that builds one
  5×5 board, calls the three exports and prints the results.
- `score_tiles` is `unimplemented!()`, so it is not modelled. Territory flood
  fill, neighbours, the `processed` flag and a winner do not exist in the
  code.
- Boards.ScoreSums: requires that both totals fit in a `u32`
  (`SumsFit`). Rust panics on that overflow in a debug build and wraps in a
  release build; neither path is modelled.
- The signedness of `c_char` is not modelled: every flag is in the low five
  bits, so a stone is a `bv8`.
- Board dimensions are carried but never checked against the cell count,
  because neither pass in `lib.rs` reads them.
