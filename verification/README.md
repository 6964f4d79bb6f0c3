# CineTerm compositing engine in Dafny

This project models the compositing core of CineTerm, a small Rust library for ASCII animation. The core has two parts:

- **Frame**: a dense `height x width` grid of characters, with a clipped overlay operation.
- **Movie**: an ordered list of frames, with overlay operations that pair target frames with source frames cyclically.

The repository carries this code twice, as near-duplicates, in `src/lib.rs` and `src/main.rs`. Code that is the same in both files is modelled once. Code that differs is modelled once per file.

| file | module | what it holds |
|---|---|---|
| `frames.dfy` | `Frames` | `Frame`, `new`, `clone`, the clipped overlay `overlay_with_frame(_at_position)` (called `override_with_frame(_at_position)` in `src/main.rs`) |
| `movies.dfy` | `Movies` | `Movie`, `new`, `new_blank`, `add_frame`, the cyclic overlay and its range-restricted variant (`overlay_*` in `src/lib.rs`, `override_*` in `src/main.rs`) |
| `lib_rs.dfy` | `LibRs` | the `src/lib.rs` string overlay, which ignores its offsets, plus `from_string` and the line loop of `from_file` built on it |
| `main_rs.dfy` | `MainRs` | the `src/main.rs` string overlay, which goes through the clipped overlay, plus `from_string` and the line loop of `from_file` built on it |
| `divergence.dfy` | `LibMainDivergence` | concrete inputs on which the two files disagree: the string overlay and the line loop of `from_file` |

Modelling choices:

- A frame is `Frame(height, width, pixels: seq<seq<char>>)`. `Valid()` says there are `height` rows of `width` characters, which holds for every frame the library builds.
- Each overlay is a pure function that returns the updated frame. The Rust code mutates the frame in place instead.
- The clipped overlay is a recursive fold over the source rows and, inside each row, over the characters (`PasteLines`, `PasteLine`). It follows the two nested loops and their `continue` guards.
- The fold's contract gives the result in closed form. Target cell `(i, j)` becomes source cell `(i - y, j - x)` when that cell exists, and is otherwise unchanged.
- The movie overlays are methods with the source's wrapping counter. Their loop invariants keep the counter equal to `k mod n`. In the range variant, `k` counts only the frames inside the range.
- Each movie overlay method is proved equal to a reference definition written as a sequence comprehension (`Movies.Tiled`, `Movies.TiledInRange`). The lemmas are stated about those definitions.
- `add_frame` checks no frame dimensions.
- The range argument is a half-open `Range<u32>`.
- An index out of bounds makes the Rust code panic. That case becomes a `requires`:
  - an empty source movie makes the cyclic overlay panic when the target has frames, and the range overlay panic when the range selects a frame;
  - the `src/lib.rs` string overlay panics when it writes a character into a frame without row 0.

## Model

| member | source | states |
|---|---|---|
| Frames.New | src/lib.rs:46-52 | `new(h, w)` is well formed: exactly `h` rows of exactly `w` characters, each a space (the same as src/main.rs:29-35) |
| Frames.Clone | src/lib.rs:17-29 | the row-by-row deep copy is value-equal to the original frame (the same as src/main.rs:13-25) |
| Frames.PasteLine | src/lib.rs:138-143 | after the first `k` steps of the inner loop, only row `row` changes; column `j` there holds `line[j - x]` when `0 <= j - x < k`; columns outside the frame are skipped; the grid shape is kept |
| Frames.PasteLines | src/lib.rs:134-144 | after the first `n` source lines, cell `(i, j)` holds `src[i - y][j - x]` when line `i - y` is among them and reaches column `j - x`, otherwise its old value; rows outside the frame are skipped; the grid shape is kept |
| Frames.OverlayAt | src/lib.rs:133-145 | the clipped overlay keeps height, width and every row length. Target cell `(i, j)` becomes `src[i - y][j - x]` when that source cell exists, and is unchanged otherwise. No error, clamping or wrap-around (the same as src/main.rs:66-78) |
| Frames.OverlayWithFrame | src/lib.rs:115-117 | the overlay at the origin places source cell `(i, j)` on target cell `(i, j)` where both exist. A well-formed source of the target's own size makes the result equal to the source (the same as src/main.rs:62-64) |
| Frames.OverlayOutsideIsIdentity | src/main.rs:66-78 | a source placed wholly outside the target (`x >= width`, `y >= height`, `x + src.width <= 0` or `y + src.height <= 0`) leaves the target unchanged |
| Frames.OverlayIdempotent | src/lib.rs:142 | cells are overwritten unconditionally, so a second identical overlay changes nothing |
| Movies.Empty | src/lib.rs:238-244 | `Movie::new` holds no frames and records the given dimensions |
| Movies.AddFrame | src/lib.rs:277-279 | `add_frame` adds one frame. The new last frame is value-equal to the argument, and the earlier frames are unchanged. Any frame size is accepted. The movie stays well formed exactly when the new frame is well formed (the same as src/main.rs:139-141) |
| Movies.NewBlank | src/lib.rs:260-267 | `new_blank(h, w, n)` holds exactly `n` frames, each equal to `new(h, w)` (the same as src/main.rs:129-136) |
| Movies.WrapStep | src/lib.rs:317-320 | a counter equal to `a mod n`, incremented and reset to 0 when it reaches `n`, equals `(a + 1) mod n` |
| Movies.OverlayWithMovieAt | src/lib.rs:313-322 | needs a non-empty source movie when the target has frames. Keeps the frame count. Frame `k` becomes the overlay at `(x, y)` of source frame `k mod n`. The counter-driven loop equals the comprehension `Tiled` (the same as src/main.rs:148-157) |
| Movies.OverlayWithMovie | src/lib.rs:294-296 | the cyclic overlay at the origin keeps the movie's height, width and frame count. Frame `k` is overlaid at `(0, 0)` with source frame `k mod n`. The result equals `Tiled` at `(0, 0)` (the same as src/main.rs:144-146) |
| Movies.OverlayWithMovieAtInRange | src/lib.rs:335-354 | keeps the frame count. Frame `k` with `lo <= k < hi` becomes the overlay with source frame `(k - lo) mod n`, because the counter advances only on selected frames. Other frames are unchanged. A source frame is needed only if some frame is selected (the same as src/main.rs:159-178) |
| Movies.OverlayWithMovieDocExample | src/lib.rs:290-293 | the documented example: the one-frame movie "XXX" overlaid with the one-frame movie "O" gives "OXX" |
| Movies.TiledRepeatsSource | src/lib.rs:298-303 | source frames are reused in a loop. Source frames `A, B` over five blank frames of the same size give `A, B, A, B, A` |
| Movies.InRangeEmptyIsIdentity | src/lib.rs:342-346 | an empty range (`hi <= lo`) selects no frame and changes nothing |
| Movies.InRangeFromZeroIsTiled | src/main.rs:148-178 | a range from 0 that covers the whole movie gives the plain cyclic overlay |
| Movies.InRangeIsTiledSlice | src/main.rs:166-177 | the range overlay is the cyclic overlay of the slice `lo..hi`, with the counter starting at `lo`. The frames before and after the slice are kept |
| Movies.InRangeCounterAdvancesOnlyOnInclusion | src/main.rs:168-176 | over six blank frames, range `1..6` with source `A, B` gives `blank, A, B, A, B, A`: frame 0, outside the range, does not use up a source frame |
| LibRs.WritePrefix | src/lib.rs:172-176 | after the first `k` characters, position `j` of row 0 holds `s[j]` for `j < k` and its old value otherwise. Characters past the row's end are skipped |
| LibRs.OverlayWithStringAt | src/lib.rs:171-177 | ignores `x` and `y`: writes `s[0..min(|s|, width))` into row 0 and leaves every other cell unchanged. Needs `height >= 1` when `width > 0` and `s` is non-empty (it indexes `pixels[0]`) |
| LibRs.OverlayWithStringAtIgnoresOffset | src/lib.rs:171-177 | the positioned string overlay gives the same frame at every offset `(x, y)` as at `(0, 0)` |
| LibRs.OverlayWithString | src/lib.rs:147-157 | starts at the top-left corner: the first `min(\|s\|, width)` characters of `s` land in row 0, and every other cell is unchanged. Height and width are kept |
| LibRs.FromString | src/lib.rs:67-73 | `from_string(s)` is the 1 x \|s\| frame whose single row is `s` |
| LibRs.OverlayLines | src/lib.rs:100-102 | after `n` lines of the loop, rows 1 and below are blank. Column `j` of row 0 holds character `j` of the last line long enough to reach it, or a space if no line is |
| LibRs.FromLines | src/lib.rs:98-104 | the `from_file` frame built from already-split lines has the requested dimensions. Every line is written over row 0, and all other rows stay blank |
| MainRs.CopyChars | src/main.rs:87-89 | after the first `k` characters, position `j` of the temporary row holds `s[j]` for `j < k` and a space otherwise |
| MainRs.RowFrame | src/main.rs:85-89 | the temporary frame is well formed, 1 x \|s\|, and its only row is `s` |
| MainRs.OverrideWithStringAt | src/main.rs:84-92 | honours both offsets and clips: cell `(y, j)` becomes `s[j - x]` for `0 <= j - x < \|s\|`, and every other cell is unchanged. Never panics, not even on a frame without rows |
| MainRs.OverrideWithString | src/main.rs:80-82 | at the origin, the first `min(\|s\|, width)` characters of `s` land in row 0, and nothing else changes |
| MainRs.FromString | src/main.rs:37-43 | `from_string(s)` is the 1 x \|s\| frame whose single row is `s` |
| MainRs.LongStringAtOriginIsClipped | src/main.rs:84-91 | a string longer than the width, written at `(0, 0)`, makes row 0 exactly its first `width` characters and leaves every other row untouched |
| MainRs.OverrideLines | src/main.rs:54-56 | after `n` lines, cell `(i, j)` holds `lines[i][j]` when `i < n` and line `i` reaches column `j`, and a space otherwise |
| MainRs.FromLines | src/main.rs:52-58 | the `from_file` frame built from already-split lines: row `i` carries line `i` cut to the width and is blank after it. Rows with no line are blank, and lines beyond the height are ignored |
| MainRs.FromLinesRow | src/main.rs:52-56 | row `i` equals line `i` padded with spaces to the width, or its first `width` characters when the line is longer |
| LibMainDivergence.StringOverlayOffsetIgnored | src/lib.rs:159-177 | writing "a" at `(1, 1)` into a blank 2 x 2 frame: src/lib.rs puts it at `(0, 0)`, src/main.rs at `(1, 1)` |
| LibMainDivergence.FromLinesStacksIntoRowZero | src/lib.rs:98-102 | the lines "a", "b" in a 2 x 1 frame: src/lib.rs gives rows "b", " ", src/main.rs gives rows "a", "b" |

## Left out

- File I/O in `from_file` is not modelled: `File::open`, `read_to_string`, and splitting the contents into lines with `lines()`. Both `FromLines` functions take the lines already split.
- `print` and `play` are not modelled. They emit terminal escape codes, call `print!` and sleep. `play` divides 1000 by its frames-per-second argument, so it panics when that is 0.
- `get_width`, `get_height` and the empty `main` are not modelled. They carry no logic.
- Machine-integer widths are not modelled: the `as i32` and `as u32` casts, and the `u32` counters. All dimensions, offsets and indexes are mathematical integers, and dimensions are assumed to fit those types.
- Bytes and characters are not distinguished. The Rust code counts a string's length in bytes and copies bytes as characters. The model treats strings as `seq<char>` and assumes ASCII text.
- The documented example at src/lib.rs:311 is not encoded. It contradicts the code: offset `y = 1` on a one-row frame changes nothing.
- `Movie` keeps its `height` and `width` but constrains nothing with them. The code never checks a frame against them, and clipping makes the overlays work for source frames of any size.
- The range argument is a `Range<u32>` that the code first collects into a vector and then searches. The model keeps only the membership test `lo <= k < hi`.

## Findings

| source | as written | input that shows it | evidently intended | confidence | as-written member | corrected member |
|---|---|---|---|---|---|---|
| src/lib.rs:171-177 | `overlay_with_string_at_position` never reads `x` or `y`. It always writes from row 0, column 0. | blank 2 x 2 frame, `x = 1`, `y = 1`, `s = "a"`: the result has `'a'` at `(0, 0)` | its doc comment says the start position is `(x, y)`: `'a'` at `(1, 1)`, as in src/main.rs:84-92 | high, not executed | LibRs.OverlayWithStringAt, LibMainDivergence.StringOverlayOffsetIgnored | MainRs.OverrideWithStringAt |
| src/lib.rs:100-102 | `from_file` writes line `i` at offset `(0, i)`, but the offset is dropped, so every line overwrites row 0 | 2 x 1 frame with lines "a", "b": rows "b", " " | line `i` lands on row `i`, as its doc comment says and src/main.rs:54-56 does: rows "a", "b" | high, not executed | LibRs.FromLines, LibMainDivergence.FromLinesStacksIntoRowZero | MainRs.FromLines |
