/** The parts of src/lib.rs that differ from src/main.rs: its string overlay
    writes into row 0 from column 0 whatever offsets it is given, and so its
    line loop of `from_file` writes every line over row 0. */
module LibRs {
  import opened Frames

  /** The loop of `overlay_with_string_at_position` after its first `k`
      iterations: character `c` of `s` goes to position `c` of `row` when
      `c` is below the row's length and is skipped otherwise. */
  function WritePrefix(row: seq<char>, s: string, k: nat): (r: seq<char>)
    requires k <= |s|
    ensures |r| == |row|
    ensures forall j :: 0 <= j < |row| ==> r[j] == if j < k then s[j] else row[j]
    decreases k
  {
    if k == 0 then row
    else
      var r := WritePrefix(row, s, k - 1);
      if k - 1 < |row| then r[k - 1 := s[k - 1]] else r
  }

  /** Row 0 must exist as soon as a character is actually written into it. */
  predicate StringFits(self: Frame, s: string) {
    self.width > 0 && |s| > 0 ==> self.height > 0
  }

  /** `overlay_with_string_at_position(x, y, s)` as written: `x` and `y` are
      unused; the first `min(|s|, width)` characters of `s` land in row 0. */
  function OverlayWithStringAt(self: Frame, x: int, y: int, s: string): (r: Frame)
    requires self.Valid() && StringFits(self, s)
    ensures r.Valid() && r.height == self.height && r.width == self.width
    ensures forall i, j :: 0 <= i < self.height && 0 <= j < self.width ==>
              r.pixels[i][j] == if i == 0 && j < |s| then s[j] else self.pixels[i][j]
  {
    if self.width == 0 || |s| == 0 then self
    else self.(pixels := self.pixels[0 := WritePrefix(self.pixels[0], s, |s|)])
  }

  /** The positioned string overlay gives the same frame at every offset. */
  lemma OverlayWithStringAtIgnoresOffset(self: Frame, x: int, y: int, s: string)
    requires self.Valid() && StringFits(self, s)
    ensures OverlayWithStringAt(self, x, y, s) == OverlayWithStringAt(self, 0, 0, s)
  {
  }

  /** `overlay_with_string(s)`: the string overlay from the top-left corner;
      the first `min(|s|, width)` characters land in row 0. */
  function OverlayWithString(self: Frame, s: string): (r: Frame)
    requires self.Valid() && StringFits(self, s)
    ensures r.Valid() && r.height == self.height && r.width == self.width
    ensures forall i, j :: 0 <= i < self.height && 0 <= j < self.width ==>
              r.pixels[i][j] == if i == 0 && j < |s| then s[j] else self.pixels[i][j]
  {
    OverlayWithStringAt(self, 0, 0, s)
  }

  /** `from_string(s)`: a one-row frame as wide as `s` holding `s`. */
  function FromString(s: string): (f: Frame)
    ensures f.Valid()
    ensures f == Frame(1, |s|, [s])
  {
    var f := OverlayWithString(New(1, |s|), s);
    FrameExtensionality(f, Frame(1, |s|, [s]));
    f
  }

  /** Index of the last of the first `n` lines long enough to reach column
      `j`, or -1 when none is. */
  function LastCovering(lines: seq<string>, n: nat, j: nat): (k: int)
    requires n <= |lines|
    ensures -1 <= k < n
    ensures k >= 0 ==> j < |lines[k]|
    ensures forall t :: k < t < n ==> j >= |lines[t]|
    decreases n
  {
    if n == 0 then -1
    else if j < |lines[n - 1]| then n - 1
    else LastCovering(lines, n - 1, j)
  }

  /** No line is written unless row 0 exists or nothing would be written. */
  predicate LinesFit(height: nat, width: nat, lines: seq<string>) {
    height == 0 ==> width == 0 || forall k :: 0 <= k < |lines| ==> |lines[k]| == 0
  }

  /** The line loop of `from_file` after its first `n` lines: line `k` is
      overlaid at offset (0, k), which this string overlay ignores, so every
      line is written over row 0 and column `j` of row 0 ends up holding the
      last line long enough to reach it. */
  function OverlayLines(height: nat, width: nat, lines: seq<string>, n: nat): (f: Frame)
    requires n <= |lines| && LinesFit(height, width, lines)
    ensures f.Valid() && f.height == height && f.width == width
    ensures forall i, j :: 1 <= i < height && 0 <= j < width ==> f.pixels[i][j] == Blank
    ensures forall j :: 0 <= j < width && 0 < height ==>
              f.pixels[0][j] == (var k := LastCovering(lines, n, j); if k < 0 then Blank else lines[k][j])
    decreases n
  {
    if n == 0 then New(height, width)
    else OverlayWithStringAt(OverlayLines(height, width, lines, n - 1), 0, n - 1, lines[n - 1])
  }

  /** The pure part of `from_file(height, width, path)`, given the file's lines. */
  function FromLines(height: nat, width: nat, lines: seq<string>): (f: Frame)
    requires LinesFit(height, width, lines)
    ensures f.Valid() && f.height == height && f.width == width
    ensures forall i, j :: 1 <= i < height && 0 <= j < width ==> f.pixels[i][j] == Blank
    ensures forall j :: 0 <= j < width && 0 < height ==>
              f.pixels[0][j] == (var k := LastCovering(lines, |lines|, j); if k < 0 then Blank else lines[k][j])
  {
    OverlayLines(height, width, lines, |lines|)
  }
}
