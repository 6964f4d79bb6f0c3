/** The parts of src/main.rs that differ from src/lib.rs: its string overlay
    builds a one-row frame and hands it to the shared clipped overlay, so it
    honours both offsets, and its `from_file` line loop places line `i` at row `i`. */
module MainRs {
  import opened Frames

  /** The loop that fills the temporary frame: character `c` of `s` goes to
      position `c` of `row`, for the first `k` characters. */
  function CopyChars(row: seq<char>, s: string, k: nat): (r: seq<char>)
    requires k <= |s| <= |row|
    ensures |r| == |row|
    ensures forall j :: 0 <= j < |row| ==> r[j] == if j < k then s[j] else row[j]
    decreases k
  {
    if k == 0 then row
    else CopyChars(row, s, k - 1)[k - 1 := s[k - 1]]
  }

  /** The temporary frame of `override_with_string_at_position`: a blank
      1 x |s| frame with every character of `s` copied into its only row. */
  function RowFrame(s: string): (f: Frame)
    ensures f.Valid() && f.height == 1 && f.width == |s|
    ensures f.pixels == [s]
  {
    var blank := New(1, |s|);
    var f := blank.(pixels := [CopyChars(blank.pixels[0], s, |s|)]);
    assert f.pixels[0] == s;
    f
  }

  /** `override_with_string_at_position(x, y, s)`: character `c` of `s` goes
      to row `y`, column `x + c` when that cell exists and is dropped otherwise. */
  function OverrideWithStringAt(self: Frame, x: int, y: int, s: string): (r: Frame)
    requires self.Valid()
    ensures r.Valid() && r.height == self.height && r.width == self.width
    ensures forall i, j :: 0 <= i < self.height && 0 <= j < self.width ==>
              r.pixels[i][j] == if i == y && 0 <= j - x < |s| then s[j - x] else self.pixels[i][j]
  {
    OverlayAt(self, x, y, RowFrame(s))
  }

  /** `override_with_string(s)`: the string overlay at the origin. */
  function OverrideWithString(self: Frame, s: string): (r: Frame)
    requires self.Valid()
    ensures r.Valid() && r.height == self.height && r.width == self.width
    ensures forall i, j :: 0 <= i < self.height && 0 <= j < self.width ==>
              r.pixels[i][j] == if i == 0 && j < |s| then s[j] else self.pixels[i][j]
  {
    OverrideWithStringAt(self, 0, 0, s)
  }

  /** `from_string(s)`: a one-row frame as wide as `s` holding `s`. */
  function FromString(s: string): (f: Frame)
    ensures f.Valid()
    ensures f == Frame(1, |s|, [s])
  {
    var f := OverrideWithString(New(1, |s|), s);
    FrameExtensionality(f, Frame(1, |s|, [s]));
    f
  }

  /** A string longer than the frame is wide, written at the origin, fills
      row 0 with its first `width` characters and touches nothing else. */
  lemma LongStringAtOriginIsClipped(self: Frame, s: string)
    requires self.Valid() && self.height > 0
    requires |s| > self.width
    ensures OverrideWithStringAt(self, 0, 0, s).pixels[0] == s[..self.width]
    ensures forall i :: 1 <= i < self.height ==> OverrideWithStringAt(self, 0, 0, s).pixels[i] == self.pixels[i]
  {
  }

  /** The line loop of `from_file` after its first `n` lines: line `k` is
      written at row `k`, column 0, truncated to the frame's width; rows past
      the frame's height are dropped. */
  function OverrideLines(height: nat, width: nat, lines: seq<string>, n: nat): (f: Frame)
    requires n <= |lines|
    ensures f.Valid() && f.height == height && f.width == width
    ensures forall i, j :: 0 <= i < height && 0 <= j < width ==>
              f.pixels[i][j] == if i < n && j < |lines[i]| then lines[i][j] else Blank
    decreases n
  {
    if n == 0 then New(height, width)
    else OverrideWithStringAt(OverrideLines(height, width, lines, n - 1), 0, n - 1, lines[n - 1])
  }

  /** The pure part of `from_file(height, width, path)`, given the file's
      lines: row `i` starts with line `i` cut to the width and is blank after
      it; rows with no line are blank. */
  function FromLines(height: nat, width: nat, lines: seq<string>): (f: Frame)
    ensures f.Valid() && f.height == height && f.width == width
    ensures forall i, j :: 0 <= i < height && 0 <= j < width ==>
              f.pixels[i][j] == if i < |lines| && j < |lines[i]| then lines[i][j] else Blank
  {
    OverrideLines(height, width, lines, |lines|)
  }

  /** Row `i < |lines|` of `from_file` is line `i` cut to the width and
      padded with blanks. */
  lemma FromLinesRow(height: nat, width: nat, lines: seq<string>, i: nat)
    requires i < height && i < |lines|
    ensures |lines[i]| <= width ==>
              FromLines(height, width, lines).pixels[i] == lines[i] + seq(width - |lines[i]|, _ => Blank)
    ensures |lines[i]| > width ==>
              FromLines(height, width, lines).pixels[i] == lines[i][..width]
  {
  }
}
