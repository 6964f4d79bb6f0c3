/** The character grid ("frame") of the animation library and its clipped
    overlay. The code modelled here appears twice, unchanged, in src/lib.rs
    (`overlay_with_frame*`) and src/main.rs (`override_with_frame*`). */
module Frames {

  /** The fill character of a freshly created frame. */
  const Blank: char := ' '

  /** A dense `height` x `width` grid of characters stored row by row. */
  datatype Frame = Frame(height: nat, width: nat, pixels: seq<seq<char>>) {

    /** Every frame the library builds has exactly `height` rows of exactly
        `width` characters; the overlays index `pixels` through these fields. */
    predicate Valid() {
      Shaped(pixels, height, width)
    }
  }

  predicate Shaped(p: seq<seq<char>>, h: nat, w: nat) {
    |p| == h && forall r :: 0 <= r < |p| ==> |p[r]| == w
  }

  /** Two well-formed frames of equal dimensions that agree on every cell are equal. */
  lemma FrameExtensionality(a: Frame, b: Frame)
    requires a.Valid() && b.Valid()
    requires a.height == b.height && a.width == b.width
    requires forall i, j :: 0 <= i < a.height && 0 <= j < a.width ==> a.pixels[i][j] == b.pixels[i][j]
    ensures a == b
  {
    forall i | 0 <= i < a.height
      ensures a.pixels[i] == b.pixels[i]
    {
      assert forall j :: 0 <= j < a.width ==> a.pixels[i][j] == b.pixels[i][j];
    }
  }

  /** `Frame::new`: a blank grid of the requested size. */
  function New(height: nat, width: nat): (f: Frame)
    ensures f.Valid() && f.height == height && f.width == width
    ensures forall i, j :: 0 <= i < height && 0 <= j < width ==> f.pixels[i][j] == Blank
  {
    Frame(height, width, seq(height, _ => seq(width, _ => Blank)))
  }

  /** `Clone::clone`: copies every row; the copy is value-equal to the original. */
  function Clone(f: Frame): (g: Frame)
    ensures g == f
  {
    Frame(f.height, f.width, seq(|f.pixels|, r requires 0 <= r < |f.pixels| => f.pixels[r]))
  }

  /** What the clipped overlay leaves at target cell (i, j): the source cell
      that lands there when there is one, the old target cell otherwise. */
  function Composited(dst: seq<seq<char>>, x: int, y: int, src: seq<seq<char>>, i: int, j: int): char
    requires 0 <= i < |dst| && 0 <= j < |dst[i]|
  {
    if 0 <= i - y < |src| && 0 <= j - x < |src[i - y]| then src[i - y][j - x] else dst[i][j]
  }

  /** The inner loop of the overlay after its first `k` iterations: source
      character `c` of `line` goes to column `c + x` of target row `row`,
      unless that column lies outside `[0, w - 1]`, in which case it is skipped. */
  function PasteLine(p: seq<seq<char>>, h: nat, w: nat, row: int, x: int, line: seq<char>, k: nat): (q: seq<seq<char>>)
    requires Shaped(p, h, w)
    requires 0 <= row < h
    requires k <= |line|
    ensures Shaped(q, h, w)
    ensures forall i, j :: 0 <= i < h && 0 <= j < w ==>
              q[i][j] == if i == row && 0 <= j - x < k then line[j - x] else p[i][j]
    decreases k
  {
    if k == 0 then p
    else
      var q := PasteLine(p, h, w, row, x, line, k - 1);
      var c := k - 1;
      if c + x > w - 1 || c + x < 0 then q
      else q[row := q[row][c + x := line[c]]]
  }

  /** The outer loop of the overlay after its first `n` iterations: source
      line `r` is pasted into target row `r + y`, unless that row lies
      outside `[0, h - 1]`, in which case the whole line is skipped. */
  function PasteLines(p: seq<seq<char>>, h: nat, w: nat, x: int, y: int, src: seq<seq<char>>, n: nat): (q: seq<seq<char>>)
    requires Shaped(p, h, w)
    requires n <= |src|
    ensures Shaped(q, h, w)
    ensures forall i, j :: 0 <= i < h && 0 <= j < w ==>
              q[i][j] == if 0 <= i - y < n && 0 <= j - x < |src[i - y]| then src[i - y][j - x] else p[i][j]
    decreases n
  {
    if n == 0 then p
    else
      var q := PasteLines(p, h, w, x, y, src, n - 1);
      var r := n - 1;
      if r + y > h - 1 || r + y < 0 then q
      else PasteLine(q, h, w, r + y, x, src[r], |src[r]|)
  }

  /** `overlay_with_frame_at_position(x, y, src)`: writes `src` with its
      top-left corner at column `x`, row `y` (both may be negative). Source
      cells that would land outside the target are dropped silently; the
      source need not be well formed, every one of its rows is walked. */
  function OverlayAt(self: Frame, x: int, y: int, src: Frame): (r: Frame)
    requires self.Valid()
    ensures r.Valid() && r.height == self.height && r.width == self.width
    ensures forall i, j :: 0 <= i < self.height && 0 <= j < self.width ==>
              r.pixels[i][j] == Composited(self.pixels, x, y, src.pixels, i, j)
  {
    self.(pixels := PasteLines(self.pixels, self.height, self.width, x, y, src.pixels, |src.pixels|))
  }

  /** `overlay_with_frame(src)`: the overlay at the origin. A source of the
      target's own size replaces the target entirely. */
  function OverlayWithFrame(self: Frame, src: Frame): (r: Frame)
    requires self.Valid()
    ensures r.Valid() && r.height == self.height && r.width == self.width
    ensures forall i, j :: 0 <= i < self.height && 0 <= j < self.width ==>
              r.pixels[i][j] == (if i < |src.pixels| && j < |src.pixels[i]| then src.pixels[i][j] else self.pixels[i][j])
    ensures src.Valid() && src.height == self.height && src.width == self.width ==> r == src
  {
    var r := OverlayAt(self, 0, 0, src);
    if src.Valid() && src.height == self.height && src.width == self.width then
      FrameExtensionality(r, src);
      r
    else
      r
  }

  /** An overlay placed wholly outside the target changes nothing. */
  lemma OverlayOutsideIsIdentity(self: Frame, x: int, y: int, src: Frame)
    requires self.Valid() && src.Valid()
    requires x >= self.width || y >= self.height || x + src.width <= 0 || y + src.height <= 0
    ensures OverlayAt(self, x, y, src) == self
  {
    var r := OverlayAt(self, x, y, src);
    forall i, j | 0 <= i < self.height && 0 <= j < self.width
      ensures r.pixels[i][j] == self.pixels[i][j]
    {
      if 0 <= i - y < |src.pixels| {
        assert |src.pixels[i - y]| == src.width;
      }
    }
    FrameExtensionality(r, self);
  }

  /** Overlays overwrite unconditionally, so repeating one changes nothing more. */
  lemma OverlayIdempotent(self: Frame, x: int, y: int, src: Frame)
    requires self.Valid()
    ensures OverlayAt(OverlayAt(self, x, y, src), x, y, src) == OverlayAt(self, x, y, src)
  {
    var once := OverlayAt(self, x, y, src);
    FrameExtensionality(OverlayAt(once, x, y, src), once);
  }
}
