/** The ordered frame list ("movie") and its frame-by-frame overlays. The code
    modelled here is the same in src/lib.rs (`overlay_with_movie*`) and
    src/main.rs (`override_with_movie*`). */
module Movies {
  import opened Frames

  /** A movie records the dimensions it was created with, but nothing ties
      the stored frames to them: frames of any size may be added. */
  datatype Movie = Movie(height: nat, width: nat, frames: seq<Frame>) {

    /** Every stored frame is well formed (true of every frame the library builds). */
    predicate Valid() {
      forall k :: 0 <= k < |frames| ==> frames[k].Valid()
    }
  }

  /** `Movie::new`: no frames yet. */
  function Empty(height: nat, width: nat): (m: Movie)
    ensures m.Valid() && m.height == height && m.width == width
    ensures |m.frames| == 0
  {
    Movie(height, width, [])
  }

  /** `add_frame`: appends a deep copy of `f`; no dimension check is made. */
  function AddFrame(self: Movie, f: Frame): (m: Movie)
    ensures m.height == self.height && m.width == self.width
    ensures |m.frames| == |self.frames| + 1
    ensures m.frames[..|self.frames|] == self.frames
    ensures m.frames[|self.frames|] == f
    ensures m.Valid() <==> self.Valid() && f.Valid()
  {
    var m := self.(frames := self.frames + [Clone(f)]);
    assert m.frames[|self.frames|] == f;
    m
  }

  /** `new_blank`: `count` copies of one blank frame, appended one by one. */
  function NewBlank(height: nat, width: nat, count: nat): (m: Movie)
    ensures m.Valid() && m.height == height && m.width == width
    ensures |m.frames| == count
    ensures forall k :: 0 <= k < count ==> m.frames[k] == New(height, width)
    decreases count
  {
    if count == 0 then Empty(height, width)
    else AddFrame(NewBlank(height, width, count - 1), New(height, width))
  }

  /** The source frames are indexed modulo their number, so a target with
      frames needs a source with at least one. */
  predicate CanTile(self: Movie, m: Movie) {
    |self.frames| > 0 ==> |m.frames| > 0
  }

  /** Reference definition of the cyclic movie overlay: target frame `k`
      receives source frame `k mod n`. */
  function Tiled(self: Movie, x: int, y: int, m: Movie): (r: Movie)
    requires self.Valid() && CanTile(self, m)
    ensures r.Valid() && r.height == self.height && r.width == self.width
    ensures |r.frames| == |self.frames|
  {
    self.(frames := seq(|self.frames|, k requires 0 <= k < |self.frames| =>
      OverlayAt(self.frames[k], x, y, m.frames[k % |m.frames|])))
  }

  /** The range `lo..hi` selects at least one frame of the target. */
  predicate SelectsSome(self: Movie, lo: nat, hi: nat) {
    lo < hi && lo < |self.frames|
  }

  /** Reference definition of the range-restricted overlay: frame `k` with
      `lo <= k < hi` receives source frame `(k - lo) mod n`; the others keep
      their content. */
  function TiledInRange(self: Movie, x: int, y: int, m: Movie, lo: nat, hi: nat): (r: Movie)
    requires self.Valid()
    requires SelectsSome(self, lo, hi) ==> |m.frames| > 0
    ensures r.Valid() && r.height == self.height && r.width == self.width
    ensures |r.frames| == |self.frames|
  {
    self.(frames := seq(|self.frames|, k requires 0 <= k < |self.frames| =>
      if lo <= k < hi then OverlayAt(self.frames[k], x, y, m.frames[(k - lo) % |m.frames|])
      else self.frames[k]))
  }

  /** Advancing a counter kept equal to `a mod n` by one, and resetting it to
      zero when it reaches `n`, keeps it equal to `(a + 1) mod n`. */
  lemma WrapStep(a: nat, n: nat)
    requires n > 0
    ensures a % n + 1 < n ==> (a + 1) % n == a % n + 1
    ensures a % n + 1 >= n ==> (a + 1) % n == 0
  {
    var q, r := a / n, a % n;
    assert a == q * n + r;
    if r + 1 < n {
      ModOfSum(a + 1, n, q, r + 1);
    } else {
      assert a + 1 == (q + 1) * n + 0;
      ModOfSum(a + 1, n, q + 1, 0);
    }
  }

  /** The remainder is the unique `r` in `[0, n)` with `a == q * n + r`. */
  lemma ModOfSum(a: nat, n: nat, q: nat, r: nat)
    requires n > 0 && r < n && a == q * n + r
    ensures a % n == r
  {
    var q', r' := a / n, a % n;
    MulSub(q, q', n);
    if q' < q {
      MulAtLeast(q - q', n);
    } else if q < q' {
      MulAtLeast(q' - q, n);
    }
  }

  lemma MulSub(q: int, q': int, n: int)
    ensures (q - q') * n == q * n - q' * n
  {}

  lemma MulAtLeast(d: int, n: int)
    requires d > 0 && n > 0
    ensures d * n >= n
  {
  }

  /** `overlay_with_movie_at_position`: walks the target frames with a
      counter into the source frames that wraps to zero at their number. */
  method OverlayWithMovieAt(self: Movie, x: int, y: int, m: Movie) returns (res: Movie)
    requires self.Valid() && CanTile(self, m)
    ensures res.Valid() && res.height == self.height && res.width == self.width
    ensures |res.frames| == |self.frames|
    ensures forall k :: 0 <= k < |self.frames| ==>
              res.frames[k] == OverlayAt(self.frames[k], x, y, m.frames[k % |m.frames|])
    ensures res == Tiled(self, x, y, m)
  {
    var frames := self.frames;
    var i: nat := 0;
    var k := 0;
    while k < |frames|
      invariant 0 <= k <= |frames| == |self.frames|
      invariant forall t :: 0 <= t < k ==>
                  frames[t] == OverlayAt(self.frames[t], x, y, m.frames[t % |m.frames|])
      invariant forall t :: k <= t < |frames| ==> frames[t] == self.frames[t]
      invariant |m.frames| > 0 ==> i == k % |m.frames|
      invariant |frames| > 0 ==> |m.frames| > 0
    {
      WrapStep(k, |m.frames|);
      frames := frames[k := OverlayAt(frames[k], x, y, m.frames[i])];
      i := i + 1;
      if i >= |m.frames| {
        i := 0;
      }
      k := k + 1;
    }
    res := self.(frames := frames);
  }

  /** `overlay_with_movie`: the cyclic overlay at the origin. */
  method OverlayWithMovie(self: Movie, m: Movie) returns (res: Movie)
    requires self.Valid() && CanTile(self, m)
    ensures res.Valid() && res.height == self.height && res.width == self.width
    ensures |res.frames| == |self.frames|
    ensures forall k :: 0 <= k < |self.frames| ==>
              res.frames[k] == OverlayAt(self.frames[k], 0, 0, m.frames[k % |m.frames|])
    ensures res == Tiled(self, 0, 0, m)
  {
    res := OverlayWithMovieAt(self, 0, 0, m);
  }

  /** How many of the frame indexes below `k` lie in `lo..hi`. */
  function Included(k: nat, lo: nat, hi: nat): nat {
    if k <= lo || hi <= lo then 0
    else if k <= hi then k - lo
    else hi - lo
  }

  /** `overlay_with_movie_at_position_in_range`: as the cyclic overlay, but
      only frames whose index lies in `lo..hi` are overlaid, and the counter
      into the source frames advances only on those. */
  method OverlayWithMovieAtInRange(self: Movie, x: int, y: int, m: Movie, lo: nat, hi: nat) returns (res: Movie)
    requires self.Valid()
    requires SelectsSome(self, lo, hi) ==> |m.frames| > 0
    ensures res.Valid() && res.height == self.height && res.width == self.width
    ensures |res.frames| == |self.frames|
    ensures forall k :: 0 <= k < |self.frames| && lo <= k < hi ==>
              res.frames[k] == OverlayAt(self.frames[k], x, y, m.frames[(k - lo) % |m.frames|])
    ensures forall k :: 0 <= k < |self.frames| && !(lo <= k < hi) ==> res.frames[k] == self.frames[k]
    ensures res == TiledInRange(self, x, y, m, lo, hi)
  {
    var frames := self.frames;
    var i: nat := 0;
    var k := 0;
    while k < |frames|
      invariant 0 <= k <= |frames| == |self.frames|
      invariant forall t :: 0 <= t < k && lo <= t < hi ==>
                  frames[t] == OverlayAt(self.frames[t], x, y, m.frames[(t - lo) % |m.frames|])
      invariant forall t :: 0 <= t < k && !(lo <= t < hi) ==> frames[t] == self.frames[t]
      invariant forall t :: k <= t < |frames| ==> frames[t] == self.frames[t]
      invariant |m.frames| > 0 ==> i == Included(k, lo, hi) % |m.frames|
      invariant |m.frames| == 0 ==> i == 0
    {
      if lo <= k < hi {
        WrapStep(Included(k, lo, hi), |m.frames|);
        frames := frames[k := OverlayAt(frames[k], x, y, m.frames[i])];
        i := i + 1;
        if i >= |m.frames| {
          i := 0;
        }
      }
      k := k + 1;
    }
    res := self.(frames := frames);
  }

  /** The documented example of `overlay_with_movie`: a one-frame movie
      "XXX" overlaid with a one-frame movie "O" becomes "OXX". */
  lemma OverlayWithMovieDocExample()
    ensures Tiled(Movie(1, 3, [Frame(1, 3, ["XXX"])]), 0, 0, Movie(1, 1, [Frame(1, 1, ["O"])])).frames
            == [Frame(1, 3, ["OXX"])]
  {
    var target := Frame(1, 3, ["XXX"]);
    var r := OverlayAt(target, 0, 0, Frame(1, 1, ["O"]));
    FrameExtensionality(r, Frame(1, 3, ["OXX"]));
  }

  /** A two-frame source tiled over five blank frames of its own size gives
      the pattern A, B, A, B, A. */
  lemma TiledRepeatsSource(h: nat, w: nat, a: Frame, b: Frame)
    requires a.Valid() && a.height == h && a.width == w
    requires b.Valid() && b.height == h && b.width == w
    ensures Tiled(NewBlank(h, w, 5), 0, 0, Movie(h, w, [a, b])).frames == [a, b, a, b, a]
  {
    var blank := New(h, w);
    assert OverlayWithFrame(blank, a) == a;
    assert OverlayWithFrame(blank, b) == b;
  }

  /** An empty range (`hi <= lo`) leaves every frame as it was. */
  lemma InRangeEmptyIsIdentity(self: Movie, x: int, y: int, m: Movie, lo: nat, hi: nat)
    requires self.Valid()
    requires hi <= lo
    ensures TiledInRange(self, x, y, m, lo, hi) == self
  {
  }

  /** A range starting at frame 0 and covering the whole movie is the plain
      cyclic overlay. */
  lemma InRangeFromZeroIsTiled(self: Movie, x: int, y: int, m: Movie, hi: nat)
    requires self.Valid() && CanTile(self, m)
    requires |self.frames| <= hi
    ensures TiledInRange(self, x, y, m, 0, hi) == Tiled(self, x, y, m)
  {
  }

  /** Inside the movie, the range overlay is the cyclic overlay of the slice
      `lo..hi` with the counter restarted at `lo`; frames outside are kept. */
  lemma InRangeIsTiledSlice(self: Movie, x: int, y: int, m: Movie, lo: nat, hi: nat)
    requires self.Valid()
    requires lo <= hi <= |self.frames|
    requires lo < hi ==> |m.frames| > 0
    ensures TiledInRange(self, x, y, m, lo, hi).frames
            == self.frames[..lo] + Tiled(self.(frames := self.frames[lo..hi]), x, y, m).frames + self.frames[hi..]
  {
  }

  /** The range example: over six blank frames, the range `1..6` with source
      frames A, B overlays frames 1 to 5 with A, B, A, B, A; frame 0 is kept. */
  lemma InRangeCounterAdvancesOnlyOnInclusion(h: nat, w: nat, a: Frame, b: Frame)
    requires a.Valid() && a.height == h && a.width == w
    requires b.Valid() && b.height == h && b.width == w
    ensures TiledInRange(NewBlank(h, w, 6), 0, 0, Movie(h, w, [a, b]), 1, 6).frames
            == [New(h, w), a, b, a, b, a]
  {
    var blank := New(h, w);
    assert OverlayWithFrame(blank, a) == a;
    assert OverlayWithFrame(blank, b) == b;
  }
}
