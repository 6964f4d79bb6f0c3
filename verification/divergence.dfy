/** Concrete inputs on which the string overlay of src/lib.rs, which drops its
    offsets, and the one of src/main.rs, which honours them, part ways. */
module LibMainDivergence {
  import opened Frames
  import LibRs
  import MainRs

  /** Writing "a" at column 1, row 1 of a blank 2 x 2 frame: src/lib.rs puts
      it in the top-left corner, src/main.rs at the requested cell. */
  lemma StringOverlayOffsetIgnored()
    ensures LibRs.OverlayWithStringAt(New(2, 2), 1, 1, "a").pixels == ["a ", "  "]
    ensures MainRs.OverrideWithStringAt(New(2, 2), 1, 1, "a").pixels == ["  ", " a"]
  {
    var lib := LibRs.OverlayWithStringAt(New(2, 2), 1, 1, "a");
    FrameExtensionality(lib, Frame(2, 2, ["a ", "  "]));
    var main := MainRs.OverrideWithStringAt(New(2, 2), 1, 1, "a");
    FrameExtensionality(main, Frame(2, 2, ["  ", " a"]));
  }

  /** Loading the lines "a" and "b" into a 2 x 1 frame: src/lib.rs writes
      both into row 0, so "b" overwrites "a" and row 1 stays blank;
      src/main.rs puts one line on each row. */
  lemma FromLinesStacksIntoRowZero()
    ensures LibRs.FromLines(2, 1, ["a", "b"]).pixels == ["b", " "]
    ensures MainRs.FromLines(2, 1, ["a", "b"]).pixels == ["a", "b"]
  {
    var lines := ["a", "b"];
    var lib := LibRs.FromLines(2, 1, lines);
    assert LibRs.LastCovering(lines, 2, 0) == 1;
    FrameExtensionality(lib, Frame(2, 1, ["b", " "]));
    var main := MainRs.FromLines(2, 1, lines);
    FrameExtensionality(main, Frame(2, 1, ["a", "b"]));
  }
}
