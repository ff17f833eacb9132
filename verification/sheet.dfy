/** Per-frame processing and compositing of all frames into the spritesheet. */
module Sheet {
  import opened Wrappers
  import opened Raster
  import opened Classify
  import opened Scan
  import opened Edges
  import opened Correct
  import opened Layout

  /** The run's settings, fixed for every frame: key channel, threshold, mode. */
  datatype Settings = Settings(key: Key, threshold: int, mode: Mode)

  /** Pass 1 of a decoded frame. */
  function Pass1(img: seq<seq<Rgb>>, w: nat, h: nat, st: Settings): (m: seq<seq<Mark>>)
    requires IsGrid(img, w, h)
    ensures IsGrid(m, w, h)
  {
    MarkBackground(img, w, h, st.key, st.threshold)
  }

  /** Some pixel of the frame's window around (x, y) is background. */
  ghost predicate NearKeyColour(img: seq<seq<Rgb>>, w: nat, h: nat, st: Settings, x: int, y: int)
    requires IsGrid(img, w, h)
  {
    exists p, q :: InWindow(x, y, p, q) && 0 <= p < w && 0 <= q < h && IsWithinThreshold(img[p][q], st.key, st.threshold)
  }

  /** The output of one frame, cell by cell: `None` where nothing is written
      (background), the frame colour at full opacity for foreground, the
      corrected colour for edge pixels. */
  function FrameOutput(img: seq<seq<Rgb>>, w: nat, h: nat, st: Settings): (out: seq<seq<Option<Rgba>>>)
    requires IsGrid(img, w, h)
    ensures IsGrid(out, w, h)
    ensures forall x, y :: 0 <= x < w && 0 <= y < h ==>
      (out[x][y].None? <==> IsWithinThreshold(img[x][y], st.key, st.threshold))
    ensures forall x, y ::
      (0 <= x < w && 0 <= y < h && !IsWithinThreshold(img[x][y], st.key, st.threshold)
       && !NearKeyColour(img, w, h, st, x, y)) ==> out[x][y] == Some(Opaque(img[x][y]))
    ensures forall x, y ::
      (0 <= x < w && 0 <= y < h && !IsWithinThreshold(img[x][y], st.key, st.threshold)
       && NearKeyColour(img, w, h, st, x, y)) ==>
        Nearest(Pass1(img, w, h, st), w, h, x, y).Some?
        && 1 <= Nearest(Pass1(img, w, h, st), w, h, x, y).value <= 8
        && out[x][y] == Some(CorrectPixel(img[x][y], st.key, st.mode, Nearest(Pass1(img, w, h, st), w, h, x, y).value))
  {
    var m := Pass1(img, w, h, st);
    var c := MarkEdges(m, w, h);
    NearKeyColourIsNearBackground(img, w, h, st);
    seq(w, x requires 0 <= x < w =>
      seq(h, y requires 0 <= y < h =>
        match c.marks[x][y]
        case Background => None
        case Foreground => Some(Opaque(img[x][y]))
        case Edge => Some(CorrectPixel(img[x][y], st.key, st.mode, c.intensity[x][y]))))
  }

  /** The pass-1 grid has a background cell near (x, y) exactly when the
      frame has a background-coloured pixel there. */
  lemma NearKeyColourIsNearBackground(img: seq<seq<Rgb>>, w: nat, h: nat, st: Settings)
    requires IsGrid(img, w, h)
    ensures forall x, y :: NearKeyColour(img, w, h, st, x, y) <==> NearBackground(Pass1(img, w, h, st), x, y)
  {
    var m := Pass1(img, w, h, st);
    assert forall p, q :: BackgroundAt(m, p, q) <==>
      0 <= p < w && 0 <= q < h && IsWithinThreshold(img[p][q], st.key, st.threshold);
  }

  /** A frame with no background pixel is copied unchanged and opaque. */
  lemma AllForegroundCopied(img: seq<seq<Rgb>>, w: nat, h: nat, st: Settings)
    requires IsGrid(img, w, h)
    requires forall x, y :: 0 <= x < w && 0 <= y < h ==> !IsWithinThreshold(img[x][y], st.key, st.threshold)
    ensures forall x, y :: 0 <= x < w && 0 <= y < h ==> FrameOutput(img, w, h, st)[x][y] == Some(Opaque(img[x][y]))
    ensures forall x, y :: 0 <= x < w && 0 <= y < h ==> MarkEdges(Pass1(img, w, h, st), w, h).marks[x][y] == Foreground
  {
  }

  /** A frame that is all background writes nothing. */
  lemma AllBackgroundWritesNothing(img: seq<seq<Rgb>>, w: nat, h: nat, st: Settings)
    requires IsGrid(img, w, h)
    requires forall x, y :: 0 <= x < w && 0 <= y < h ==> IsWithinThreshold(img[x][y], st.key, st.threshold)
    ensures forall x, y :: 0 <= x < w && 0 <= y < h ==> FrameOutput(img, w, h, st)[x][y] == None
  {
  }

  /** The freshly allocated sheet: every pixel transparent. */
  function Blank(sw: nat, sh: nat): (s: seq<seq<Rgba>>)
    ensures IsGrid(s, sw, sh)
    ensures forall sx, sy :: 0 <= sx < sw && 0 <= sy < sh ==> s[sx][sy] == Transparent
  {
    seq(sw, sx => seq(sh, sy => Transparent))
  }

  /** Writes a frame's output into the sheet with its top-left corner at
      (ox, oy); cells with nothing to write keep their old value. */
  function Blit(s: seq<seq<Rgba>>, sw: nat, sh: nat, out: seq<seq<Option<Rgba>>>, w: nat, h: nat, ox: nat, oy: nat): (s': seq<seq<Rgba>>)
    requires IsGrid(s, sw, sh) && IsGrid(out, w, h) && ox + w <= sw && oy + h <= sh
    ensures IsGrid(s', sw, sh)
    ensures forall x, y :: 0 <= x < w && 0 <= y < h ==>
      s'[ox + x][oy + y] == (if out[x][y].Some? then out[x][y].value else s[ox + x][oy + y])
    ensures forall sx, sy :: 0 <= sx < sw && 0 <= sy < sh && !(ox <= sx < ox + w && oy <= sy < oy + h) ==>
      s'[sx][sy] == s[sx][sy]
  {
    seq(sw, sx requires 0 <= sx < sw =>
      seq(sh, sy requires 0 <= sy < sh =>
        if ox <= sx < ox + w && oy <= sy < oy + h && out[sx - ox][sy - oy].Some?
        then out[sx - ox][sy - oy].value else s[sx][sy]))
  }

  /** Why a run aborts: a palette index past the frame's palette, or a frame
      beyond the 16 x 16 grid that has something to write. */
  datatype SheetError = BadPaletteIndex(frame: nat) | OutsideSheet(frame: nat)

  /** Every frame has the image's size. */
  predicate FramesFit(frames: seq<Frame>, w: nat, h: nat) {
    forall i :: 0 <= i < |frames| ==> IsGrid(frames[i].indices, w, h)
  }

  /** The frame has at least one pixel to write. */
  predicate Writes(out: seq<seq<Option<Rgba>>>, w: nat, h: nat)
    requires IsGrid(out, w, h)
  {
    exists x, y | 0 <= x < w && 0 <= y < h :: out[x][y].Some?
  }

  /** What frame `i` contributes at its pixel (x, y): transparent where it
      writes nothing. */
  function FrameCell(f: Frame, w: nat, h: nat, st: Settings, x: nat, y: nat): Rgba
    requires IsGrid(f.indices, w, h) && x < w && y < h
  {
    match Decode(f, w, h)
    case None => Transparent
    case Some(img) =>
      var out := FrameOutput(img, w, h, st);
      if out[x][y].Some? then out[x][y].value else Transparent
  }

  /** Frame `f` decodes and has something to write. */
  predicate FrameWrites(f: Frame, w: nat, h: nat, st: Settings)
    requires IsGrid(f.indices, w, h)
  {
    Decode(f, w, h).Some? && Writes(FrameOutput(Decode(f, w, h).value, w, h, st), w, h)
  }

  /** The sheet after frames 0 .. i - 1: each cell holds what its owner frame
      contributes if that frame has been processed, and is transparent otherwise. */
  ghost predicate Composited(s: seq<seq<Rgba>>, frames: seq<Frame>, w: nat, h: nat, st: Settings, side: nat, i: nat)
    requires FramesFit(frames, w, h) && side >= 1 && w >= 1 && h >= 1
  {
    && IsGrid(s, side * w, side * h)
    && forall sx, sy :: 0 <= sx < side * w && 0 <= sy < side * h ==>
         s[sx][sy] == Expected(frames, w, h, st, side, i, sx, sy)
  }

  /** Sheet cell (sx, sy) once frames 0 .. i - 1 are done: its owner frame's
      contribution if that frame is done, transparent otherwise. */
  function Expected(frames: seq<Frame>, w: nat, h: nat, st: Settings, side: nat, i: nat, sx: nat, sy: nat): Rgba
    requires FramesFit(frames, w, h) && side >= 1 && w >= 1 && h >= 1
  {
    var j := Owner(sx, sy, side, w, h);
    if j < i && j < |frames| then FrameCell(frames[j], w, h, st, sx % w, sy % h) else Transparent
  }

  /** The frame loop from frame `i` on. Frames below side^2 are written into
      their block; a later frame (only possible beyond 256 frames) aborts the
      run as soon as it has a pixel to write, since that pixel falls below
      the sheet. */
  function ComposeFrom(frames: seq<Frame>, w: nat, h: nat, st: Settings, side: nat, i: nat, s: seq<seq<Rgba>>): (r: Result<seq<seq<Rgba>>, SheetError>)
    requires FramesFit(frames, w, h) && side >= 1 && i <= |frames| && IsGrid(s, side * w, side * h)
    ensures r.Success? ==> IsGrid(r.value, side * w, side * h)
    // an error names a frame of this run, and only frames past the grid overflow it
    ensures r.Failure? ==> i <= r.error.frame < |frames|
    ensures r.Failure? && r.error.OutsideSheet? ==> r.error.frame >= side * side
    decreases |frames| - i
  {
    if i == |frames| then Success(s)
    else
      match Decode(frames[i], w, h)
      case None => Failure(BadPaletteIndex(i))
      case Some(img) =>
        var out := FrameOutput(img, w, h, st);
        if i < side * side then
          BlockFits(i, side, w, h);
          ComposeFrom(frames, w, h, st, side, i + 1, Blit(s, side * w, side * h, out, w, h, OriginX(i, side, w), OriginY(i, side, h)))
        else if Writes(out, w, h) then Failure(OutsideSheet(i))
        else ComposeFrom(frames, w, h, st, side, i + 1, s)
  }

  lemma BlockFits(i: nat, side: nat, w: nat, h: nat)
    requires side >= 1 && i < side * side
    ensures OriginX(i, side, w) + w <= side * w && OriginY(i, side, h) + h <= side * h
  {
    if w >= 1 && h >= 1 {
      BlockInSheet(i, side, w, h, w - 1, h - 1);
    } else if w >= 1 {
      BlockInSheet(i, side, w, 1, w - 1, 0);
    } else if h >= 1 {
      BlockInSheet(i, side, 1, h, 0, h - 1);
    }
  }

  /** `process_image`: lay out the sheet, then process every frame. An
      error names one of the frames, and a frame can fall outside the sheet
      only in a run of more than 256 frames. */
  function ComposeSheet(frames: seq<Frame>, w: nat, h: nat, st: Settings): (r: Result<seq<seq<Rgba>>, SheetError>)
    requires FramesFit(frames, w, h)
    ensures r.Failure? ==> r.error.frame < |frames|
    ensures r.Failure? && r.error.OutsideSheet? ==> |frames| > 256
  {
    var r := ComposeOnGrid(frames, w, h, st, SheetSide(|frames|));
    if r.Failure? && r.error.OutsideSheet? then
      OverflowNeedsMoreThan256(|frames|, r.error.frame);
      r
    else
      r
  }

  /** The frame loop over a blank sheet of `side` x `side` blocks. */
  function ComposeOnGrid(frames: seq<Frame>, w: nat, h: nat, st: Settings, side: nat): (r: Result<seq<seq<Rgba>>, SheetError>)
    requires FramesFit(frames, w, h) && side >= 1
    ensures r.Success? ==> IsGrid(r.value, side * w, side * h)
    ensures r.Failure? ==> r.error.frame < |frames|
    ensures r.Failure? && r.error.OutsideSheet? ==> side * side <= r.error.frame
  {
    ComposeFrom(frames, w, h, st, side, 0, Blank(side * w, side * h))
  }

  /** Up to 256 frames every frame index lies below side^2, so a frame
      index at or past side^2 needs a run of more than 256 frames. */
  lemma OverflowNeedsMoreThan256(n: nat, f: nat)
    requires SheetSide(n) * SheetSide(n) <= f < n
    ensures n > 256
  {
    if n == 256 {
      assert SheetSide(n) == MaxSide;
    }
  }

  /** Writing frame `i` into its block extends the composited prefix by one. */
  lemma BlitStep(frames: seq<Frame>, w: nat, h: nat, st: Settings, side: nat, i: nat, s: seq<seq<Rgba>>, img: seq<seq<Rgb>>)
    requires FramesFit(frames, w, h) && side >= 1 && w >= 1 && h >= 1
    requires i < |frames| && i < side * side && Composited(s, frames, w, h, st, side, i)
    requires Decode(frames[i], w, h) == Some(img)
    ensures OriginX(i, side, w) + w <= side * w && OriginY(i, side, h) + h <= side * h
    ensures Composited(Blit(s, side * w, side * h, FrameOutput(img, w, h, st), w, h, OriginX(i, side, w), OriginY(i, side, h)),
                 frames, w, h, st, side, i + 1)
  {
    BlockFits(i, side, w, h);
    var out := FrameOutput(img, w, h, st);
    var ox, oy := OriginX(i, side, w), OriginY(i, side, h);
    var s' := Blit(s, side * w, side * h, out, w, h, ox, oy);
    forall sx, sy | 0 <= sx < side * w && 0 <= sy < side * h
      ensures s'[sx][sy] == Expected(frames, w, h, st, side, i + 1, sx, sy)
    {
      BlitStepCell(frames, w, h, st, side, i, s, img, sx, sy);
    }
  }

  lemma BlitStepCell(frames: seq<Frame>, w: nat, h: nat, st: Settings, side: nat, i: nat, s: seq<seq<Rgba>>, img: seq<seq<Rgb>>, sx: nat, sy: nat)
    requires FramesFit(frames, w, h) && side >= 1 && w >= 1 && h >= 1
    requires i < |frames| && i < side * side && IsGrid(s, side * w, side * h)
    requires Decode(frames[i], w, h) == Some(img)
    requires sx < side * w && sy < side * h && s[sx][sy] == Expected(frames, w, h, st, side, i, sx, sy)
    ensures OriginX(i, side, w) + w <= side * w && OriginY(i, side, h) + h <= side * h
    ensures Blit(s, side * w, side * h, FrameOutput(img, w, h, st), w, h, OriginX(i, side, w), OriginY(i, side, h))[sx][sy]
      == Expected(frames, w, h, st, side, i + 1, sx, sy)
  {
    BlockFits(i, side, w, h);
    var out := FrameOutput(img, w, h, st);
    var ox, oy := OriginX(i, side, w), OriginY(i, side, h);
    OwnerCoversSheet(sx, sy, side, w, h);
    if Owner(sx, sy, side, w, h) == i {
      var x, y := sx % w, sy % h;
      BlitOwnCell(s, side * w, side * h, out, w, h, ox, oy, x, y);
      FrameCellDecoded(frames[i], w, h, st, img, x, y);
    } else {
      BlitOtherCell(side, i, s, out, w, h, sx, sy);
    }
  }

  /** A transparent cell of a block receives what the frame writes there. */
  lemma BlitOwnCell(s: seq<seq<Rgba>>, sw: nat, sh: nat, out: seq<seq<Option<Rgba>>>, w: nat, h: nat, ox: nat, oy: nat, x: nat, y: nat)
    requires IsGrid(s, sw, sh) && IsGrid(out, w, h) && ox + w <= sw && oy + h <= sh && x < w && y < h
    requires s[ox + x][oy + y] == Transparent
    ensures Blit(s, sw, sh, out, w, h, ox, oy)[ox + x][oy + y] == if out[x][y].Some? then out[x][y].value else Transparent
  {
  }

  /** What a decoded frame contributes at (x, y). */
  lemma FrameCellDecoded(f: Frame, w: nat, h: nat, st: Settings, img: seq<seq<Rgb>>, x: nat, y: nat)
    requires IsGrid(f.indices, w, h) && x < w && y < h && Decode(f, w, h) == Some(img)
    ensures var out := FrameOutput(img, w, h, st);
      FrameCell(f, w, h, st, x, y) == if out[x][y].Some? then out[x][y].value else Transparent
  {
  }

  /** Cells outside frame `i`'s block are left as they were. */
  lemma BlitOtherCell(side: nat, i: nat, s: seq<seq<Rgba>>, out: seq<seq<Option<Rgba>>>, w: nat, h: nat, sx: nat, sy: nat)
    requires side >= 1 && w >= 1 && h >= 1 && i < side * side
    requires IsGrid(s, side * w, side * h) && IsGrid(out, w, h)
    requires OriginX(i, side, w) + w <= side * w && OriginY(i, side, h) + h <= side * h
    requires sx < side * w && sy < side * h && Owner(sx, sy, side, w, h) != i
    ensures Blit(s, side * w, side * h, out, w, h, OriginX(i, side, w), OriginY(i, side, h))[sx][sy] == s[sx][sy]
  {
    var ox, oy := OriginX(i, side, w), OriginY(i, side, h);
    if ox <= sx < ox + w && oy <= sy < oy + h {
      OriginRoundTrip(i, side, w, h, sx - ox, sy - oy);
    }
  }

  /** A frame at or beyond side^2 touches no cell of the sheet, so skipping it
      keeps the composited prefix. */
  lemma SkipStep(frames: seq<Frame>, w: nat, h: nat, st: Settings, side: nat, i: nat, s: seq<seq<Rgba>>)
    requires FramesFit(frames, w, h) && side >= 1 && w >= 1 && h >= 1
    requires side * side <= i && Composited(s, frames, w, h, st, side, i)
    ensures Composited(s, frames, w, h, st, side, i + 1)
  {
    forall sx, sy | 0 <= sx < side * w && 0 <= sy < side * h
      ensures Expected(frames, w, h, st, side, i, sx, sy) == Expected(frames, w, h, st, side, i + 1, sx, sy)
    {
      OwnerCoversSheet(sx, sy, side, w, h);
    }
  }

  /** The frame loop succeeds exactly when every remaining frame decodes and
      none beyond side^2 has anything to write; then every cell holds its
      owner frame's contribution. */
  lemma {:induction false} ComposeFromCorrect(frames: seq<Frame>, w: nat, h: nat, st: Settings, side: nat, i: nat, s: seq<seq<Rgba>>)
    requires FramesFit(frames, w, h) && side >= 1 && w >= 1 && h >= 1 && i <= |frames|
    requires Composited(s, frames, w, h, st, side, i)
    ensures ComposeFrom(frames, w, h, st, side, i, s).Success? <==> RunSucceeds(frames, w, h, st, side, i)
    ensures ComposeFrom(frames, w, h, st, side, i, s).Success? ==>
      Composited(ComposeFrom(frames, w, h, st, side, i, s).value, frames, w, h, st, side, |frames|)
    decreases |frames| - i
  {
    if i < |frames| {
      match Decode(frames[i], w, h)
      case None =>
      case Some(img) =>
        var out := FrameOutput(img, w, h, st);
        if i < side * side {
          BlitStep(frames, w, h, st, side, i, s, img);
          BlockFits(i, side, w, h);
          ComposeFromCorrect(frames, w, h, st, side, i + 1,
            Blit(s, side * w, side * h, out, w, h, OriginX(i, side, w), OriginY(i, side, h)));
        } else if !Writes(out, w, h) {
          SkipStep(frames, w, h, st, side, i, s);
          ComposeFromCorrect(frames, w, h, st, side, i + 1, s);
        }
    }
  }

  /** The whole run. It fails exactly when some frame has a palette index
      past its palette, or some frame beyond the first side^2 (only possible
      with more than 256 frames) has a pixel to write. Otherwise every sheet
      cell holds what its owner frame contributes there, and cells of unused
      blocks stay transparent. */
  lemma ComposeSheetCorrect(frames: seq<Frame>, w: nat, h: nat, st: Settings)
    requires FramesFit(frames, w, h) && w >= 1 && h >= 1
    ensures ComposeSheet(frames, w, h, st).Success? <==> RunSucceeds(frames, w, h, st, SheetSide(|frames|), 0)
    ensures ComposeSheet(frames, w, h, st).Success? ==>
      Composited(ComposeSheet(frames, w, h, st).value, frames, w, h, st, SheetSide(|frames|), |frames|)
  {
    var side := SheetSide(|frames|);
    assert ComposeSheet(frames, w, h, st) == ComposeOnGrid(frames, w, h, st, side);
    ComposeOnGridCorrect(frames, w, h, st, side);
  }

  lemma ComposeOnGridCorrect(frames: seq<Frame>, w: nat, h: nat, st: Settings, side: nat)
    requires FramesFit(frames, w, h) && w >= 1 && h >= 1 && side >= 1
    ensures ComposeOnGrid(frames, w, h, st, side).Success? <==> RunSucceeds(frames, w, h, st, side, 0)
    ensures ComposeOnGrid(frames, w, h, st, side).Success? ==>
      Composited(ComposeOnGrid(frames, w, h, st, side).value, frames, w, h, st, side, |frames|)
  {
    ComposeFromBlank(frames, w, h, st, side, Blank(side * w, side * h));
  }

  lemma ComposeFromBlank(frames: seq<Frame>, w: nat, h: nat, st: Settings, side: nat, blank: seq<seq<Rgba>>)
    requires FramesFit(frames, w, h) && w >= 1 && h >= 1 && side >= 1 && blank == Blank(side * w, side * h)
    ensures ComposeFrom(frames, w, h, st, side, 0, blank).Success? <==> RunSucceeds(frames, w, h, st, side, 0)
    ensures ComposeFrom(frames, w, h, st, side, 0, blank).Success? ==>
      Composited(ComposeFrom(frames, w, h, st, side, 0, blank).value, frames, w, h, st, side, |frames|)
  {
    BlankComposited(frames, w, h, st, side);
    ComposeFromCorrect(frames, w, h, st, side, 0, blank);
  }

  /** Every frame from `i` on decodes, and none beyond side^2 writes. */
  ghost predicate RunSucceeds(frames: seq<Frame>, w: nat, h: nat, st: Settings, side: nat, i: nat)
    requires FramesFit(frames, w, h)
  {
    forall j :: i <= j < |frames| ==> AllResolve(frames[j], w, h) && (j >= side * side ==> !FrameWrites(frames[j], w, h, st))
  }

  lemma BlankComposited(frames: seq<Frame>, w: nat, h: nat, st: Settings, side: nat)
    requires FramesFit(frames, w, h) && side >= 1 && w >= 1 && h >= 1
    ensures Composited(Blank(side * w, side * h), frames, w, h, st, side, 0)
  {
  }

  /** With at most 256 frames the run can fail only on a bad palette index. */
  lemma NoOverflowUpTo256(frames: seq<Frame>, w: nat, h: nat, st: Settings)
    requires FramesFit(frames, w, h) && w >= 1 && h >= 1 && |frames| <= 256
    requires forall j :: 0 <= j < |frames| ==> AllResolve(frames[j], w, h)
    ensures ComposeSheet(frames, w, h, st).Success?
  {
    ComposeSheetCorrect(frames, w, h, st);
    var side := SheetSide(|frames|);
    if |frames| < 256 {
      assert |frames| < side * side;
    } else {
      assert side * side == 256;
    }
  }

  /** In a successful sheet, frame `i`'s block holds frame `i`'s
      contribution, pixel for pixel. */
  lemma FrameBlockContents(frames: seq<Frame>, w: nat, h: nat, st: Settings, side: nat, sheet: seq<seq<Rgba>>, i: nat, x: nat, y: nat)
    requires FramesFit(frames, w, h) && w >= 1 && h >= 1 && side == SheetSide(|frames|)
    requires ComposeSheet(frames, w, h, st) == Success(sheet)
    requires i < |frames| && i < side * side && x < w && y < h
    ensures OriginX(i, side, w) + x < side * w && OriginY(i, side, h) + y < side * h
    ensures sheet[OriginX(i, side, w) + x][OriginY(i, side, h) + y] == FrameCell(frames[i], w, h, st, x, y)
  {
    ComposeSheetCorrect(frames, w, h, st);
    OriginRoundTrip(i, side, w, h, x, y);
    BlockInSheet(i, side, w, h, x, y);
    var sx, sy := OriginX(i, side, w) + x, OriginY(i, side, h) + y;
    assert sheet[sx][sy] == Expected(frames, w, h, st, side, |frames|, sx, sy);
  }

  /** What a frame contributes at one pixel: nothing (transparent) for a
      background pixel, the pixel opaque when no background is near, the
      corrected pixel at the nearest background distance otherwise. */
  lemma FrameCellMeaning(f: Frame, w: nat, h: nat, st: Settings, img: seq<seq<Rgb>>, x: nat, y: nat)
    requires IsGrid(f.indices, w, h) && x < w && y < h && Decode(f, w, h) == Some(img)
    ensures IsWithinThreshold(img[x][y], st.key, st.threshold) ==> FrameCell(f, w, h, st, x, y) == Transparent
    ensures !IsWithinThreshold(img[x][y], st.key, st.threshold) && !NearKeyColour(img, w, h, st, x, y) ==>
      FrameCell(f, w, h, st, x, y) == Opaque(img[x][y])
    ensures !IsWithinThreshold(img[x][y], st.key, st.threshold) && NearKeyColour(img, w, h, st, x, y) ==>
      && Nearest(Pass1(img, w, h, st), w, h, x, y).Some?
      && FrameCell(f, w, h, st, x, y)
         == CorrectPixel(img[x][y], st.key, st.mode, Nearest(Pass1(img, w, h, st), w, h, x, y).value)
  {
    FrameCellDecoded(f, w, h, st, img, x, y);
  }

  /** Blocks with no frame (indices n .. side^2 - 1) stay transparent. */
  lemma UnusedBlocksTransparent(frames: seq<Frame>, w: nat, h: nat, st: Settings, side: nat, sheet: seq<seq<Rgba>>, i: nat, x: nat, y: nat)
    requires FramesFit(frames, w, h) && w >= 1 && h >= 1 && side == SheetSide(|frames|)
    requires ComposeSheet(frames, w, h, st) == Success(sheet)
    requires |frames| <= i < side * side && x < w && y < h
    ensures OriginX(i, side, w) + x < side * w && OriginY(i, side, h) + y < side * h
    ensures sheet[OriginX(i, side, w) + x][OriginY(i, side, h) + y] == Transparent
  {
    ComposeSheetCorrect(frames, w, h, st);
    OriginRoundTrip(i, side, w, h, x, y);
    BlockInSheet(i, side, w, h, x, y);
    var sx, sy := OriginX(i, side, w) + x, OriginY(i, side, h) + y;
    assert sheet[sx][sy] == Expected(frames, w, h, st, side, |frames|, sx, sy);
  }

  /** A decoded frame has something to write exactly when one of its pixels
      is not background; so a frame past the grid aborts the run exactly
      when it is not entirely background. */
  lemma FrameWritesIffForeground(f: Frame, w: nat, h: nat, st: Settings, img: seq<seq<Rgb>>)
    requires IsGrid(f.indices, w, h) && Decode(f, w, h) == Some(img)
    ensures FrameWrites(f, w, h, st) <==>
      exists x, y :: 0 <= x < w && 0 <= y < h && !IsWithinThreshold(img[x][y], st.key, st.threshold)
  {
    WritesIffForeground(img, w, h, st, FrameOutput(img, w, h, st));
  }

  /** An output grid that is empty exactly at background pixels has
      something to write exactly when some pixel is not background. */
  lemma WritesIffForeground(img: seq<seq<Rgb>>, w: nat, h: nat, st: Settings, out: seq<seq<Option<Rgba>>>)
    requires IsGrid(img, w, h) && IsGrid(out, w, h)
    requires forall x, y :: 0 <= x < w && 0 <= y < h ==>
      (out[x][y].None? <==> IsWithinThreshold(img[x][y], st.key, st.threshold))
    ensures Writes(out, w, h) <==>
      exists x, y :: 0 <= x < w && 0 <= y < h && !IsWithinThreshold(img[x][y], st.key, st.threshold)
  {
    if Writes(out, w, h) {
      var x: int, y: int :| 0 <= x < w && 0 <= y < h && out[x][y].Some?;
      assert !IsWithinThreshold(img[x][y], st.key, st.threshold);
    }
    if exists x, y :: 0 <= x < w && 0 <= y < h && !IsWithinThreshold(img[x][y], st.key, st.threshold) {
      var x: int, y: int :| 0 <= x < w && 0 <= y < h && !IsWithinThreshold(img[x][y], st.key, st.threshold);
      assert out[x][y].Some?;
    }
  }
}
