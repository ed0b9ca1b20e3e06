/** getBitmap: one call of the compositor, drawing the current frame into the caller's
    canvas and advancing the animation. */
module Bitmap {
  import opened Pixels
  import opened Canvas
  import opened Palette
  import opened Blit
  import opened Disposal
  import opened Schedule

  /** giflib's D_GIF_ERR_NOT_ENOUGH_MEM, stored in the decoder's error field. */
  const NotEnoughMem: int := 109

  /** What the decoder hands the compositor: the screen, the frames, the global colour
      table and the background colour index. */
  datatype Gif = Gif(screen: Screen, frames: seq<Frame>, globalMap: Option<ColorMap>, backgroundIndex: Byte)

  /** The per-animation state: current frame, loops played, loop budget (0 = forever), the
      lazily allocated backup buffer and the decoder's error field. */
  datatype Session = Session(index: nat, loop: nat, loopCount: nat, backup: Option<seq<Argb>>, error: int)

  /** What one call returns: the delay, the canvas and the session afterwards. */
  datatype Drawn = Drawn(delay: nat, canvas: seq<Argb>, session: Session)

  /** What the decoder guarantees of a frame: its raster fills its rectangle, the rectangle
      lies in the buffer, a background-disposed frame starts on the screen, and every drawn
      byte names an entry of the table drawFrame picks for it. */
  ghost predicate FrameOk(gif: Gif, defaultMap: ColorMap, f: Frame) {
    RasterSized(f) && FitsBuffer(gif.screen, f) &&
    (f.disposal == Background ==> Clippable(gif.screen, f)) &&
    Resolvable(f, ChoosePalette(f.colorMap, gif.globalMap, defaultMap))
  }

  ghost predicate WellFormed(gif: Gif, defaultMap: ColorMap) {
    gif.screen.width <= gif.screen.stride &&
    |gif.frames| > 0 &&
    (forall k :: 0 <= k < |gif.frames| ==> FrameOk(gif, defaultMap, gif.frames[k])) &&
    (gif.globalMap.Some? && gif.frames[0].transparent.None? ==> gif.backgroundIndex < |gif.globalMap.value|)
  }

  /** A session getBitmap can be called on: the index names a frame and the backup, if any,
      has the canvas's size. A failed rewind leaves the index one past the last frame, where
      this no longer holds. */
  predicate Ready(gif: Gif, s: Session) {
    s.index < |gif.frames| &&
    (s.backup.Some? ==> |s.backup.value| == BufferSize(gif.screen))
  }

  /** The pixel frame 0 starts from: the opaque background colour when a global table exists
      and frame 0 is opaque, otherwise all zero. */
  function InitialPixel(gif: Gif): (p: Argb)
    requires |gif.frames| > 0
    requires gif.globalMap.Some? && gif.frames[0].transparent.None? ==> gif.backgroundIndex < |gif.globalMap.value|
    // the fill is opaque exactly when there is a global table and frame 0 is opaque
    ensures p.alpha == Opaque <==> gif.globalMap.Some? && gif.frames[0].transparent.None?
    ensures p.alpha == Opaque ==> p.rgb == gif.globalMap.value[gif.backgroundIndex]
    ensures p.alpha != Opaque ==> p == ClearPixel
  {
    if gif.globalMap.Some? && gif.frames[0].transparent.None? then
      Argb(gif.globalMap.value[gif.backgroundIndex], Opaque)
    else
      ClearPixel
  }

  /** One call of getBitmap. `alloc` is the outcome of allocating the backup buffer, should
      the call need it (None for failure); `rewindOk` is the outcome of the rewind callback,
      should the call reach it. */
  function Step(gif: Gif, defaultMap: ColorMap, s: Session, canvas: seq<Argb>,
                alloc: Option<seq<Argb>>, rewindOk: bool): (r: Drawn)
    requires WellFormed(gif, defaultMap) && Ready(gif, s)
    requires |canvas| == BufferSize(gif.screen)
    requires alloc.Some? ==> |alloc.value| == |canvas|
    ensures |r.canvas| == |canvas|
    ensures r.session.loopCount == s.loopCount
    // the delay returned is the drawn frame's, or 0 when the call rewound in vain or stopped
    ensures r.delay == 0 || r.delay == gif.frames[s.index].delay
    // the session can be called again unless the rewind failed
    ensures Ready(gif, r.session) <==>
              !(s.index + 1 == |gif.frames| && (s.loopCount == 0 || s.loop + 1 < s.loopCount) && !rewindOk)
    // an allocation failure is recorded in the error field and changes nothing else there
    ensures r.session.error == NotEnoughMem || r.session.error == s.error
    ensures r.session.error != s.error ==>
              s.index > 0 && NeedsBackup(gif.frames[s.index - 1], gif.frames[s.index], s.backup) && alloc.None?
    // before the last frame the call returns the delay and moves on by one
    ensures s.index + 1 < |gif.frames| ==>
              r.delay == gif.frames[s.index].delay && r.session.index == s.index + 1 && r.session.loop == s.loop
    // a failed rewind returns 0, keeps the loop counter and leaves the index at ImageCount
    ensures s.index + 1 == |gif.frames| && (s.loopCount == 0 || s.loop + 1 < s.loopCount) && !rewindOk ==>
              r.delay == 0 && r.session.index == |gif.frames| && r.session.loop == s.loop
    // the backup carries over from call to call: frame 0 leaves it alone, a failed allocation
    // leaves none, and otherwise it exists once a PREVIOUS disposal has been involved
    ensures r.session.backup.Some? ==> |r.session.backup.value| == |canvas|
    ensures s.index == 0 ==> r.session.backup == s.backup
    ensures s.index > 0 && s.backup.Some? && gif.frames[s.index].disposal != Previous ==>
              r.session.backup == s.backup
    ensures s.index > 0 ==>
              (r.session.backup.Some? <==>
                 s.backup.Some? ||
                 ((gif.frames[s.index - 1].disposal == Previous || gif.frames[s.index].disposal == Previous) &&
                  alloc.Some?))
    // a frame disposed to PREVIOUS is drawn over exactly the snapshot the backup keeps
    ensures s.index > 0 && gif.frames[s.index].disposal == Previous && r.session.backup.Some? ==>
              FrameOk(gif, defaultMap, gif.frames[s.index]) &&
              r.canvas == DrawFrame(r.session.backup.value, gif.screen.stride, gif.frames[s.index],
                                    gif.globalMap, defaultMap)
  {
    var f := gif.frames[s.index];
    var disposed :=
      if s.index == 0 then Disposed(seq(|canvas|, _ => InitialPixel(gif)), s.backup, false)
      else
        assert FrameOk(gif, defaultMap, gif.frames[s.index - 1]);
        Dispose(canvas, s.backup, gif.screen, gif.frames[s.index - 1], f, alloc);
    assert FrameOk(gif, defaultMap, f);
    var a := Advance(s.index, s.loop, s.loopCount, |gif.frames|, rewindOk);
    Drawn(
      if a.outcome == Continue then f.delay else 0,
      DrawFrame(disposed.canvas, gif.screen.stride, f, gif.globalMap, defaultMap),
      Session(a.index, a.loop, s.loopCount, disposed.backup,
              if disposed.outOfMemory then NotEnoughMem else s.error))
  }

  /** getBitmap as written: fill or dispose, draw, then advance. */
  method GetBitmap(gif: Gif, defaultMap: ColorMap, s: Session, canvas: seq<Argb>,
                   alloc: Option<seq<Argb>>, rewindOk: bool) returns (r: Drawn)
    requires WellFormed(gif, defaultMap) && Ready(gif, s)
    requires |canvas| == BufferSize(gif.screen)
    requires alloc.Some? ==> |alloc.value| == |canvas|
    ensures r == Step(gif, defaultMap, s, canvas, alloc, rewindOk)
  {
    var bm := canvas;
    var backup := s.backup;
    var error := s.error;
    if s.index == 0 {
      bm := FillRange(bm, 0, |bm|, InitialPixel(gif));
    } else {
      assert FrameOk(gif, defaultMap, gif.frames[s.index - 1]);
      var d := DisposeFrameIfNeeded(bm, backup, gif.screen, gif.frames[s.index - 1], gif.frames[s.index], alloc);
      // an allocation failure is reported, yet the frame is drawn all the same
      bm, backup := d.canvas, d.backup;
      if d.outOfMemory {
        error := NotEnoughMem;
      }
    }
    var f := gif.frames[s.index];
    assert FrameOk(gif, defaultMap, f);
    bm := BlitNormal(bm, gif.screen, f, ChoosePalette(f.colorMap, gif.globalMap, defaultMap));
    var frameDuration := f.delay;
    var index := s.index + 1;
    var loop := s.loop;
    if index >= |gif.frames| {
      if s.loopCount == 0 || loop + 1 < s.loopCount {
        if !rewindOk {
          return Drawn(0, bm, Session(index, loop, s.loopCount, backup, error));
        } else if s.loopCount > 0 {
          loop := loop + 1;
        }
        index := 0;
      } else {
        loop := loop + 1;
        index := index - 1;
        frameDuration := 0;
      }
    }
    return Drawn(frameDuration, bm, Session(index, loop, s.loopCount, backup, error));
  }

  /** Frame 0 starts from a uniform canvas: outside its rectangle every pixel, stride padding
      included, is the opaque background colour (global table present, frame 0 opaque) or
      zero; inside, transparent bytes show that colour and the others their palette colour. */
  lemma FirstFrameCanvas(gif: Gif, defaultMap: ColorMap, s: Session, canvas: seq<Argb>,
                         alloc: Option<seq<Argb>>, rewindOk: bool)
    requires WellFormed(gif, defaultMap) && Ready(gif, s) && s.index == 0
    requires |canvas| == BufferSize(gif.screen)
    requires alloc.Some? ==> |alloc.value| == |canvas|
    ensures var f := gif.frames[0];
            var bg := if gif.globalMap.Some? && f.transparent.None?
                      then Argb(gif.globalMap.value[gif.backgroundIndex], Opaque) else ClearPixel;
            var r := Step(gif, defaultMap, s, canvas, alloc, rewindOk).canvas;
            forall x: nat, y: nat :: x < gif.screen.stride && y < gif.screen.height ==>
              Addr(gif.screen.stride, x, y) < |r| &&
              r[Addr(gif.screen.stride, x, y)] ==
                if !InFrame(f, x, y) || f.transparent == Some(Pixel(f, x, y)) then bg
                else Argb(ChoosePalette(f.colorMap, gif.globalMap, defaultMap)[Pixel(f, x, y)], Opaque)
  {
    var f := gif.frames[0];
    assert FrameOk(gif, defaultMap, f);
    var cmap := ChoosePalette(f.colorMap, gif.globalMap, defaultMap);
    var filled := seq(|canvas|, _ => InitialPixel(gif));
    BlitInside(filled, gif.screen, f, cmap);
    BlitOutside(filled, gif.screen, f, cmap);
  }

  /** A failed backup allocation records NotEnoughMem, leaves the canvas as it was and still
      draws the current frame onto it. */
  lemma OutOfMemoryStillDraws(gif: Gif, defaultMap: ColorMap, s: Session, canvas: seq<Argb>, rewindOk: bool)
    requires WellFormed(gif, defaultMap) && Ready(gif, s) && s.index > 0
    requires |canvas| == BufferSize(gif.screen)
    requires NeedsBackup(gif.frames[s.index - 1], gif.frames[s.index], s.backup)
    ensures var f := gif.frames[s.index];
            var r := Step(gif, defaultMap, s, canvas, None, rewindOk);
            r.session.error == NotEnoughMem && r.session.backup.None? &&
            r.canvas == DrawFrame(canvas, gif.screen.stride, f, gif.globalMap, defaultMap)
  {
    assert FrameOk(gif, defaultMap, gif.frames[s.index - 1]);
  }

  /** Once the loop budget is spent the index rests on the last frame: every later call
      returns 0, keeps the index there and counts one more loop. */
  lemma StoppedCallsRepeat(gif: Gif, defaultMap: ColorMap, s: Session, canvas: seq<Argb>,
                           alloc: Option<seq<Argb>>, rewindOk: bool)
    requires WellFormed(gif, defaultMap) && Ready(gif, s)
    requires |canvas| == BufferSize(gif.screen)
    requires alloc.Some? ==> |alloc.value| == |canvas|
    requires s.index == |gif.frames| - 1 && 0 < s.loopCount <= s.loop + 1
    ensures var r := Step(gif, defaultMap, s, canvas, alloc, rewindOk);
            r.delay == 0 && r.session.index == s.index && r.session.loop == s.loop + 1 && Ready(gif, r.session)
  {
  }

  /** Playing on returns the drawn frame's delay and moves to the next frame, wrapping to
      frame 0; the loop counter moves only on a rewind with a finite budget. */
  lemma ContinueReturnsDelay(gif: Gif, defaultMap: ColorMap, s: Session, canvas: seq<Argb>,
                             alloc: Option<seq<Argb>>)
    requires WellFormed(gif, defaultMap) && Ready(gif, s)
    requires |canvas| == BufferSize(gif.screen)
    requires alloc.Some? ==> |alloc.value| == |canvas|
    requires s.index + 1 < |gif.frames| || s.loopCount == 0 || s.loop + 1 < s.loopCount
    ensures var r := Step(gif, defaultMap, s, canvas, alloc, true);
            r.delay == gif.frames[s.index].delay &&
            r.session.index == (s.index + 1) % |gif.frames| &&
            r.session.loop == if s.index + 1 == |gif.frames| && s.loopCount > 0 then s.loop + 1 else s.loop
  {
  }

  /** On a later pass, frames 0 and 1 both disposed to PREVIOUS: frame 0 kept the backup the
      previous pass left, so the step into frame 1 draws over that snapshot rather than a
      fresh buffer. */
  lemma LaterPassFrameOne(gif: Gif, defaultMap: ColorMap, s: Session, canvas: seq<Argb>,
                          alloc: Option<seq<Argb>>, rewindOk: bool)
    requires WellFormed(gif, defaultMap) && Ready(gif, s)
    requires |canvas| == BufferSize(gif.screen)
    requires alloc.Some? ==> |alloc.value| == |canvas|
    requires s.index == 1 && s.backup.Some?
    requires gif.frames[0].disposal == Previous && gif.frames[1].disposal == Previous
    requires !CoverSkips(gif.frames[0], gif.frames[1])
    ensures FrameOk(gif, defaultMap, gif.frames[1])
    ensures Step(gif, defaultMap, s, canvas, alloc, rewindOk).canvas ==
            DrawFrame(s.backup.value, gif.screen.stride, gif.frames[1], gif.globalMap, defaultMap)
  {
    assert FrameOk(gif, defaultMap, gif.frames[1]);
  }
}
