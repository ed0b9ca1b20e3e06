/** The disposal step between two consecutive frames (checkIfCover, disposeFrameIfNeeded):
    restore to background and restore to previous of GIF89a, section 23. */
module Disposal {
  import opened Pixels
  import opened Canvas
  import opened Blit

  /** checkIfCover(target, covered): the rectangle of `target` contains that of `covered`,
      compared edge by edge. */
  predicate Covers(target: Frame, covered: Frame): (b: bool)
    // a covering rectangle is at least as wide and as tall as the covered one
    ensures b ==> covered.width <= target.width && covered.height <= target.height
    // and holds the covered rectangle's first and last pixel
    ensures b && covered.width > 0 && covered.height > 0 ==>
              InFrame(target, covered.left, covered.top) &&
              InFrame(target, covered.left + covered.width - 1, covered.top + covered.height - 1)
  {
    target.left <= covered.left && covered.left + covered.width <= target.left + target.width &&
    target.top <= covered.top && covered.top + covered.height <= target.top + target.height
  }

  /** For a non-empty covered frame the edge test is exactly pixel containment. */
  lemma CoversIsContainment(target: Frame, covered: Frame)
    requires covered.width > 0 && covered.height > 0
    ensures Covers(target, covered) <==>
              forall x: nat, y: nat :: InFrame(covered, x, y) ==> InFrame(target, x, y)
  {
    if forall x: nat, y: nat :: InFrame(covered, x, y) ==> InFrame(target, x, y) {
      assert InFrame(covered, covered.left, covered.top);
      assert InFrame(covered, covered.left + covered.width - 1, covered.top + covered.height - 1);
    }
  }

  /** The disposal step may clip a frame against the screen without unsigned underflow. */
  predicate Clippable(screen: Screen, f: Frame) {
    f.left <= screen.width && f.top <= screen.height && screen.width <= screen.stride
  }

  /** Buffer index `i` lies in the frame rectangle and on the logical screen. */
  predicate InClippedRect(screen: Screen, f: Frame, i: nat) {
    InRect(screen.stride, i, f.left, f.top, f.width, f.height) &&
    i % screen.stride < screen.width && i / screen.stride < screen.height
  }

  /** Reference definition of restore-to-background: the frame's on-screen pixels become
      fully transparent, every other pixel keeps its value. */
  function Cleared(canvas: seq<Argb>, screen: Screen, f: Frame): (r: seq<Argb>)
    ensures |r| == |canvas|
  {
    seq(|canvas|, i requires 0 <= i < |canvas| => if InClippedRect(screen, f, i) then ClearPixel else canvas[i])
  }

  /** Restore to background as disposeFrameIfNeeded writes it: width and height clipped to
      the screen, then one zero fill per row, GET_ADDR(Left, Top) onwards. */
  method ClearRect(canvas: seq<Argb>, screen: Screen, f: Frame) returns (r: seq<Argb>)
    requires |canvas| == BufferSize(screen) && Clippable(screen, f)
    ensures r == Cleared(canvas, screen, f)
  {
    var stride := screen.stride;
    var copyWidth := f.width;
    if f.left + copyWidth > screen.width {
      copyWidth := screen.width - f.left;
    }
    var copyHeight := f.height;
    if f.top + copyHeight > screen.height {
      copyHeight := screen.height - f.top;
    }
    r := canvas;
    var k := 0;
    while k < copyHeight
      invariant k <= copyHeight && |r| == |canvas|
      invariant forall i :: 0 <= i < |canvas| ==>
                  r[i] == if InRect(stride, i, f.left, f.top, copyWidth, k) then ClearPixel else canvas[i]
    {
      RowInBuffer(stride, screen.height, f.left, copyWidth, f.top + k);
      var next := FillRange(r, Addr(stride, f.left, f.top + k), copyWidth, ClearPixel);
      forall i | 0 <= i < |canvas|
        ensures next[i] == if InRect(stride, i, f.left, f.top, copyWidth, k + 1) then ClearPixel else canvas[i]
      {
        RowSegment(stride, f.left, copyWidth, f.top + k, i);
      }
      r := next;
      k := k + 1;
    }
  }

  /** Restore to background zeroes exactly [Left, min(Left + Width, SWidth)) x
      [Top, min(Top + Height, SHeight)) and no other pixel, stride padding included. */
  lemma BackgroundClearsClippedRect(canvas: seq<Argb>, screen: Screen, f: Frame)
    requires |canvas| == BufferSize(screen)
    ensures forall x: nat, y: nat :: x < screen.stride && y < screen.height ==>
              Addr(screen.stride, x, y) < |canvas| &&
              Cleared(canvas, screen, f)[Addr(screen.stride, x, y)] ==
                if f.left <= x < f.left + f.width && x < screen.width &&
                   f.top <= y < f.top + f.height && y < screen.height
                then ClearPixel else canvas[Addr(screen.stride, x, y)]
  {
    forall x: nat, y: nat | x < screen.stride && y < screen.height
      ensures Addr(screen.stride, x, y) < |canvas|
      ensures Cleared(canvas, screen, f)[Addr(screen.stride, x, y)] ==
                if f.left <= x < f.left + f.width && x < screen.width &&
                   f.top <= y < f.top + f.height && y < screen.height
                then ClearPixel else canvas[Addr(screen.stride, x, y)]
    {
      RowInBuffer(screen.stride, screen.height, x, 1, y);
      AddrCoordinates(screen.stride, x, y);
    }
  }

  /** What the disposal step leaves: the canvas, the backup buffer (None while unallocated)
      and whether it failed for want of memory. */
  datatype Disposed = Disposed(canvas: seq<Argb>, backup: Option<seq<Argb>>, outOfMemory: bool)

  /** The buffer a local pointer of the disposal step designates. */
  datatype Buffer = CanvasBuffer | BackupBuffer

  /** A backup buffer is needed now and none exists yet. */
  predicate NeedsBackup(cur: Frame, next: Frame, backup: Option<seq<Argb>>) {
    (cur.disposal == Previous || next.disposal == Previous) && backup.None?
  }

  /** The restoration is skipped: the next frame is opaque and covers the current one. */
  predicate CoverSkips(cur: Frame, next: Frame) {
    next.transparent.None? && Covers(next, cur)
  }

  /** Inputs of one disposal step: a canvas, and a backup and allocation result of the same
      size; a background-disposed frame must start on the screen. */
  predicate DisposeInputs(canvas: seq<Argb>, backup: Option<seq<Argb>>, screen: Screen, cur: Frame, alloc: Option<seq<Argb>>) {
    |canvas| == BufferSize(screen) &&
    (backup.Some? ==> |backup.value| == |canvas|) &&
    (alloc.Some? ==> |alloc.value| == |canvas|) &&
    (cur.disposal == Background ==> Clippable(screen, cur))
  }

  /** The disposal step from `cur` to `next`, with the skip decision given. `alloc` is the
      outcome of allocating the backup: None for failure, else the buffer's (unspecified)
      initial contents. */
  function DisposeWith(canvas: seq<Argb>, backup: Option<seq<Argb>>, screen: Screen, cur: Frame, next: Frame,
                       alloc: Option<seq<Argb>>, skip: bool): (d: Disposed)
    requires DisposeInputs(canvas, backup, screen, cur, alloc)
    ensures |d.canvas| == |canvas|
    ensures d.outOfMemory <==> NeedsBackup(cur, next, backup) && alloc.None?
    ensures d.outOfMemory ==> d.canvas == canvas && d.backup.None?
    // the backup exists afterwards exactly when it did before or a PREVIOUS disposal is involved
    ensures !d.outOfMemory ==>
              (d.backup.Some? <==> backup.Some? || cur.disposal == Previous || next.disposal == Previous)
    ensures d.backup.Some? ==> |d.backup.value| == |canvas|
    ensures !d.outOfMemory && backup.Some? && next.disposal != Previous ==> d.backup == backup
    // a next frame disposed to PREVIOUS always starts from a canvas equal to the backup
    ensures !d.outOfMemory && next.disposal == Previous ==> d.backup == Some(d.canvas)
    ensures !d.outOfMemory && !skip && cur.disposal == Background ==>
              forall i :: 0 <= i < |canvas| ==>
                d.canvas[i] == if InClippedRect(screen, cur, i) then ClearPixel else canvas[i]
    ensures !d.outOfMemory && !skip && cur.disposal == Previous && next.disposal == Previous ==>
              d.canvas == (if backup.Some? then backup.value else alloc.value) && d.backup.value == d.canvas
    ensures !d.outOfMemory && (skip || !(cur.disposal == Background ||
                                          (cur.disposal == Previous && next.disposal == Previous))) ==>
              d.canvas == canvas
  {
    if NeedsBackup(cur, next, backup) && alloc.None? then
      Disposed(canvas, None, true)
    else
      var saved := if NeedsBackup(cur, next, backup) then alloc else backup;
      var drawn := if !skip && cur.disposal == Background then Cleared(canvas, screen, cur) else canvas;
      // the "swap" exchanges the local pointers only: `bm` now designates the backup
      var bm := if !skip && cur.disposal == Previous && next.disposal == Previous then BackupBuffer else CanvasBuffer;
      if next.disposal != Previous then
        Disposed(drawn, saved, false)
      else if bm == BackupBuffer then
        // memcpy(backup, bm) copies the backup's contents into the canvas
        Disposed(saved.value, saved, false)
      else
        // memcpy(backup, bm) copies the canvas into the backup
        Disposed(drawn, Some(drawn), false)
  }

  /** disposeFrameIfNeeded, with the restoration skipped exactly when checkIfCover says so. */
  function Dispose(canvas: seq<Argb>, backup: Option<seq<Argb>>, screen: Screen, cur: Frame, next: Frame,
                   alloc: Option<seq<Argb>>): (d: Disposed)
    requires DisposeInputs(canvas, backup, screen, cur, alloc)
    ensures |d.canvas| == |canvas|
    ensures d.outOfMemory <==> NeedsBackup(cur, next, backup) && alloc.None?
    ensures d.outOfMemory ==> d.canvas == canvas && d.backup.None?
    // the backup exists afterwards exactly when it did before or a PREVIOUS disposal is involved;
    // an existing one is kept unless the next frame snapshots the canvas into it
    ensures !d.outOfMemory ==>
              (d.backup.Some? <==> backup.Some? || cur.disposal == Previous || next.disposal == Previous)
    ensures d.backup.Some? ==> |d.backup.value| == |canvas|
    ensures !d.outOfMemory && backup.Some? && next.disposal != Previous ==> d.backup == backup
    ensures !d.outOfMemory && next.disposal == Previous ==> d.backup == Some(d.canvas)
    // an opaque covering next frame leaves the canvas as it is, whatever the disposal
    ensures CoverSkips(cur, next) ==> d.canvas == canvas
    ensures CoverSkips(cur, next) && !d.outOfMemory && next.disposal == Previous ==> d.backup == Some(canvas)
    // otherwise restore to background clears the current frame's on-screen rectangle
    ensures (next.transparent.Some? || !Covers(next, cur)) && !d.outOfMemory && cur.disposal == Background ==>
              forall i :: 0 <= i < |canvas| ==>
                d.canvas[i] == if InClippedRect(screen, cur, i) then ClearPixel else canvas[i]
    // and PREVIOUS followed by PREVIOUS brings back the backup, or a fresh buffer's contents
    ensures (next.transparent.Some? || !Covers(next, cur)) && !d.outOfMemory &&
            cur.disposal == Previous && next.disposal == Previous ==>
              d.canvas == (if backup.Some? then backup.value else alloc.value)
    // any other unskipped step leaves the canvas alone
    ensures (next.transparent.Some? || !Covers(next, cur)) && !d.outOfMemory &&
            cur.disposal != Background && !(cur.disposal == Previous && next.disposal == Previous) ==>
              d.canvas == canvas
  {
    DisposeWith(canvas, backup, screen, cur, next, alloc, CoverSkips(cur, next))
  }

  /** disposeFrameIfNeeded as written, on two buffers and two local buffer handles. */
  method DisposeFrameIfNeeded(canvas: seq<Argb>, backup: Option<seq<Argb>>, screen: Screen, cur: Frame, next: Frame,
                              alloc: Option<seq<Argb>>) returns (d: Disposed)
    requires DisposeInputs(canvas, backup, screen, cur, alloc)
    ensures d == Dispose(canvas, backup, screen, cur, next, alloc)
  {
    var backupPtr := backup;
    if (cur.disposal == Previous || next.disposal == Previous) && backupPtr.None? {
      backupPtr := alloc;
      if backupPtr.None? {
        return Disposed(canvas, None, true);
      }
    }
    var screenBuf := canvas;
    var bm, bk := CanvasBuffer, BackupBuffer;
    if next.transparent.Some? || !Covers(next, cur) {
      if cur.disposal == Background {
        screenBuf := ClearRect(screenBuf, screen, cur);
      } else if cur.disposal == Previous && next.disposal == Previous {
        bm, bk := bk, bm;
      }
    }
    if next.disposal == Previous {
      // memcpy(bk, bm): the buffer `bk` designates receives the contents of the one `bm` designates
      var src := if bm == CanvasBuffer then screenBuf else backupPtr.value;
      if bk == CanvasBuffer {
        screenBuf := src;
      } else {
        backupPtr := Some(src);
      }
    }
    return Disposed(screenBuf, backupPtr, false);
  }

  /** Restore to previous round trip: a frame F entered with disposal PREVIOUS snapshots the
      canvas; whatever is then drawn, leaving F for another PREVIOUS frame that is not
      skipped brings the canvas back to that snapshot and keeps the backup. */
  lemma PreviousRoundTrip(canvas: seq<Argb>, backup: Option<seq<Argb>>, screen: Screen, before: Frame,
                          f: Frame, after: Frame, alloc1: Option<seq<Argb>>, drawn: seq<Argb>,
                          alloc2: Option<seq<Argb>>)
    requires DisposeInputs(canvas, backup, screen, before, alloc1)
    requires f.disposal == Previous && after.disposal == Previous
    requires !Dispose(canvas, backup, screen, before, f, alloc1).outOfMemory
    requires |drawn| == |canvas| && (alloc2.Some? ==> |alloc2.value| == |canvas|)
    requires !CoverSkips(f, after)
    ensures DisposeInputs(drawn, Dispose(canvas, backup, screen, before, f, alloc1).backup, screen, f, alloc2)
    ensures Dispose(drawn, Dispose(canvas, backup, screen, before, f, alloc1).backup, screen, f, after, alloc2).canvas
            == Dispose(canvas, backup, screen, before, f, alloc1).canvas
    ensures Dispose(drawn, Dispose(canvas, backup, screen, before, f, alloc1).backup, screen, f, after, alloc2).backup
            == Dispose(canvas, backup, screen, before, f, alloc1).backup
  {
  }

  /** The coverage skip cannot be seen on the canvas once the next frame is drawn, and the
      backup is the same too, as long as the next frame is not disposed to PREVIOUS. */
  lemma CoverSkipInvisible(canvas: seq<Argb>, backup: Option<seq<Argb>>, screen: Screen, cur: Frame, next: Frame,
                           alloc: Option<seq<Argb>>, cmap: ColorMap)
    requires DisposeInputs(canvas, backup, screen, cur, alloc)
    requires RasterSized(next) && Resolvable(next, cmap)
    requires CoverSkips(cur, next) && next.disposal != Previous
    ensures Blitted(DisposeWith(canvas, backup, screen, cur, next, alloc, true).canvas, screen.stride, next, cmap)
            == Blitted(DisposeWith(canvas, backup, screen, cur, next, alloc, false).canvas, screen.stride, next, cmap)
    ensures DisposeWith(canvas, backup, screen, cur, next, alloc, true).backup
            == DisposeWith(canvas, backup, screen, cur, next, alloc, false).backup
  {
    var skipped := DisposeWith(canvas, backup, screen, cur, next, alloc, true);
    var full := DisposeWith(canvas, backup, screen, cur, next, alloc, false);
    if !full.outOfMemory && cur.disposal == Background {
      var a := Blitted(skipped.canvas, screen.stride, next, cmap);
      var b := Blitted(full.canvas, screen.stride, next, cmap);
      forall i | 0 <= i < |canvas|
        ensures a[i] == b[i]
      {
        if InClippedRect(screen, cur, i) {
          assert InRect(screen.stride, i, next.left, next.top, next.width, next.height);
        }
      }
    }
  }

  /** When the next frame is disposed to PREVIOUS the coverage skip is visible: the snapshot
      taken into the backup still holds the current frame instead of the restored pixels. */
  lemma CoverSkipChangesBackup()
    ensures var screen := Screen(1, 1, 1);
            var shown := Argb(Rgb(1, 2, 3), Opaque);
            var cur := Frame(0, 0, 1, 1, None, [0], None, Background, 10);
            var next := Frame(0, 0, 1, 1, None, [0], None, Previous, 10);
            CoverSkips(cur, next) &&
            DisposeWith([shown], Some([shown]), screen, cur, next, None, true).backup == Some([shown]) &&
            DisposeWith([shown], Some([shown]), screen, cur, next, None, false).backup == Some([ClearPixel])
  {
    var screen := Screen(1, 1, 1);
    var shown := Argb(Rgb(1, 2, 3), Opaque);
    var cur := Frame(0, 0, 1, 1, None, [0], None, Background, 10);
    var next := Frame(0, 0, 1, 1, None, [0], None, Previous, 10);
    var full := DisposeWith([shown], Some([shown]), screen, cur, next, None, false);
    assert InClippedRect(screen, cur, 0);
    assert full.canvas == [ClearPixel];
  }

  /** Frames 0 and 1 both disposed to PREVIOUS: no backup exists on the way into frame 1, so
      the freshly allocated buffer's contents become the canvas, unless frame 1 is opaque and
      covers frame 0. */
  lemma FreshBackupShows(canvas: seq<Argb>, screen: Screen, first: Frame, second: Frame, contents: seq<Argb>)
    requires DisposeInputs(canvas, None, screen, first, Some(contents))
    requires first.disposal == Previous && second.disposal == Previous
    ensures Dispose(canvas, None, screen, first, second, Some(contents)).canvas ==
            if CoverSkips(first, second) then canvas else contents
  {
  }
}
