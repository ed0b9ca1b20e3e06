/** Index advance, loop counting and rewind policy of getBitmap, and the schedule of
    successive calls it produces. */
module Schedule {
  import opened Arith

  /** What a call reports once its frame is drawn: keep playing (the frame's delay is
      returned), the rewind failed, or the loop budget is spent (both return 0). */
  datatype Outcome = Continue | RewindFailed | Stopped

  datatype Advanced = Advanced(index: nat, loop: nat, outcome: Outcome)

  /** The tail of getBitmap once frame `index` of `count` has been drawn. `loopCount` 0
      means loop forever; `rewindOk` is whether the rewind callback succeeded. */
  function Advance(index: nat, loop: nat, loopCount: nat, count: nat, rewindOk: bool): (a: Advanced)
    requires index < count
    // playing on moves to the next frame, wrapping to frame 0 after the last one
    ensures a.outcome == Continue ==> a.index == (index + 1) % count
    // only a failed rewind leaves the index out of range, one past the last frame
    ensures a.index <= count && (a.index == count <==> a.outcome == RewindFailed)
    ensures a.outcome == RewindFailed ==> !rewindOk && a.loop == loop
    // stopping clamps the index to the last frame and spends one more loop
    ensures a.outcome == Stopped ==>
              index == a.index == count - 1 && 0 < loopCount <= a.loop && a.loop == loop + 1
    ensures loopCount == 0 ==> a.outcome != Stopped && a.loop == loop
    ensures a.outcome == Continue && a.loop != loop ==> a.index == 0 && a.loop == loop + 1 < loopCount
    ensures a.outcome != Continue ==> index == count - 1
    // the call stops exactly on the last frame once the budget is spent
    ensures a.outcome == Stopped <==> index + 1 == count && 0 < loopCount <= loop + 1
    // the rewind is attempted exactly on the last frame while the budget lasts, and fails when the callback does
    ensures a.outcome == RewindFailed <==>
              index + 1 == count && (loopCount == 0 || loop + 1 < loopCount) && !rewindOk
    // a successful rewind counts a loop exactly when the budget is finite
    ensures a.outcome == Continue && index + 1 == count ==> (a.loop == loop + 1 <==> loopCount > 0)
  {
    if index + 1 >= count then
      if loopCount == 0 || loop + 1 < loopCount then
        if !rewindOk then Advanced(index + 1, loop, RewindFailed)
        else Advanced(0, if loopCount > 0 then loop + 1 else loop, Continue)
      else
        Advanced(index, loop + 1, Stopped)
    else
      Advanced(index + 1, loop, Continue)
  }

  /** The outcomes of `n` successive calls from frame `index`, every rewind succeeding. */
  function Play(n: nat, index: nat, loop: nat, loopCount: nat, count: nat): seq<Outcome>
    requires index < count
    decreases n
  {
    if n == 0 then []
    else
      var a := Advance(index, loop, loopCount, count, true);
      [a.outcome] + Play(n - 1, a.index, a.loop, loopCount, count)
  }

  /** The (index, loop) pair after `n` successive calls, every rewind succeeding. */
  function After(n: nat, index: nat, loop: nat, loopCount: nat, count: nat): (nat, nat)
    requires index < count
    decreases n
  {
    if n == 0 then (index, loop)
    else
      var a := Advance(index, loop, loopCount, count, true);
      After(n - 1, a.index, a.loop, loopCount, count)
  }

  function Repeat(o: Outcome, n: nat): (s: seq<Outcome>)
    ensures |s| == n && forall k :: 0 <= k < n ==> s[k] == o
  {
    seq(n, _ => o)
  }

  /** Calls split: the outcomes of m + n calls are those of m calls followed by those of n
      calls from where the first m left off. */
  lemma {:induction false} PlaySplit(m: nat, n: nat, index: nat, loop: nat, loopCount: nat, count: nat)
    requires index < count
    ensures After(m, index, loop, loopCount, count).0 < count
    ensures Play(m + n, index, loop, loopCount, count) ==
            Play(m, index, loop, loopCount, count) +
            Play(n, After(m, index, loop, loopCount, count).0, After(m, index, loop, loopCount, count).1, loopCount, count)
    ensures After(m + n, index, loop, loopCount, count) ==
            After(n, After(m, index, loop, loopCount, count).0, After(m, index, loop, loopCount, count).1, loopCount, count)
    decreases m
  {
    if m > 0 {
      var a := Advance(index, loop, loopCount, count, true);
      PlaySplit(m - 1, n, a.index, a.loop, loopCount, count);
      assert m + n - 1 == (m - 1) + n;
    }
  }

  /** The rest of one pass from frame `index` in loop `loop` < `loopCount`: every call but
      the last continues; the last rewinds into the next loop, or stops when it was the
      final loop. */
  lemma {:induction false} PassFrom(index: nat, loop: nat, loopCount: nat, count: nat)
    requires index < count && loop < loopCount
    ensures Play(count - index, index, loop, loopCount, count) ==
            Repeat(Continue, count - index - 1) + [if loop + 1 < loopCount then Continue else Stopped]
    ensures After(count - index, index, loop, loopCount, count) ==
            if loop + 1 < loopCount then (0, loop + 1) else (count - 1, loop + 1)
    decreases count - index
  {
    var a := Advance(index, loop, loopCount, count, true);
    if index + 1 < count {
      PassFrom(index + 1, loop, loopCount, count);
      assert Play(count - index, index, loop, loopCount, count) ==
             [Continue] + Play(count - (index + 1), index + 1, loop, loopCount, count);
      assert [Continue] + Repeat(Continue, count - index - 2) == Repeat(Continue, count - index - 1);
    } else {
      assert Play(0, a.index, a.loop, loopCount, count) == [];
    }
  }

  /** Starting loop `loop` at frame 0, the remaining loops run to the stop. */
  lemma {:induction false} LoopsFrom(loop: nat, loopCount: nat, count: nat)
    requires 0 < count && loop < loopCount
    ensures Play((loopCount - loop) * count, 0, loop, loopCount, count) ==
            Repeat(Continue, (loopCount - loop) * count - 1) + [Stopped]
    ensures After((loopCount - loop) * count, 0, loop, loopCount, count) == (count - 1, loopCount)
    decreases loopCount - loop
  {
    var total := (loopCount - loop) * count;
    PeelLoop(loopCount - loop, count);
    PassFrom(0, loop, loopCount, count);
    if loop + 1 < loopCount {
      var rest := (loopCount - (loop + 1)) * count;
      assert total == count + rest;
      LoopsFrom(loop + 1, loopCount, count);
      PlaySplit(count, rest, 0, loop, loopCount, count);
      RepeatJoin(Continue, count - 1, rest - 1);
    } else {
      assert total == count;
    }
  }

  /** Two runs of the same outcome around one more of it make a single run. */
  lemma RepeatJoin(o: Outcome, m: nat, n: nat)
    ensures Repeat(o, m) + [o] + Repeat(o, n) == Repeat(o, m + n + 1)
  {
  }

  /** Once stopped, every later call stops again and spends another loop. */
  lemma {:induction false} StoppedStaysStopped(n: nat, loop: nat, loopCount: nat, count: nat)
    requires 0 < count && 0 < loopCount <= loop
    ensures Play(n, count - 1, loop, loopCount, count) == Repeat(Stopped, n)
    ensures After(n, count - 1, loop, loopCount, count) == (count - 1, loop + n)
    decreases n
  {
    if n > 0 {
      StoppedStaysStopped(n - 1, loop + 1, loopCount, count);
      assert [Stopped] + Repeat(Stopped, n - 1) == Repeat(Stopped, n);
    }
  }

  /** With a loop count L > 0 and N frames, played from the start with every rewind
      succeeding: the first L*N - 1 calls continue, call L*N returns 0 on the last frame,
      and every call after it returns 0 as well. */
  lemma FiniteLoopSchedule(loopCount: nat, count: nat, extra: nat)
    requires 0 < loopCount && 0 < count
    ensures Play(loopCount * count + extra, 0, 0, loopCount, count) ==
            Repeat(Continue, loopCount * count - 1) + [Stopped] + Repeat(Stopped, extra)
    ensures After(loopCount * count + extra, 0, 0, loopCount, count) == (count - 1, loopCount + extra)
  {
    LoopsFrom(0, loopCount, count);
    PlaySplit(loopCount * count, extra, 0, 0, loopCount, count);
    StoppedStaysStopped(extra, loopCount, loopCount, count);
  }

  /** With loop count 0 every call continues, the index cycles through the frames and the
      loop counter never moves. */
  lemma {:induction false} InfiniteSchedule(n: nat, index: nat, loop: nat, count: nat)
    requires index < count
    ensures Play(n, index, loop, 0, count) == Repeat(Continue, n)
    ensures After(n, index, loop, 0, count) == ((index + n) % count, loop)
    decreases n
  {
    if n > 0 {
      var a := Advance(index, loop, 0, count, true);
      InfiniteSchedule(n - 1, a.index, loop, count);
      assert [Continue] + Repeat(Continue, n - 1) == Repeat(Continue, n);
      ModSucc(index, n - 1, count);
    }
  }

  /** Stepping one frame and then `n` more, modulo `count`, is stepping `n + 1`. */
  lemma ModSucc(index: nat, n: nat, count: nat)
    requires index < count
    ensures ((index + 1) % count + n) % count == (index + n + 1) % count
  {
    var q, r := n / count, n % count;
    assert n == q * count + r;
    if index + 1 < count {
      DivModUnique(index + 1, count, 0, index + 1);
    } else {
      DivModUnique(count, count, 1, 0);
      assert count + n == (q + 1) * count + r;
      DivModUnique(count + n, count, q + 1, r);
    }
  }

  /** One loop of `count` calls peeled off `loops` loops. */
  lemma PeelLoop(loops: nat, count: nat)
    requires 0 < loops
    ensures loops * count == count + (loops - 1) * count
  {
  }
}
