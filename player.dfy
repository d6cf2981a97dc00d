/** Playback engine (class `GifPlayer` in src/page/player.ts).

    The first half of the module is a pure reference model of the timing rules:
    the effective delay of a frame, one frame advance under the loop settings,
    runs of advances, and the catch-up performed by one tick.  The second half
    is the class itself, whose methods update the player state in place and are
    proved against the reference model.

    The host's animation-frame timer is abstracted: `requestAnimationFrame`
    sets the flag `tickQueued` (the source's `rafId !== null`), and the host
    delivers a callback by calling `Tick(ts)`.  Drawing a composited bitmap to
    the visible canvas is recorded as `displayedFrame`. */
module Player {
  import opened Wrappers
  import opened Gif
  import Compositor

  datatype LoopMode = LoopSource | LoopInfinite | LoopNone

  /** The loop `<select>` value, accepted only when it names a mode. */
  function ParseLoopMode(value: string): (r: Option<LoopMode>)
    ensures r == Some(LoopSource) <==> value == "source"
    ensures r == Some(LoopInfinite) <==> value == "infinite"
    ensures r == Some(LoopNone) <==> value == "none"
    ensures r.None? <==> value != "source" && value != "infinite" && value != "none"
  {
    if value == "source" then Some(LoopSource)
    else if value == "infinite" then Some(LoopInfinite)
    else if value == "none" then Some(LoopNone)
    else None
  }

  // ---------------------------------------------------------------------------
  // Effective delay

  /** What the delay of a frame depends on: the normalised delays, reduced mode and the rate. */
  datatype Timing = Timing(delaysMs: seq<int>, reducedMode: bool, playbackRate: real)

  /** `frameDelaysMs[i] ?? 100` */
  function DelayAt(delaysMs: seq<int>, i: int): int {
    if 0 <= i < |delaysMs| then delaysMs[i] else 100
  }

  function RMax(a: real, b: real): real { if a >= b then a else b }

  /** `getEffectiveDelayMs(i)`: the reduced-mode floor of 40 ms is applied to the
      stored delay, then the delay is divided by the rate, then floored at 5 ms. */
  function EffectiveDelay(t: Timing, i: int): (r: real)
    requires t.playbackRate > 0.0
    ensures r >= 5.0
  {
    var delay := DelayAt(t.delaysMs, i) as real;
    var floored := if t.reducedMode then RMax(delay, 40.0) else delay;
    RMax(5.0, floored / t.playbackRate)
  }

  /** The delay before the rate is applied. */
  function BaseDelay(t: Timing, i: int): real {
    var delay := DelayAt(t.delaysMs, i) as real;
    if t.reducedMode then RMax(delay, 40.0) else delay
  }

  lemma DivideNoSmaller(a: real, r: real)
    requires a >= 0.0 && 0.0 < r <= 1.0
    ensures a / r >= a
  {
    var q := a / r;
    assert q * r == a;
    assert q >= 0.0;
    assert q * r <= q * 1.0;
  }

  lemma DivideByLarger(b: real, r0: real, r1: real)
    requires b >= 0.0 && 0.0 < r0 <= r1
    ensures b / r1 <= b / r0
  {
    var q0 := b / r0;
    assert b / r1 == q0 * (r0 / r1);
    assert r0 / r1 <= 1.0 by {
      assert r0 / r1 * r1 == r0;
    }
    assert q0 >= 0.0;
    assert q0 * (r0 / r1) <= q0 * 1.0;
  }

  /** In reduced mode the delay is at least 40 ms whenever the rate is at most 1. */
  lemma {:induction false} ReducedModeFloor(t: Timing, i: int)
    requires t.playbackRate > 0.0 && t.reducedMode && t.playbackRate <= 1.0
    ensures EffectiveDelay(t, i) >= 40.0
  {
    var floored := BaseDelay(t, i);
    assert floored >= 40.0;
    DivideNoSmaller(floored, t.playbackRate);
  }

  /** Because the floor comes before the rate, reduced mode can go below 40 ms at a higher rate. */
  lemma ReducedFloorPrecedesRate()
    ensures EffectiveDelay(Timing([20], true, 2.0), 0) == 20.0
    ensures EffectiveDelay(Timing([20], true, 1.0), 0) == 40.0
  {
  }

  /** Doubling the rate halves the delay while the result stays above the 5 ms floor. */
  lemma {:induction false} DoubleRateHalvesDelay(t: Timing, i: int)
    requires t.playbackRate > 0.0
    requires BaseDelay(t, i) / t.playbackRate >= 10.0
    ensures EffectiveDelay(t.(playbackRate := 2.0 * t.playbackRate), i) * 2.0 == EffectiveDelay(t, i)
  {
    var b := BaseDelay(t, i);
    var r := t.playbackRate;
    assert b / (2.0 * r) * 2.0 == b / r by {
      assert b / (2.0 * r) * (2.0 * r) == b;
      assert b / r * r == b;
    }
  }

  /** A higher rate never lengthens a frame. */
  lemma {:induction false} FasterRateShorterDelay(t: Timing, i: int, rate: real)
    requires 0.0 < t.playbackRate <= rate
    ensures EffectiveDelay(t.(playbackRate := rate), i) <= EffectiveDelay(t, i)
  {
    var b := BaseDelay(t, i);
    if b >= 0.0 {
      DivideByLarger(b, t.playbackRate, rate);
    } else {
      assert b / rate < 0.0 && b / t.playbackRate < 0.0;
    }
  }

  // ---------------------------------------------------------------------------
  // Frame advance

  /** What decides the end of a pass: the frame count, the loop mode and the file's loop count. */
  datatype Looping = Looping(totalFrames: int, mode: LoopMode, sourceLoopCount: SourceLoopCount)

  /** The current frame and the number of the pass it belongs to. */
  datatype Position = Position(frame: int, iteration: int)

  datatype Advance = Advance(continues: bool, pos: Position)

  /** `advanceFrame()`: the next position, or a stop that keeps the position. */
  function NextPosition(p: Position, l: Looping): (a: Advance)
    ensures 0 <= p.frame < l.totalFrames ==> 0 <= a.pos.frame < l.totalFrames
    ensures !a.continues ==> a.pos == p && p.frame >= l.totalFrames - 1
    ensures a.continues && a.pos.frame != p.frame + 1 ==> a.pos == Position(0, p.iteration + 1)
  {
    if p.frame < l.totalFrames - 1 then Advance(true, Position(p.frame + 1, p.iteration))
    else if l.mode == LoopNone then Advance(false, p)
    else if l.mode == LoopInfinite || l.sourceLoopCount == Infinite then Advance(true, Position(0, p.iteration + 1))
    else if p.iteration >= l.sourceLoopCount.passes then Advance(false, p)
    else Advance(true, Position(0, p.iteration + 1))
  }

  /** The four cases of a frame advance. */
  lemma NextPositionCases(p: Position, l: Looping)
    ensures p.frame < l.totalFrames - 1 ==> NextPosition(p, l) == Advance(true, Position(p.frame + 1, p.iteration))
    ensures p.frame >= l.totalFrames - 1 && l.mode == LoopNone ==> NextPosition(p, l) == Advance(false, p)
    ensures p.frame >= l.totalFrames - 1 && l.mode != LoopNone && (l.mode == LoopInfinite || l.sourceLoopCount == Infinite)
            ==> NextPosition(p, l) == Advance(true, Position(0, p.iteration + 1))
    ensures p.frame >= l.totalFrames - 1 && l.mode == LoopSource && l.sourceLoopCount.Finite?
            ==> NextPosition(p, l) == if p.iteration >= l.sourceLoopCount.passes then Advance(false, p)
                                      else Advance(true, Position(0, p.iteration + 1))
  {
  }

  /** `k` advances in a row, stopping at the first one that does not continue. */
  function Run(p: Position, k: nat, l: Looping): Advance
    decreases k
  {
    if k == 0 then Advance(true, p)
    else
      var a := NextPosition(p, l);
      if !a.continues then a else Run(a.pos, k - 1, l)
  }

  lemma {:induction false} RunAppend(p: Position, j: nat, k: nat, l: Looping)
    ensures Run(p, j + k, l) == if Run(p, j, l).continues then Run(Run(p, j, l).pos, k, l) else Run(p, j, l)
    decreases j
  {
    if j > 0 {
      var a := NextPosition(p, l);
      if a.continues {
        RunAppend(a.pos, j - 1, k, l);
        assert Run(p, j + k, l) == Run(a.pos, (j - 1) + k, l);
      }
    }
  }

  /** Inside a pass the frames follow one another to the last frame. */
  lemma {:induction false} RunToLastFrame(f: int, iteration: int, l: Looping)
    requires 0 <= f < l.totalFrames
    ensures Run(Position(f, iteration), l.totalFrames - 1 - f, l) == Advance(true, Position(l.totalFrames - 1, iteration))
    decreases l.totalFrames - f
  {
    if f < l.totalFrames - 1 {
      RunToLastFrame(f + 1, iteration, l);
    }
  }

  /** With a finite loop count `N` in source mode, `n * T - 1` advances from the
      first frame of pass 1 end on the last frame of pass `n`, for `n <= N`. */
  lemma {:induction false} SourcePasses(l: Looping, n: int)
    requires l.totalFrames >= 1 && l.mode == LoopSource && l.sourceLoopCount.Finite?
    requires 1 <= n <= l.sourceLoopCount.passes
    ensures n * l.totalFrames - 1 >= 0
    ensures Run(Position(0, 1), n * l.totalFrames - 1, l) == Advance(true, Position(l.totalFrames - 1, n))
  {
    var T := l.totalFrames;
    if n == 1 {
      RunToLastFrame(0, 1, l);
    } else {
      SourcePasses(l, n - 1);
      var before := (n - 1) * T - 1;
      assert n * T - 1 == before + (1 + (T - 1));
      RunAppend(Position(0, 1), before, 1 + (T - 1), l);
      RunAppend(Position(T - 1, n - 1), 1, T - 1, l);
      RunToLastFrame(0, n, l);
    }
  }

  /** Loop count `N`: playback makes exactly `N` passes and then stops on the last frame. */
  lemma LoopCountExactPasses(l: Looping)
    requires l.totalFrames >= 1 && l.mode == LoopSource && l.sourceLoopCount.Finite?
    requires l.sourceLoopCount.passes >= 1
    ensures var N := l.sourceLoopCount.passes;
            && N * l.totalFrames - 1 >= 0
            && Run(Position(0, 1), N * l.totalFrames - 1, l) == Advance(true, Position(l.totalFrames - 1, N))
            && NextPosition(Position(l.totalFrames - 1, N), l) == Advance(false, Position(l.totalFrames - 1, N))
  {
    SourcePasses(l, l.sourceLoopCount.passes);
  }

  /** Loop mode "none": advancing from the last frame stops and keeps the index. */
  lemma NoLoopStopsAtEnd(l: Looping, iteration: int)
    requires l.totalFrames >= 1 && l.mode == LoopNone
    ensures NextPosition(Position(l.totalFrames - 1, iteration), l) == Advance(false, Position(l.totalFrames - 1, iteration))
  {
  }

  /** Infinite looping, by mode or by the file's count, never stops. */
  lemma {:induction false} InfiniteNeverStops(p: Position, k: nat, l: Looping)
    requires l.mode == LoopInfinite || (l.mode == LoopSource && l.sourceLoopCount == Infinite)
    ensures Run(p, k, l).continues
    decreases k
  {
    if k > 0 {
      InfiniteNeverStops(NextPosition(p, l).pos, k - 1, l);
    }
  }

  /** The example of three frames with loop count 2: five advances reach the last
      frame of the second pass, and the sixth stops there. */
  lemma ThreeFramesTwoPasses()
    ensures var l := Looping(3, LoopSource, Finite(2));
            Run(Position(0, 1), 5, l) == Advance(true, Position(2, 2))
            && !NextPosition(Position(2, 2), l).continues
  {
    LoopCountExactPasses(Looping(3, LoopSource, Finite(2)));
  }

  // ---------------------------------------------------------------------------
  // Catch-up performed by one tick

  /** The outcome of a catch-up: the position reached, the time still owed to
      it, whether playback continues, and how many advances succeeded. */
  datatype Clock = Clock(pos: Position, elapsed: real, playing: bool, advances: nat)

  /** The `while` loop of `tick`: while the owed time covers the current frame's
      delay, subtract that delay and advance; stop when an advance does not continue. */
  function CatchUp(p: Position, elapsed: real, t: Timing, l: Looping): (c: Clock)
    requires t.playbackRate > 0.0
    ensures c.playing ==> c.elapsed < EffectiveDelay(t, c.pos.frame)
    ensures elapsed >= 0.0 ==> c.elapsed >= 0.0
    ensures 0 <= p.frame < l.totalFrames ==> 0 <= c.pos.frame < l.totalFrames
    decreases if elapsed < 0.0 then 0 else elapsed.Floor
  {
    var d := EffectiveDelay(t, p.frame);
    if elapsed < d then Clock(p, elapsed, true, 0)
    else
      var a := NextPosition(p, l);
      if !a.continues then Clock(p, elapsed - d, false, 0)
      else
        var c := CatchUp(a.pos, elapsed - d, t, l);
        Clock(c.pos, c.elapsed, c.playing, c.advances + 1)
  }

  /** Sum of the effective delays of the first `k` frames on the path from `p`. */
  function Spent(p: Position, k: nat, t: Timing, l: Looping): real
    requires t.playbackRate > 0.0
    decreases k
  {
    if k == 0 then 0.0
    else
      var a := NextPosition(p, l);
      EffectiveDelay(t, p.frame) + (if a.continues then Spent(a.pos, k - 1, t, l) else 0.0)
  }

  /** A catch-up walks the same path as `advances` frame advances, and each
      advance uses up exactly the delay of the frame it leaves (a stop uses up
      the delay of the last frame). */
  lemma {:induction false} CatchUpAccounting(p: Position, elapsed: real, t: Timing, l: Looping)
    requires t.playbackRate > 0.0
    ensures var c := CatchUp(p, elapsed, t, l);
            && Run(p, c.advances, l) == Advance(true, c.pos)
            && (c.playing ==> elapsed == c.elapsed + Spent(p, c.advances, t, l))
            && (!c.playing ==> elapsed == c.elapsed + Spent(p, c.advances + 1, t, l)
                               && !NextPosition(c.pos, l).continues)
    decreases if elapsed < 0.0 then 0 else elapsed.Floor
  {
    var d := EffectiveDelay(t, p.frame);
    if elapsed >= d {
      var a := NextPosition(p, l);
      if a.continues {
        CatchUpAccounting(a.pos, elapsed - d, t, l);
      }
    }
  }

  /** No drift: splitting elapsed time over two ticks reaches the same state as one tick with the sum. */
  lemma {:induction false} CatchUpSplit(p: Position, e: real, x: real, t: Timing, l: Looping)
    requires t.playbackRate > 0.0 && x >= 0.0
    requires CatchUp(p, e, t, l).playing
    ensures var c1 := CatchUp(p, e, t, l);
            var c2 := CatchUp(c1.pos, c1.elapsed + x, t, l);
            var c := CatchUp(p, e + x, t, l);
            c2.pos == c.pos && c2.elapsed == c.elapsed && c2.playing == c.playing
            && c.advances == c1.advances + c2.advances
    decreases if e < 0.0 then 0 else e.Floor
  {
    var d := EffectiveDelay(t, p.frame);
    if e >= d {
      var a := NextPosition(p, l);
      assert a.continues;
      var rest := CatchUp(a.pos, e - d, t, l);
      assert CatchUp(p, e, t, l) == Clock(rest.pos, rest.elapsed, rest.playing, rest.advances + 1);
      CatchUpSplit(a.pos, e - d, x, t, l);
      assert e + x - d == e - d + x;
      var whole := CatchUp(a.pos, e + x - d, t, l);
      assert CatchUp(p, e + x, t, l) == Clock(whole.pos, whole.elapsed, whole.playing, whole.advances + 1);
    }
  }

  // ---------------------------------------------------------------------------
  // The player

  class GifPlayer {
    const frames: seq<Compositor.Bitmap>
    const frameDelaysMs: seq<int>
    const totalFrames: int
    const sourceLoopCount: SourceLoopCount
    const reducedMode: bool

    var currentFrame: int
    var isPlaying: bool
    var playbackRate: real
    var loopMode: LoopMode
    var effectiveLoopIteration: int

    /** `rafId !== null`: an animation-frame callback has been requested. */
    var tickQueued: bool
    var lastTickTs: Option<real>
    var elapsedInFrameMs: real
    var sliderDragPending: bool

    /** Index of the composited bitmap last drawn to the visible canvas. */
    var displayedFrame: Option<int>

    /** State invariant: the index is in range, the rate is positive, a tick is
        queued exactly while playing, and a paused player owes no time. */
    ghost predicate Valid()
      reads this
    {
      && totalFrames == |frames| >= 1
      && 0 <= currentFrame < totalFrames
      && playbackRate > 0.0
      && effectiveLoopIteration >= 1
      && tickQueued == isPlaying
      && (isPlaying ==> totalFrames >= 2)
      && (!isPlaying ==> lastTickTs.None? && elapsedInFrameMs == 0.0)
    }

    /** The visible canvas shows the current frame, except while a reduced-mode slider drag defers it. */
    ghost predicate ShowsCurrentFrame()
      reads this
    {
      displayedFrame == Some(currentFrame) || sliderDragPending
    }

    ghost function Pos(): Position reads this { Position(currentFrame, effectiveLoopIteration) }
    ghost function TimingNow(): Timing reads this { Timing(frameDelaysMs, reducedMode, playbackRate) }
    ghost function LoopingNow(): Looping reads this { Looping(totalFrames, loopMode, sourceLoopCount) }

    constructor (frames: seq<Compositor.Bitmap>, frameDelaysMs: seq<int>, sourceLoopCount: SourceLoopCount,
                 reducedMode: bool)
      requires |frames| >= 1
      ensures Valid()
      ensures this.frames == frames && this.frameDelaysMs == frameDelaysMs
      ensures this.sourceLoopCount == sourceLoopCount && this.reducedMode == reducedMode
      ensures totalFrames == |frames| && currentFrame == 0 && !isPlaying && playbackRate == 1.0
      ensures loopMode == LoopSource && effectiveLoopIteration == 1
      ensures !tickQueued && lastTickTs.None? && elapsedInFrameMs == 0.0 && !sliderDragPending
      ensures displayedFrame.None?
    {
      this.frames := frames;
      this.frameDelaysMs := frameDelaysMs;
      this.totalFrames := |frames|;
      this.sourceLoopCount := sourceLoopCount;
      this.reducedMode := reducedMode;
      currentFrame := 0;
      isPlaying := false;
      playbackRate := 1.0;
      loopMode := LoopSource;
      effectiveLoopIteration := 1;
      tickQueued := false;
      lastTickTs := None;
      elapsedInFrameMs := 0.0;
      sliderDragPending := false;
      displayedFrame := None;
    }

    /** `mount()`: draw the first frame, then start playing. */
    method Mount()
      requires Valid()
      modifies this
      ensures Valid() && displayedFrame == Some(currentFrame)
      ensures playbackRate == old(playbackRate) && loopMode == old(loopMode)
      ensures sliderDragPending == old(sliderDragPending) && elapsedInFrameMs == old(elapsedInFrameMs)
      ensures totalFrames <= 1 ==> !isPlaying && !tickQueued && lastTickTs == old(lastTickTs) && Pos() == old(Pos())
      ensures totalFrames > 1 ==> isPlaying && tickQueued && lastTickTs.None?
      ensures totalFrames > 1 && old(currentFrame) >= totalFrames - 1 ==> Pos() == Position(0, 1)
      ensures totalFrames > 1 && old(currentFrame) < totalFrames - 1 ==> Pos() == old(Pos())
    {
      RenderCurrentFrame();
      Play();
    }

    /** `renderCurrentFrame()` */
    method RenderCurrentFrame()
      modifies this`displayedFrame
      ensures displayedFrame == Some(currentFrame)
    {
      displayedFrame := Some(currentFrame);
    }

    /** `clampFrameIndex(value)`: the nearest index in range. */
    function ClampFrameIndex(value: int): (r: int)
      requires totalFrames >= 1
      ensures 0 <= r < totalFrames
      ensures 0 <= value < totalFrames ==> r == value
      ensures value < 0 ==> r == 0
      ensures value >= totalFrames ==> r == totalFrames - 1
    {
      var atLeastZero := if value > 0 then value else 0;
      if totalFrames - 1 < atLeastZero then totalFrames - 1 else atLeastZero
    }

    /** `getEffectiveDelayMs(frameIndex)` */
    function GetEffectiveDelayMs(frameIndex: int): (r: real)
      reads this
      requires playbackRate > 0.0
      ensures r >= 5.0 && r == EffectiveDelay(TimingNow(), frameIndex)
    {
      EffectiveDelay(Timing(frameDelaysMs, reducedMode, playbackRate), frameIndex)
    }

    /** `queueTick()` */
    method QueueTick()
      modifies this`tickQueued
      ensures tickQueued == (old(tickQueued) || isPlaying)
    {
      if !isPlaying {
        return;
      }
      tickQueued := true;
    }

    /** `play()`: nothing for a single frame; restarts from frame 0 and pass 1
        when at the last frame; then plays with a fresh clock. */
    method Play()
      requires Valid()
      modifies this
      ensures Valid()
      ensures old(ShowsCurrentFrame()) ==> ShowsCurrentFrame()
      ensures totalFrames <= 1 ==> unchanged(this)
      ensures totalFrames > 1 ==>
        && isPlaying && tickQueued && lastTickTs.None?
        && (old(currentFrame) >= totalFrames - 1 ==>
              currentFrame == 0 && effectiveLoopIteration == 1 && displayedFrame == Some(0))
        && (old(currentFrame) < totalFrames - 1 ==>
              currentFrame == old(currentFrame) && effectiveLoopIteration == old(effectiveLoopIteration)
              && displayedFrame == old(displayedFrame))
        && elapsedInFrameMs == old(elapsedInFrameMs)
        && playbackRate == old(playbackRate) && loopMode == old(loopMode)
        && sliderDragPending == old(sliderDragPending)
    {
      if totalFrames <= 1 {
        return;
      }
      if currentFrame >= totalFrames - 1 {
        currentFrame := 0;
        effectiveLoopIteration := 1;
        RenderCurrentFrame();
      }
      isPlaying := true;
      lastTickTs := None;
      QueueTick();
    }

    /** `pause()`: stops, cancels the queued tick and drops the partial progress. */
    method Pause()
      modifies this
      ensures !isPlaying && !tickQueued && lastTickTs.None? && elapsedInFrameMs == 0.0
      ensures currentFrame == old(currentFrame) && effectiveLoopIteration == old(effectiveLoopIteration)
      ensures playbackRate == old(playbackRate) && loopMode == old(loopMode)
      ensures sliderDragPending == old(sliderDragPending) && displayedFrame == old(displayedFrame)
    {
      isPlaying := false;
      if tickQueued {
        tickQueued := false;
      }
      lastTickTs := None;
      elapsedInFrameMs := 0.0;
    }

    /** `togglePlayback()` */
    method TogglePlayback()
      requires Valid()
      modifies this
      ensures Valid()
      ensures old(ShowsCurrentFrame()) ==> ShowsCurrentFrame()
      ensures playbackRate == old(playbackRate) && loopMode == old(loopMode)
      ensures sliderDragPending == old(sliderDragPending)
      ensures old(isPlaying) ==>
        && !isPlaying && !tickQueued && lastTickTs.None? && elapsedInFrameMs == 0.0
        && Pos() == old(Pos()) && displayedFrame == old(displayedFrame)
      ensures !old(isPlaying) && totalFrames <= 1 ==> unchanged(this)
      ensures !old(isPlaying) && totalFrames > 1 ==>
        && isPlaying && tickQueued && lastTickTs.None? && elapsedInFrameMs == old(elapsedInFrameMs)
        && (old(currentFrame) >= totalFrames - 1 ==> Pos() == Position(0, 1) && displayedFrame == Some(0))
        && (old(currentFrame) < totalFrames - 1 ==> Pos() == old(Pos()) && displayedFrame == old(displayedFrame))
    {
      if isPlaying {
        Pause();
      } else {
        Play();
      }
    }

    /** `advanceFrame()`: one step of the reference `NextPosition`; a step that
        moves draws the new frame. */
    method AdvanceFrame() returns (ok: bool)
      requires Valid()
      modifies this`currentFrame, this`effectiveLoopIteration, this`displayedFrame
      ensures Valid()
      ensures ok == NextPosition(old(Pos()), LoopingNow()).continues
      ensures Pos() == NextPosition(old(Pos()), LoopingNow()).pos
      ensures displayedFrame == if ok then Some(currentFrame) else old(displayedFrame)
    {
      if currentFrame < totalFrames - 1 {
        currentFrame := currentFrame + 1;
        RenderCurrentFrame();
        return true;
      }

      if loopMode == LoopNone {
        return false;
      }

      if loopMode == LoopInfinite || sourceLoopCount == Infinite {
        currentFrame := 0;
        effectiveLoopIteration := effectiveLoopIteration + 1;
        RenderCurrentFrame();
        return true;
      }

      if effectiveLoopIteration >= sourceLoopCount.passes {
        return false;
      }

      currentFrame := 0;
      effectiveLoopIteration := effectiveLoopIteration + 1;
      RenderCurrentFrame();
      return true;
    }

    /** `tick(ts)`: ignored when paused; the first tick after a gap only records
        the timestamp; later ticks run the catch-up of `CatchUp` on the time
        owed, pausing if an advance stops, and queue the next tick while playing. */
    method Tick(ts: real)
      requires Valid()
      modifies this
      ensures Valid()
      ensures old(ShowsCurrentFrame()) ==> ShowsCurrentFrame()
      ensures playbackRate == old(playbackRate) && loopMode == old(loopMode)
      ensures sliderDragPending == old(sliderDragPending)
      ensures !old(isPlaying) ==> unchanged(this)
      ensures old(isPlaying) && old(lastTickTs).None? ==>
        && lastTickTs == Some(ts) && isPlaying && tickQueued
        && Pos() == old(Pos()) && elapsedInFrameMs == old(elapsedInFrameMs)
        && displayedFrame == old(displayedFrame)
      ensures old(isPlaying) && old(lastTickTs).Some? ==>
        var c := CatchUp(old(Pos()), old(elapsedInFrameMs) + (ts - old(lastTickTs).value), TimingNow(), LoopingNow());
        && Pos() == c.pos
        && isPlaying == c.playing && tickQueued == c.playing
        && elapsedInFrameMs == (if c.playing then c.elapsed else 0.0)
        && lastTickTs == (if c.playing then Some(ts) else None)
        && displayedFrame == (if c.advances > 0 then Some(currentFrame) else old(displayedFrame))
    {
      if !isPlaying {
        return;
      }

      if lastTickTs.None? {
        lastTickTs := Some(ts);
        QueueTick();
        return;
      }

      elapsedInFrameMs := elapsedInFrameMs + (ts - lastTickTs.value);
      lastTickTs := Some(ts);

      ghost var target := CatchUp(Pos(), elapsedInFrameMs, TimingNow(), LoopingNow());
      ghost var advanced: nat := 0;
      var frameDelay := GetEffectiveDelayMs(currentFrame);

      while elapsedInFrameMs >= frameDelay && isPlaying
        invariant Valid() && isPlaying
        invariant lastTickTs == Some(ts)
        invariant playbackRate == old(playbackRate) && loopMode == old(loopMode)
        invariant sliderDragPending == old(sliderDragPending)
        invariant frameDelay == EffectiveDelay(TimingNow(), currentFrame)
        invariant var c := CatchUp(Pos(), elapsedInFrameMs, TimingNow(), LoopingNow());
                  c.pos == target.pos && c.elapsed == target.elapsed && c.playing == target.playing
                  && c.advances + advanced == target.advances
        invariant displayedFrame == if advanced > 0 then Some(currentFrame) else old(displayedFrame)
        decreases target.advances - advanced
      {
        elapsedInFrameMs := elapsedInFrameMs - frameDelay;
        var ok := AdvanceFrame();
        if !ok {
          Pause();
          break;
        }
        advanced := advanced + 1;
        frameDelay := GetEffectiveDelayMs(currentFrame);
      }

      if isPlaying {
        QueueTick();
      }
    }

    /** `step(delta)`: pauses, then moves by `delta` frames, clamped to the range (never wrapping). */
    method Step(delta: int)
      requires Valid()
      modifies this
      ensures Valid() && ShowsCurrentFrame()
      ensures !isPlaying && !tickQueued && lastTickTs.None? && elapsedInFrameMs == 0.0
      ensures currentFrame == ClampFrameIndex(old(currentFrame) + delta)
      ensures displayedFrame == Some(currentFrame)
      ensures effectiveLoopIteration == old(effectiveLoopIteration)
      ensures playbackRate == old(playbackRate) && loopMode == old(loopMode)
      ensures sliderDragPending == old(sliderDragPending)
    {
      Pause();
      currentFrame := ClampFrameIndex(currentFrame + delta);
      RenderCurrentFrame();
    }

    /** `seek(frameIndex)`: pauses, then jumps to the clamped index. */
    method Seek(frameIndex: int)
      requires Valid()
      modifies this
      ensures Valid() && ShowsCurrentFrame()
      ensures !isPlaying && !tickQueued && lastTickTs.None? && elapsedInFrameMs == 0.0
      ensures currentFrame == ClampFrameIndex(frameIndex)
      ensures displayedFrame == Some(currentFrame)
      ensures effectiveLoopIteration == old(effectiveLoopIteration)
      ensures playbackRate == old(playbackRate) && loopMode == old(loopMode)
      ensures sliderDragPending == old(sliderDragPending)
    {
      Pause();
      currentFrame := ClampFrameIndex(frameIndex);
      RenderCurrentFrame();
    }

    /** The loop `<select>` changed: an unknown value is ignored. */
    method OnLoopSelectChange(value: string)
      requires Valid()
      modifies this`loopMode
      ensures Valid()
      ensures loopMode == if ParseLoopMode(value).Some? then ParseLoopMode(value).value else old(loopMode)
    {
      if value != "source" && value != "infinite" && value != "none" {
        return;
      }
      loopMode := ParseLoopMode(value).value;
    }

    /** The speed `<select>` changed; `None` stands for a value that is not a finite number. */
    method OnSpeedSelectChange(nextRate: Option<real>)
      requires Valid()
      modifies this`playbackRate
      ensures Valid()
      ensures playbackRate == if nextRate.Some? && nextRate.value > 0.0 then nextRate.value else old(playbackRate)
    {
      if nextRate.None? || nextRate.value <= 0.0 {
        return;
      }
      playbackRate := nextRate.value;
    }

    /** The slider moved.  Its value is always an index in range (a range input
        from 0 to the last index).  In reduced mode the redraw is deferred until
        the drag is committed; otherwise it seeks. */
    method OnSliderInput(targetFrame: int)
      requires Valid() && 0 <= targetFrame < totalFrames
      modifies this
      ensures Valid() && ShowsCurrentFrame()
      ensures currentFrame == targetFrame && effectiveLoopIteration == old(effectiveLoopIteration)
      ensures playbackRate == old(playbackRate) && loopMode == old(loopMode)
      ensures reducedMode ==>
        && sliderDragPending && isPlaying == old(isPlaying) && tickQueued == old(tickQueued)
        && lastTickTs == old(lastTickTs) && elapsedInFrameMs == old(elapsedInFrameMs)
        && displayedFrame == old(displayedFrame)
      ensures !reducedMode ==>
        && !isPlaying && !tickQueued && lastTickTs.None? && elapsedInFrameMs == 0.0
        && displayedFrame == Some(targetFrame) && sliderDragPending == old(sliderDragPending)
    {
      if reducedMode {
        currentFrame := targetFrame;
        sliderDragPending := true;
        return;
      }
      Seek(targetFrame);
    }

    /** The slider drag was committed: seek if a reduced-mode drag is pending. */
    method OnSliderChange(value: int)
      requires Valid() && 0 <= value < totalFrames
      modifies this
      ensures Valid()
      ensures old(ShowsCurrentFrame()) ==> ShowsCurrentFrame()
      ensures !old(sliderDragPending) ==> unchanged(this)
      ensures old(sliderDragPending) ==>
        && !sliderDragPending && !isPlaying && !tickQueued && lastTickTs.None? && elapsedInFrameMs == 0.0
        && currentFrame == value && displayedFrame == Some(value)
        && effectiveLoopIteration == old(effectiveLoopIteration)
        && playbackRate == old(playbackRate) && loopMode == old(loopMode)
    {
      if !sliderDragPending {
        return;
      }
      sliderDragPending := false;
      Seek(value);
    }
  }
}
