/** What one scheduler tick dispatches, as pure functions of the engine's settings,
    its schedule cursor and the host clock reading taken at the start of the tick. */
module Scheduler {
  import opened AudioTime

  /** Seconds of beats scheduled ahead of the host clock on every tick. */
  const Lookahead: real := 0.25
  /** Delay before the first beat after `start`. */
  const StartDelay: real := 0.1
  /** Delay before the re-aligned downbeat after `resetPhase`. */
  const ResyncDelay: real := 0.12

  datatype ClickSound = Beep | Wood | Noise | Square

  /** Where an event goes: the audio sink, the haptic sink, or the UI pulse. */
  datatype Channel =
    | Click(sound: ClickSound)
    | Haptic(intensity: real, sharpness: real)
    | UiPulse(delay: real)

  datatype Event = Event(hostTime: nat, isAccent: bool, channel: Channel)

  /** One beat of the infinite beat sequence: when it sounds and its running index. */
  datatype Beat = Beat(hostTime: nat, index: nat)

  /** The user settings a tick reads. */
  datatype Settings = Settings(beatsPerBar: int, sound: ClickSound, soundEnabled: bool, hapticsEnabled: bool)

  function Max(a: int, b: int): int
  {
    if a >= b then a else b
  }

  /** The first beat of every bar is accented; a bar of fewer than one beat counts as one. */
  predicate IsAccent(beatIndex: nat, beatsPerBar: int)
    ensures beatIndex == 0 ==> IsAccent(beatIndex, beatsPerBar)
    ensures beatsPerBar <= 1 ==> IsAccent(beatIndex, beatsPerBar)
    ensures 1 < beatsPerBar && 0 < beatIndex < beatsPerBar ==> !IsAccent(beatIndex, beatsPerBar)
  {
    beatIndex % Max(beatsPerBar, 1) == 0
  }

  /** Haptic intensity and sharpness for a beat. */
  function HapticFor(isAccent: bool): (r: Channel)
    ensures r.Haptic? && 0.0 < r.intensity <= 1.0 && 0.0 < r.sharpness <= 1.0
    ensures isAccent <==> r.intensity == 1.0
    ensures !isAccent ==> r.intensity < 1.0 && r.sharpness < 0.9
  {
    if isAccent then Haptic(1.0, 0.9) else Haptic(0.5, 0.6)
  }

  /** How long after the tick the UI pulse of a beat at host time `t` fires. */
  function UiDelay(tb: Timebase, t: nat, hostNow: nat): (r: real)
    ensures 0.0 <= r
    ensures InWindow(tb, t, hostNow) ==> r < Lookahead
    ensures t <= hostNow ==> r == 0.0
  {
    LateNotAhead(tb, t, hostNow);
    var delta := HostTimeToSeconds(tb, t) - HostTimeToSeconds(tb, hostNow);
    if 0.0 < delta then delta else 0.0
  }

  /** For a beat that is not late, the UI pulse fires exactly as long after the tick
      as the beat lies after the clock reading. */
  lemma UiDelayIsOffset(tb: Timebase, t: nat, hostNow: nat)
    requires hostNow <= t
    ensures UiDelay(tb, t, hostNow) == HostTimeToSeconds(tb, t) - HostTimeToSeconds(tb, hostNow)
  {
    if hostNow < t {
      HostTimeToSecondsStrictlyIncreasing(tb, hostNow, t);
    }
  }

  /** The events dispatched for one beat: a click if sound is on, a haptic pulse if
      haptics are on, and always one UI pulse, all at the beat's host time. */
  function BeatEvents(tb: Timebase, settings: Settings, hostNow: nat, beat: Beat): (r: seq<Event>)
    ensures var accent := IsAccent(beat.index, settings.beatsPerBar);
      && (forall e :: e in r ==> e.hostTime == beat.hostTime && e.isAccent == accent)
      && (settings.soundEnabled <==> Event(beat.hostTime, accent, Click(settings.sound)) in r)
      && (settings.hapticsEnabled <==> Event(beat.hostTime, accent, HapticFor(accent)) in r)
      && |r| == (if settings.soundEnabled then 1 else 0) + (if settings.hapticsEnabled then 1 else 0) + 1
      && (settings.soundEnabled && settings.hapticsEnabled ==> r[0].channel.Click? && r[1].channel.Haptic?)
      && r[|r| - 1] == Event(beat.hostTime, accent, UiPulse(UiDelay(tb, beat.hostTime, hostNow)))
      && (forall i :: 0 <= i < |r| - 1 ==> !r[i].channel.UiPulse?)
  {
    var accent := IsAccent(beat.index, settings.beatsPerBar);
    (if settings.soundEnabled then [Event(beat.hostTime, accent, Click(settings.sound))] else [])
    + (if settings.hapticsEnabled then [Event(beat.hostTime, accent, HapticFor(accent))] else [])
    + [Event(beat.hostTime, accent, UiPulse(UiDelay(tb, beat.hostTime, hostNow)))]
  }

  /** Host time of the beat `j` steps after the cursor `first`. */
  function BeatTime(first: nat, step: nat, j: nat): nat
  {
    first + j * step
  }

  /** The `count` beats starting at the cursor (`first`, `index`), `step` ticks apart. */
  function Beats(first: nat, index: nat, step: nat, count: nat): (r: seq<Beat>)
    ensures |r| == count
    decreases count
  {
    if count == 0 then []
    else Beats(first, index, step, count - 1) + [Beat(BeatTime(first, step, count - 1), index + count - 1)]
  }

  /** The j-th beat sounds j steps after the cursor and carries index `index + j`. */
  lemma {:induction false} BeatsAt(first: nat, index: nat, step: nat, count: nat, j: nat)
    requires j < count
    ensures Beats(first, index, step, count)[j] == Beat(BeatTime(first, step, j), index + j)
  {
    if j < count - 1 {
      BeatsAt(first, index, step, count - 1, j);
    }
  }

  /** Dispatching `a + b` beats from a cursor is dispatching `a` beats and then `b` more
      from where the first `a` left the cursor: nothing is skipped and nothing repeated. */
  lemma {:induction false} BeatsSplit(first: nat, index: nat, step: nat, a: nat, b: nat)
    ensures Beats(first, index, step, a + b)
            == Beats(first, index, step, a) + Beats(BeatTime(first, step, a), index + a, step, b)
  {
    if b != 0 {
      var next := BeatTime(first, step, a);
      BeatsSplit(first, index, step, a, b - 1);
      var head, tail := Beats(first, index, step, a), Beats(next, index + a, step, b - 1);
      var last := Beat(BeatTime(first, step, a + b - 1), index + (a + b) - 1);
      assert BeatTime(first, step, a + b - 1) == BeatTime(next, step, b - 1) by {
        assert (a + b - 1) * step == a * step + (b - 1) * step;
      }
      assert Beats(first, index, step, a + b) == (head + tail) + [last];
      assert Beats(next, index + a, step, b) == tail + [last];
      assert (head + tail) + [last] == head + (tail + [last]);
    }
  }

  /** Consecutive beats are one step apart. */
  lemma BeatTimeNext(first: nat, step: nat, j: nat)
    ensures BeatTime(first, step, j + 1) == BeatTime(first, step, j) + step
  {
    assert (j + 1) * step == j * step + step;
  }

  /** All events for a sequence of beats, in beat order. */
  function Dispatch(tb: Timebase, settings: Settings, hostNow: nat, beats: seq<Beat>): (r: seq<Event>)
    ensures |beats| <= |r| <= 3 * |beats|
    ensures beats == [] <==> r == []
  {
    if beats == [] then []
    else Dispatch(tb, settings, hostNow, beats[..|beats| - 1]) + BeatEvents(tb, settings, hostNow, beats[|beats| - 1])
  }

  lemma ConcatAssociative<T>(a: seq<T>, b: seq<T>, c: seq<T>)
    ensures (a + b) + c == a + (b + c)
  {
  }

  /** A non-empty run of beats dispatches its last beat's events after all the others. */
  lemma DispatchLast(tb: Timebase, settings: Settings, hostNow: nat, beats: seq<Beat>)
    requires beats != []
    ensures Dispatch(tb, settings, hostNow, beats)
            == Dispatch(tb, settings, hostNow, beats[..|beats| - 1]) + BeatEvents(tb, settings, hostNow, beats[|beats| - 1])
  {
  }

  /** Dispatching a concatenation of beats is concatenating their events. */
  lemma {:induction false} DispatchAppend(tb: Timebase, settings: Settings, hostNow: nat, a: seq<Beat>, b: seq<Beat>)
    ensures Dispatch(tb, settings, hostNow, a + b)
            == Dispatch(tb, settings, hostNow, a) + Dispatch(tb, settings, hostNow, b)
  {
    if b != [] {
      var ab, init, last := a + b, b[..|b| - 1], b[|b| - 1];
      assert ab[..|ab| - 1] == a + init;
      assert ab[|ab| - 1] == last;
      DispatchAppend(tb, settings, hostNow, a, init);
      var da, di, dl := Dispatch(tb, settings, hostNow, a), Dispatch(tb, settings, hostNow, init),
        BeatEvents(tb, settings, hostNow, last);
      DispatchLast(tb, settings, hostNow, ab);
      DispatchLast(tb, settings, hostNow, b);
      ConcatAssociative(da, di, dl);
    } else {
      assert a + b == a;
    }
  }

  /** Dispatching one more beat appends that beat's events. */
  lemma DispatchNextBeat(tb: Timebase, settings: Settings, hostNow: nat, first: nat, index: nat, step: nat, count: nat)
    ensures Dispatch(tb, settings, hostNow, Beats(first, index, step, count + 1))
            == Dispatch(tb, settings, hostNow, Beats(first, index, step, count))
               + BeatEvents(tb, settings, hostNow, Beat(BeatTime(first, step, count), index + count))
  {
    var beats := Beats(first, index, step, count + 1);
    assert beats[..|beats| - 1] == Beats(first, index, step, count);
  }

  /** A beat at host time `t` is due when it lies less than `Lookahead` seconds after `hostNow`
      (beats already in the past are due too). */
  predicate InWindow(tb: Timebase, t: nat, hostNow: nat)
    ensures t <= hostNow ==> InWindow(tb, t, hostNow)
  {
    LateNotAhead(tb, t, hostNow);
    HostTimeToSeconds(tb, t) - HostTimeToSeconds(tb, hostNow) < Lookahead
  }

  /** A host time no later than the clock reading is no later in seconds either. */
  lemma LateNotAhead(tb: Timebase, t: nat, hostNow: nat)
    ensures t <= hostNow ==> HostTimeToSeconds(tb, t) <= HostTimeToSeconds(tb, hostNow)
  {
    if t < hostNow {
      HostTimeToSecondsStrictlyIncreasing(tb, t, hostNow);
    }
  }

  function LookaheadTicks(tb: Timebase): HostTime
  {
    ShortDelayRepresentable(tb, Lookahead);
    ToHostTime(tb, Lookahead)
  }

  function StartOffset(tb: Timebase): HostTime
  {
    ShortDelayRepresentable(tb, StartDelay);
    ToHostTime(tb, StartDelay)
  }

  function ResyncOffset(tb: Timebase): HostTime
  {
    ShortDelayRepresentable(tb, ResyncDelay);
    ToHostTime(tb, ResyncDelay)
  }

  /** A host time past every due beat. */
  function WindowEnd(tb: Timebase, hostNow: nat): nat
  {
    hostNow + LookaheadTicks(tb) + 1
  }

  /** The window is bounded: every due beat lies before `WindowEnd`. */
  lemma InWindowBeforeEnd(tb: Timebase, t: nat, hostNow: nat)
    requires InWindow(tb, t, hostNow)
    ensures t < WindowEnd(tb, hostNow)
  {
    if WindowEnd(tb, hostNow) <= t {
      var delta := t - hostNow;
      var x := ExactTicks(tb, Lookahead);
      var c := HostTimeToSeconds(tb, 1);
      ShortDelayRepresentable(tb, Lookahead);
      assert x < delta as real;
      HostTimeToSecondsStrictlyIncreasing(tb, 0, 1);
      HostTimeToSecondsAdditive(tb, hostNow, delta);
      HostTimeToSecondsScales(tb, delta);
      ExactTicksInverse(tb, Lookahead);
      ScaledStrictOrder(x, delta as real, c, Lookahead, HostTimeToSeconds(tb, delta));
      assert false;
    }
  }

  /** A beat earlier than a due beat is due as well. */
  lemma InWindowDownwardClosed(tb: Timebase, t1: nat, t2: nat, hostNow: nat)
    requires t1 <= t2 && InWindow(tb, t2, hostNow)
    ensures InWindow(tb, t1, hostNow)
  {
    if t1 < t2 {
      HostTimeToSecondsStrictlyIncreasing(tb, t1, t2);
    }
  }

  /** A beat due at one clock reading is still due at any later reading. */
  lemma InWindowLater(tb: Timebase, t: nat, hostNow1: nat, hostNow2: nat)
    requires hostNow1 <= hostNow2 && InWindow(tb, t, hostNow1)
    ensures InWindow(tb, t, hostNow2)
  {
    if hostNow1 < hostNow2 {
      HostTimeToSecondsStrictlyIncreasing(tb, hostNow1, hostNow2);
    }
  }

  /** The number of beats one tick dispatches from cursor time `t`: it stops at the first
      beat that is not due. Finite because `step` is positive and the window is bounded. */
  function DueCount(tb: Timebase, t: nat, step: nat, hostNow: nat): (r: nat)
    requires 0 < step
    ensures t <= hostNow ==> 0 < r
    ensures 0 < r ==> BeatTime(t, step, r - 1) < WindowEnd(tb, hostNow)
    decreases WindowEnd(tb, hostNow) - t
  {
    if InWindow(tb, t, hostNow) then
      InWindowBeforeEnd(tb, t, hostNow);
      var rest := DueCount(tb, t + step, step, hostNow);
      assert 0 < rest ==> BeatTime(t, step, rest) == BeatTime(t + step, step, rest - 1) by {
        if 0 < rest {
          assert rest * step == step + (rest - 1) * step;
        }
      }
      1 + rest
    else 0
  }

  /** A tick dispatches exactly the due beats: beat j after the cursor is dispatched
      if and only if it is due. */
  lemma {:induction false} DueCountExact(tb: Timebase, t: nat, step: nat, hostNow: nat, j: nat)
    requires 0 < step
    ensures j < DueCount(tb, t, step, hostNow) <==> InWindow(tb, BeatTime(t, step, j), hostNow)
    decreases WindowEnd(tb, hostNow) - t
  {
    if InWindow(tb, t, hostNow) {
      InWindowBeforeEnd(tb, t, hostNow);
      if j > 0 {
        DueCountExact(tb, t + step, step, hostNow, j - 1);
        assert BeatTime(t + step, step, j - 1) == BeatTime(t, step, j) by {
          assert j * step == step + (j - 1) * step;
        }
      }
    } else {
      assert t <= BeatTime(t, step, j);
      if InWindow(tb, BeatTime(t, step, j), hostNow) {
        InWindowDownwardClosed(tb, t, BeatTime(t, step, j), hostNow);
      }
    }
  }

  /** The cursor a tick leaves behind is the first beat that is not due. */
  lemma TickStopsAtFirstUndueBeat(tb: Timebase, t: nat, step: nat, hostNow: nat)
    requires 0 < step
    ensures !InWindow(tb, BeatTime(t, step, DueCount(tb, t, step, hostNow)), hostNow)
    ensures forall j :: 0 <= j < DueCount(tb, t, step, hostNow) ==> InWindow(tb, BeatTime(t, step, j), hostNow)
  {
    DueCountExact(tb, t, step, hostNow, DueCount(tb, t, step, hostNow));
    forall j | 0 <= j < DueCount(tb, t, step, hostNow)
      ensures InWindow(tb, BeatTime(t, step, j), hostNow)
    {
      DueCountExact(tb, t, step, hostNow, j);
    }
  }

  /** Advancing the cursor by `j` due beats leaves `j` fewer beats due. */
  lemma {:induction false} DueCountShift(tb: Timebase, t: nat, step: nat, hostNow: nat, j: nat)
    requires 0 < step && j <= DueCount(tb, t, step, hostNow)
    ensures DueCount(tb, t, step, hostNow) == j + DueCount(tb, BeatTime(t, step, j), step, hostNow)
    decreases j
  {
    if j > 0 {
      DueCountShift(tb, t, step, hostNow, j - 1);
      var u := BeatTime(t, step, j - 1);
      assert BeatTime(t, step, j) == u + step by {
        assert j * step == (j - 1) * step + step;
      }
    }
  }

  /** When the cursor is not late, one tick dispatches at most `LookaheadTicks / step + 1` beats. */
  lemma TickBeatCountBound(tb: Timebase, t: nat, step: nat, hostNow: nat)
    requires 0 < step && hostNow <= t
    ensures var k := DueCount(tb, t, step, hostNow);
      k == 0 || (k - 1) * step <= LookaheadTicks(tb)
  {
    var k := DueCount(tb, t, step, hostNow);
    if k > 0 {
      DueCountExact(tb, t, step, hostNow, k - 1);
      InWindowBeforeEnd(tb, BeatTime(t, step, k - 1), hostNow);
    }
  }

  /** Two ticks without a resync, at clock readings `hostNow1 <= hostNow2`, dispatch together
      exactly the beats a single tick at `hostNow2` would have dispatched, in order. */
  lemma ConsecutiveTicksCompose(tb: Timebase, t: nat, index: nat, step: nat, hostNow1: nat, hostNow2: nat)
    requires 0 < step && hostNow1 <= hostNow2
    ensures var k1 := DueCount(tb, t, step, hostNow1);
      var k2 := DueCount(tb, BeatTime(t, step, k1), step, hostNow2);
      && k1 + k2 == DueCount(tb, t, step, hostNow2)
      && Beats(t, index, step, k1) + Beats(BeatTime(t, step, k1), index + k1, step, k2)
         == Beats(t, index, step, DueCount(tb, t, step, hostNow2))
  {
    var k1 := DueCount(tb, t, step, hostNow1);
    if k1 > 0 {
      DueCountExact(tb, t, step, hostNow1, k1 - 1);
      InWindowLater(tb, BeatTime(t, step, k1 - 1), hostNow1, hostNow2);
      DueCountExact(tb, t, step, hostNow2, k1 - 1);
    }
    DueCountShift(tb, t, step, hostNow2, k1);
    var k2 := DueCount(tb, BeatTime(t, step, k1), step, hostNow2);
    BeatsSplit(t, index, step, k1, k2);
  }

  /** With `beatsPerBar = m >= 1`, a bar-aligned run of beats is accented exactly at the
      multiples of `m`; with `beatsPerBar <= 1` every beat is accented. */
  lemma AccentPattern(first: nat, step: nat, count: nat, beatsPerBar: int, j: nat)
    requires j < count
    ensures IsAccent(Beats(first, 0, step, count)[j].index, beatsPerBar) <==> j % Max(beatsPerBar, 1) == 0
    ensures beatsPerBar <= 1 ==> IsAccent(Beats(first, 0, step, count)[j].index, beatsPerBar)
  {
    BeatsAt(first, 0, step, count, j);
  }

  lemma FourFourAccents()
    ensures [IsAccent(0, 4), IsAccent(1, 4), IsAccent(2, 4), IsAccent(3, 4),
             IsAccent(4, 4), IsAccent(5, 4), IsAccent(6, 4), IsAccent(7, 4)]
            == [true, false, false, false, true, false, false, false]
  {
  }

  /** The per-beat host-tick step at `bpm`. */
  function BeatStep(tb: Timebase, bpm: real): HostTime
    requires 0.0 < bpm && Representable(tb, 60.0 / bpm)
  {
    ToHostTime(tb, 60.0 / bpm)
  }

  /** What a running tick needs: a positive tempo whose beat period converts to a positive
      number of ticks, and a window that does not reach the end of the UInt64 clock range. */
  predicate TickSafe(tb: Timebase, bpm: real, hostNow: nat)
  {
    && 0.0 < bpm
    && Representable(tb, 60.0 / bpm)
    && 0 < BeatStep(tb, bpm)
    && WindowEnd(tb, hostNow) + BeatStep(tb, bpm) <= UInt64Limit
  }

  /** The state of a tick's loop after `count` iterations from the cursor (`first`,
      `firstIndex`): the cursor has moved `count` steps, the index `count` places, the
      first `count` beats have been dispatched, and the remaining due beats are those
      from `t` on. */
  ghost predicate TickLoop(tb: Timebase, settings: Settings, bpm: real, hostNow: nat,
                           first: nat, firstIndex: nat, count: nat, t: nat, index: nat, done: seq<Event>)
  {
    && TickSafe(tb, bpm, hostNow)
    && t == BeatTime(first, BeatStep(tb, bpm), count)
    && index == firstIndex + count
    && DueCount(tb, first, BeatStep(tb, bpm), hostNow) == count + DueCount(tb, t, BeatStep(tb, bpm), hostNow)
    && done == Dispatch(tb, settings, hostNow, Beats(first, firstIndex, BeatStep(tb, bpm), count))
  }

  /** One iteration of the tick loop: a due beat at the cursor is dispatched and the cursor
      moves one step, without wrapping, leaving one fewer beat due. */
  lemma TickLoopStep(tb: Timebase, settings: Settings, bpm: real, hostNow: nat,
                     first: nat, firstIndex: nat, count: nat, t: HostTime, index: nat, done: seq<Event>, next: HostTime)
    requires TickLoop(tb, settings, bpm, hostNow, first, firstIndex, count, t, index, done)
    requires InWindow(tb, t, hostNow)
    requires next == AddSeconds(tb, t, 60.0 / bpm)
    ensures TickLoop(tb, settings, bpm, hostNow, first, firstIndex, count + 1, next, index + 1,
                     done + BeatEvents(tb, settings, hostNow, Beat(t, index)))
    ensures t < WindowEnd(tb, hostNow) && t < next
  {
    var step := BeatStep(tb, bpm);
    InWindowBeforeEnd(tb, t, hostNow);
    assert next == t + step;
    assert DueCount(tb, t, step, hostNow) == 1 + DueCount(tb, next, step, hostNow);
    BeatTimeNext(first, step, count);
    DispatchNextBeat(tb, settings, hostNow, first, firstIndex, step, count);
    assert Beat(t, index) == Beat(BeatTime(first, step, count), firstIndex + count);
  }

  /** When the loop stops, it has dispatched exactly the due beats and the cursor is at
      the first beat that is not due. */
  lemma TickLoopExit(tb: Timebase, settings: Settings, bpm: real, hostNow: nat,
                     first: nat, firstIndex: nat, count: nat, t: nat, index: nat, done: seq<Event>)
    requires TickLoop(tb, settings, bpm, hostNow, first, firstIndex, count, t, index, done)
    requires !InWindow(tb, t, hostNow)
    ensures var due := DueCount(tb, first, BeatStep(tb, bpm), hostNow);
      && t == BeatTime(first, BeatStep(tb, bpm), due)
      && index == firstIndex + due
      && done == Dispatch(tb, settings, hostNow, Beats(first, firstIndex, BeatStep(tb, bpm), due))
  {
  }

  /** Every tempo the interface allows has a beat period that converts without trapping. */
  lemma TempoRangeRepresentable(tb: Timebase, bpm: real)
    requires 20.0 <= bpm <= 300.0
    ensures Representable(tb, 60.0 / bpm)
  {
    var period := 60.0 / bpm;
    assert period * bpm == 60.0;
    assert period <= 3.0;
    assert 0.0 <= period;
    ShortDelayRepresentable(tb, period);
  }
}
