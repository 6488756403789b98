/** The metronome engine: transport state, the schedule cursor, the tick that fills the
    lookahead window, and tap tempo. The host clock and the wall clock are read by the
    caller and passed in; the audio, haptic and UI sinks are recorded in a ghost log. */
module Engine {
  import opened AudioTime
  import opened Scheduler
  import opened TapTempo

  /** A log that held `log0 + done` and gets `more` appended holds `log0 + next`. */
  lemma ExtendLog<T>(log0: seq<T>, current: seq<T>, done: seq<T>, more: seq<T>, next: seq<T>)
    requires current == log0 + done && next == done + more
    ensures current + more == log0 + next
  {
  }

  class MetronomeEngine {
    /** The host clock's timebase, fixed for the session. */
    const timebase: Timebase

    var bpm: real
    var beatsPerBar: int
    var sound: ClickSound
    var soundEnabled: bool
    var hapticsEnabled: bool
    var isRunning: bool

    /** The schedule cursor: host time and running index of the next beat to dispatch. */
    var nextBeatHostTime: HostTime
    var beatIndex: nat

    /** Wall-clock times of the most recent taps, oldest first. */
    var tapTimes: seq<real>

    /** Every event handed to the audio sink, the haptic sink and the UI, in order. */
    ghost var events: seq<Event>

    ghost predicate Valid()
      reads this
    {
      |tapTimes| <= MaxTaps
    }

    /** The settings a tick reads. */
    function CurrentSettings(): Settings
      reads this`beatsPerBar, this`sound, this`soundEnabled, this`hapticsEnabled
    {
      Settings(beatsPerBar, sound, soundEnabled, hapticsEnabled)
    }

    constructor (tb: Timebase)
      ensures Valid() && timebase == tb
      ensures bpm == 120.0 && beatsPerBar == 4 && sound == Beep
      ensures soundEnabled && !hapticsEnabled && !isRunning
      ensures nextBeatHostTime == 0 && beatIndex == 0
      ensures tapTimes == [] && events == []
    {
      timebase := tb;
      bpm := 120.0;
      beatsPerBar := 4;
      sound := Beep;
      soundEnabled := true;
      hapticsEnabled := false;
      isRunning := false;
      nextBeatHostTime := 0;
      beatIndex := 0;
      tapTimes := [];
      events := [];
    }

    /** Starts the transport, with the first (accented) beat `StartDelay` after `hostNow`.
        A no-op when already running. */
    method Start(hostNow: HostTime)
      requires !isRunning ==> hostNow + StartOffset(timebase) < UInt64Limit
      modifies this`isRunning, this`nextBeatHostTime, this`beatIndex
      ensures old(isRunning) ==> unchanged(this)
      ensures !old(isRunning) ==>
        isRunning && beatIndex == 0 && nextBeatHostTime == hostNow + StartOffset(timebase)
    {
      if isRunning {
        return;
      }
      nextBeatHostTime := hostNow + StartOffset(timebase);
      beatIndex := 0;
      isRunning := true;
    }

    /** Stops the transport; the cursor is left as it was. */
    method Stop()
      modifies this`isRunning
      ensures !isRunning
    {
      isRunning := false;
    }

    /** While running, re-aligns the schedule so that the next beat, `ResyncDelay` after
        `hostNow`, is the accented first beat of a bar. A no-op when stopped. */
    method ResetPhase(hostNow: HostTime)
      requires isRunning ==> hostNow + ResyncOffset(timebase) < UInt64Limit
      modifies this`nextBeatHostTime, this`beatIndex
      ensures !old(isRunning) ==> unchanged(this)
      ensures old(isRunning) ==>
        beatIndex == 0 && nextBeatHostTime == hostNow + ResyncOffset(timebase)
      ensures isRunning ==> IsAccent(beatIndex, beatsPerBar)
    {
      if isRunning {
        nextBeatHostTime := hostNow + ResyncOffset(timebase);
        beatIndex := 0;
      }
    }

    /** One scheduler tick at host time `hostNow`: dispatches every beat from the cursor on
        that is due within the lookahead window, then leaves the cursor at the first beat
        that is not. A no-op when stopped. */
    method Tick(hostNow: HostTime)
      requires isRunning ==> TickSafe(timebase, bpm, hostNow)
      modifies this`nextBeatHostTime, this`beatIndex, this`events
      ensures !old(isRunning) ==> unchanged(this)
      ensures old(isRunning) ==>
        var step := BeatStep(timebase, bpm);
        var count := DueCount(timebase, old(nextBeatHostTime), step, hostNow);
        && nextBeatHostTime == BeatTime(old(nextBeatHostTime), step, count)
        && beatIndex == old(beatIndex) + count
        && events == old(events)
           + Dispatch(timebase, CurrentSettings(), hostNow, Beats(old(nextBeatHostTime), old(beatIndex), step, count))
    {
      if !isRunning {
        return;
      }
      ScheduleDueBeats(hostNow);
    }

    /** The body of a tick once the transport is known to be running: the scheduling loop
        and the final move of the cursor. */
    method ScheduleDueBeats(hostNow: HostTime)
      requires TickSafe(timebase, bpm, hostNow)
      modifies this`nextBeatHostTime, this`beatIndex, this`events
      ensures
        var step := BeatStep(timebase, bpm);
        var count := DueCount(timebase, old(nextBeatHostTime), step, hostNow);
        && nextBeatHostTime == BeatTime(old(nextBeatHostTime), step, count)
        && beatIndex == old(beatIndex) + count
        && events == old(events)
           + Dispatch(timebase, CurrentSettings(), hostNow, Beats(old(nextBeatHostTime), old(beatIndex), step, count))
    {
      var secondsPerBeat := 60.0 / bpm;
      var t := nextBeatHostTime;
      ghost var rate := bpm;
      ghost var step := BeatStep(timebase, rate);
      ghost var first, firstIndex := nextBeatHostTime, beatIndex;
      ghost var settings := CurrentSettings();
      ghost var count: nat := 0;
      ghost var done: seq<Event> := [];

      while HostTimeToSeconds(timebase, t) - HostTimeToSeconds(timebase, hostNow) < Lookahead
        invariant TickLoop(timebase, settings, rate, hostNow, first, firstIndex, count, t, beatIndex, done)
        invariant events == old(events) + done
        decreases WindowEnd(timebase, hostNow) - t
      {
        ghost var before := events;
        DispatchBeat(t, beatIndex, hostNow);
        assert CurrentSettings() == settings;
        ghost var beat := BeatEvents(timebase, settings, hostNow, Beat(t, beatIndex));
        var next := AddSeconds(timebase, t, secondsPerBeat);
        TickLoopStep(timebase, settings, rate, hostNow, first, firstIndex, count, t, beatIndex, done, next);
        ExtendLog(old(events), before, done, beat, done + beat);
        done := done + beat;
        t := next;
        beatIndex := beatIndex + 1;
        count := count + 1;
      }
      TickLoopExit(timebase, settings, rate, hostNow, first, firstIndex, count, t, beatIndex, done);
      assert CurrentSettings() == settings;
      nextBeatHostTime := t;
    }

    /** Hands one beat to the sinks: a click if sound is on, a haptic pulse if haptics are
        on, and a UI pulse in any case. */
    method DispatchBeat(t: HostTime, index: nat, hostNow: HostTime)
      modifies this`events
      ensures events == old(events) + BeatEvents(timebase, CurrentSettings(), hostNow, Beat(t, index))
    {
      var isAccent := IsAccent(index, beatsPerBar);
      if soundEnabled {
        events := events + [Event(t, isAccent, Click(sound))];
      }
      if hapticsEnabled {
        events := events + [Event(t, isAccent, HapticFor(isAccent))];
      }
      events := events + [Event(t, isAccent, UiPulse(UiDelay(timebase, t, hostNow)))];
    }

    /** Records a tap at wall-clock time `now`. With at least two remembered taps and a
        plausible interval between them, sets the tempo to the estimate and re-aligns the
        phase at host time `hostNow`; otherwise only the tap history changes. */
    method TapTempo(now: real, hostNow: HostTime)
      requires isRunning ==> hostNow + ResyncOffset(timebase) < UInt64Limit
      modifies this`tapTimes, this`bpm, this`nextBeatHostTime, this`beatIndex
      ensures Valid()
      ensures tapTimes == Recent(old(tapTimes) + [now], MaxTaps)
      ensures EstimateBpm(tapTimes).None? ==>
        bpm == old(bpm) && nextBeatHostTime == old(nextBeatHostTime) && beatIndex == old(beatIndex)
      ensures EstimateBpm(tapTimes).Some? ==>
        && bpm == EstimateBpm(tapTimes).value
        && (isRunning ==> beatIndex == 0 && nextBeatHostTime == hostNow + ResyncOffset(timebase))
        && (!isRunning ==> nextBeatHostTime == old(nextBeatHostTime) && beatIndex == old(beatIndex))
    {
      tapTimes := tapTimes + [now];
      tapTimes := Recent(tapTimes, MaxTaps);
      var estimate := EstimateBpm(tapTimes);
      if estimate.Some? {
        bpm := estimate.value;
        ResetPhase(hostNow);
      }
    }
  }
}
