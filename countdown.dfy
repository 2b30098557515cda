/** The countdown state machine of the menu-bar timer as pure functions on a
    snapshot of its three pieces of state: whether the repeating one-second tick
    source is scheduled, the whole seconds left, and what the status-bar title
    shows. */
module Countdown {
  import opened Format

  /** The seconds a countdown starts from. */
  const Duration: int := 60

  /** The three kinds of status-bar title: the stopwatch icon alone, the time
      left, and the icon followed by "Done!". */
  datatype Title = Idle | Clock(seconds: nat) | Done

  /** The stopwatch icon, U+23F1 followed by the emoji variation selector. */
  const IdleText: string := "\U{23F1}\U{FE0F}"

  const DoneText: string := IdleText + " Done!"

  /** The text the status-bar button shows for a title. Only a clock title
      starts with a digit, and its text reads back as the seconds it shows. */
  function Text(t: Title): (s: string)
    ensures |s| >= 1
    ensures IsDigit(s[0]) <==> t.Clock?
    ensures t.Clock? ==> ParseMMSS(s) == Some(t.seconds)
  {
    match t
    case Idle => IdleText
    case Clock(r) => FormatRoundTrip(r); FormatMMSS(r)
    case Done => DoneText
  }

  /** The text determines the title: no two titles look alike, so reasoning
      about titles is reasoning about the text on screen. */
  lemma TextInjective(t1: Title, t2: Title)
    requires Text(t1) == Text(t2)
    ensures t1 == t2
  {
    if t1.Clock? && t2.Clock? {
      FormatInjective(t1.seconds, t2.seconds);
    }
  }

  datatype Snapshot = Snapshot(active: bool, remaining: int, title: Title)

  /** The state once the application has launched: no tick source, a full
      minute left, and the idle title. */
  const Initial: Snapshot := Snapshot(false, Duration, Idle)

  /** `stopTimer`: invalidate the tick source and restore the idle title. */
  function Stop(s: Snapshot): (r: Snapshot)
    ensures !r.active && r.title == Idle
    ensures r.remaining == s.remaining
  {
    s.(active := false, title := Idle)
  }

  /** `startTimer`: stop any running countdown, schedule a fresh tick source and
      reset the count to a full minute. */
  function Start(s: Snapshot): (r: Snapshot)
    ensures r.active && r.remaining == Duration
    ensures r.title == Stop(s).title
  {
    Stop(s).(active := true, remaining := Duration)
  }

  /** `updateTimer`: one tick of the countdown. With time left it takes off
      one second, leaves the tick source alone and shows the new count; with
      none left it stops the tick source and shows "Done!". */
  function Tick(s: Snapshot): (r: Snapshot)
    ensures s.remaining > 0 ==>
      && r.remaining == s.remaining - 1 >= 0
      && r.active == s.active
      && r.title.Clock? && r.title.seconds == r.remaining
    ensures s.remaining <= 0 ==>
      !r.active && r.remaining == s.remaining && r.title == Done
  {
    if s.remaining > 0 then
      var left := s.remaining - 1;
      s.(remaining := left, title := Clock(left))
    else
      Stop(s).(title := Done)
  }

  /** A tick with time left takes exactly one second off, never goes below
      zero, keeps the tick source as it was, and shows the new count as
      `mm:ss` text whose minute and second fields give back that count. */
  lemma TickCountsDown(s: Snapshot)
    requires s.remaining > 0
    ensures Tick(s).remaining == s.remaining - 1 >= 0
    ensures Tick(s).active == s.active
    ensures ParseMMSS(Text(Tick(s).title)) == Some(Tick(s).remaining)
  {
    FormatRoundTrip(s.remaining - 1);
  }

  /** A tick with no time left stops the tick source, shows "Done!" and
      leaves the count where it was. */
  lemma TickFinishes(s: Snapshot)
    requires s.remaining <= 0
    ensures Tick(s) == Snapshot(false, s.remaining, Done)
    ensures Text(Tick(s).title) == "\U{23F1}\U{FE0F} Done!"
  {
  }

  /** Stopping twice is the same as stopping once. */
  lemma StopIdempotent(s: Snapshot)
    ensures Stop(Stop(s)) == Stop(s)
  {
  }

  /** Starting forgets everything about the state it started from. */
  lemma StartForgets(s1: Snapshot, s2: Snapshot)
    ensures Start(s1) == Start(s2) == Snapshot(true, Duration, Idle)
  {
  }

  /** `n` consecutive ticks. */
  function Ticks(s: Snapshot, n: nat): Snapshot
  {
    if n == 0 then s else Tick(Ticks(s, n - 1))
  }

  /** From a start, tick `k` (for `k` from 1 to 60) shows the seconds still to
      go as `mm:ss`, with the tick source still running. */
  lemma {:induction false} CountdownFromStart(s: Snapshot, k: nat)
    requires k <= Duration
    ensures Ticks(Start(s), k) ==
      Snapshot(true, Duration - k, if k == 0 then Idle else Clock(Duration - k))
  {
    if k > 0 {
      CountdownFromStart(s, k - 1);
    }
  }

  /** The whole minute: after a start, tick 1 shows "00:59" and tick 60
      shows "00:00". */
  lemma FullCountdown(s: Snapshot)
    ensures Text(Ticks(Start(s), 1).title) == "00:59"
    ensures Text(Ticks(Start(s), 60).title) == "00:00"
  {
    CountdownFromStart(s, 1);
    CountdownFromStart(s, 60);
    FirstAndLastLabels();
  }

  /** One tick after "00:00", that is tick 61 after a start, the title shows
      "Done!", the tick source is stopped and nothing is left. */
  lemma CountdownDone(s: Snapshot)
    ensures Ticks(Start(s), 61) == Snapshot(false, 0, Done)
  {
    CountdownFromStart(s, 60);
    assert Ticks(Start(s), 61) == Tick(Ticks(Start(s), 60));
  }

  /** The labels of the first and the last second of a minute. */
  lemma FirstAndLastLabels()
    ensures Text(Clock(59)) == "00:59" && Text(Clock(0)) == "00:00"
  {
    assert FormatMMSS(59) == Pad2(0) + ":" + Pad2(59);
    assert FormatMMSS(0) == Pad2(0) + ":" + Pad2(0);
    Pad2TwoDigits(0);
    Pad2TwoDigits(59);
  }

  /** The commands and events that drive the countdown: the two menu items
      and the tick source firing. */
  datatype Event = StartTimer | StopTimer | UpdateTimer

  function Apply(s: Snapshot, e: Event): Snapshot
  {
    match e
    case StartTimer => Start(s)
    case StopTimer => Stop(s)
    case UpdateTimer => Tick(s)
  }

  /** The state after a sequence of events, oldest first. */
  function Replay(s: Snapshot, events: seq<Event>): Snapshot
  {
    if events == [] then s else Apply(Replay(s, events[..|events| - 1]), events[|events| - 1])
  }

  /** What holds of every state the countdown can reach: the count stays within
      a minute; a clock title shows the count; "Done!" shows only at zero with
      the tick source stopped; and a running tick source still showing the
      idle title has just been started. */
  ghost predicate Consistent(s: Snapshot)
  {
    && 0 <= s.remaining <= Duration
    && (s.title.Clock? ==> s.title.seconds == s.remaining)
    && (s.title == Done ==> s.remaining == 0 && !s.active)
    && (s.active && s.title == Idle ==> s.remaining == Duration)
  }

  /** Every event keeps the state consistent. */
  lemma ApplyPreserves(s: Snapshot, e: Event)
    requires Consistent(s)
    ensures Consistent(Apply(s, e))
  {
  }

  /** Any sequence of start, stop and tick from a consistent state, in
      particular from the launch state, ends in a consistent state, so the
      count never leaves [0, 60]. */
  lemma {:induction false} ReplayConsistent(s: Snapshot, events: seq<Event>)
    requires Consistent(s)
    ensures Consistent(Replay(s, events))
    ensures 0 <= Replay(s, events).remaining <= Duration
  {
    if events != [] {
      ReplayConsistent(s, events[..|events| - 1]);
      ApplyPreserves(Replay(s, events[..|events| - 1]), events[|events| - 1]);
    }
  }

  /** The launch state is consistent. */
  lemma InitialConsistent()
    ensures Consistent(Initial)
  {
  }
}
