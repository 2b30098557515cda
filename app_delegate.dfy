/** The application delegate of the menu-bar timer: the object whose fields the
    menu actions and the one-second tick update in place. */
module MenuBarTimer {
  import opened Format
  import Countdown

  class AppDelegate {
    /** Whether the repeating one-second tick source is scheduled (`timer != nil`). */
    var active: bool
    /** The whole seconds left. */
    var timeRemaining: int
    /** The status-bar button's title. */
    var title: string
    /** What the title shows, as one of the three kinds of title. */
    ghost var shown: Countdown.Title

    /** The state of the countdown as the pure state machine sees it. */
    ghost function State(): Countdown.Snapshot
      reads this
    {
      Countdown.Snapshot(active, timeRemaining, shown)
    }

    /** The title is the text of what it shows, and the state is one the
        countdown can reach. */
    ghost predicate Valid()
      reads this
    {
      title == Countdown.Text(shown) && Countdown.Consistent(State())
    }

    /** The delegate once the application has launched: no tick source, a
        full minute left, and the stopwatch icon as title. */
    constructor ()
      ensures Valid() && State() == Countdown.Initial
      ensures title == "\U{23F1}\U{FE0F}"
    {
      active := false;
      timeRemaining := Countdown.Duration;
      title := Countdown.IdleText;
      shown := Countdown.Idle;
    }

    /** The "Stop Timer" menu action. */
    method StopTimer()
      requires Valid()
      modifies this
      ensures Valid() && State() == Countdown.Stop(old(State()))
      ensures !active && timeRemaining == old(timeRemaining)
      ensures title == "\U{23F1}\U{FE0F}"
    {
      active := false;
      title := Countdown.IdleText;
      shown := Countdown.Idle;
    }

    /** The "Start Timer" menu action: stop whatever runs, then schedule a
        fresh tick source and reset the count. */
    method StartTimer()
      requires Valid()
      modifies this
      ensures Valid() && State() == Countdown.Start(old(State()))
      ensures active && timeRemaining == Countdown.Duration
      ensures title == "\U{23F1}\U{FE0F}"
    {
      StopTimer();
      active := true;
      timeRemaining := Countdown.Duration;
    }

    /** The tick source firing once. */
    method UpdateTimer()
      requires Valid()
      modifies this
      ensures Valid() && State() == Countdown.Tick(old(State()))
      ensures old(timeRemaining) > 0 ==>
        && timeRemaining == old(timeRemaining) - 1
        && active == old(active)
        && ParseMMSS(title) == Some(timeRemaining)
      ensures old(timeRemaining) == 0 ==>
        && timeRemaining == 0
        && !active
        && title == "\U{23F1}\U{FE0F} Done!"
    {
      if timeRemaining > 0 {
        timeRemaining := timeRemaining - 1;
        var minutes := timeRemaining / 60;
        var seconds := timeRemaining % 60;
        title := Pad2(minutes) + ":" + Pad2(seconds);
        shown := Countdown.Clock(timeRemaining);
        FormatRoundTrip(timeRemaining);
      } else {
        StopTimer();
        title := Countdown.DoneText;
        shown := Countdown.Done;
      }
    }
  }
}
