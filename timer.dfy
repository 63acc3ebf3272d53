/**
 * The focus timer panel: a one-second countdown with start, pause and reset
 * buttons, an `mm:ss` display and a progress gauge.
 *
 * `TimerState` and the step functions below are the panel's behaviour as
 * values; `TimerPanel` is the panel object, whose event handlers update its
 * fields in place and are proved to perform exactly those steps. The
 * spinners' values and the description text are read by the handlers from
 * widgets; here they are the handlers' parameters. The alarm sound and the
 * message boxes are recorded as signals.
 */
module FocusTimer {
  import Decimal
  import Text
  import opened Wrappers

  /** The minutes spinner allows 0 to 180 and the seconds spinner 0 to 59. */
  type Minutes = m: int | 0 <= m <= 180
  type Seconds = s: int | 0 <= s <= 59

  /** The longest duration the spinners can configure: 180:59. */
  const MaxDuration: nat := 180 * 60 + 59

  const StartLabel: string := "\U{25B6} Start"
  const ResumeLabel: string := "\U{25B6} Resume"

  /** What the panel shows or plays besides its own widgets. */
  datatype Signal =
    | ZeroDurationError               // "Set a time greater than 0."
    | Alarm                           // the beeps, or the bell where there is no sound API
    | CompletionNotice(task: string)  // "Timer Completed!" naming the description text

  datatype TimerState = TimerState(
    isRunning: bool,
    remaining: nat,        // remaining_time
    total: nat,            // total_time
    ticking: bool,         // whether the one-second wx.Timer is started
    display: string,       // the mm:ss label
    progress: int,         // the gauge value
    startLabel: string,    // the start button's label
    signals: seq<Signal>)

  /** The duration the spinners configure, in seconds. */
  function Duration(minutes: Minutes, seconds: Seconds): (d: nat)
    ensures d <= MaxDuration
    ensures d == 0 <==> minutes == 0 && seconds == 0
  {
    minutes * 60 + seconds
  }

  /** What every reachable panel state satisfies. */
  ghost predicate Inv(st: TimerState) {
    && st.ticking == st.isRunning
    && st.remaining <= MaxDuration
    && st.total <= MaxDuration
  }

  function Initial(): (st: TimerState)
    ensures Inv(st)
  {
    TimerState(false, 0, 0, false, "25:00", 0, StartLabel, [])
  }

  // ---------------------------------------------------------------------
  // update_display: the mm:ss text and the progress percentage

  /** `f"{s // 60:02d}:{s % 60:02d}"`. */
  function ClockText(s: nat): string
  {
    Decimal.TwoDigits(s / 60) + ":" + Decimal.TwoDigits(s % 60)
  }

  /** Reads `mm:ss` back: minutes of at least two digits, seconds of exactly two, below 60. */
  function ParseClock(t: string): (r: Option<nat>)
    ensures r.Some? ==> |t| >= 5
  {
    var parts := Text.Split(t, ':');
    if |parts| == 2 && |parts[0]| >= 2 && |parts[1]| == 2
       && Decimal.AllDigits(parts[0]) && Decimal.AllDigits(parts[1])
       && Decimal.ValueOf(parts[1]) < 60
    then
      Text.SplitJoin(t, ':');
      Some(Decimal.ValueOf(parts[0]) * 60 + Decimal.ValueOf(parts[1]))
    else None
  }

  /** The display can always be read back as the number of seconds it shows. */
  lemma ClockTextRoundTrip(s: nat)
    ensures ParseClock(ClockText(s)) == Some(s)
  {
    var m, sec := Decimal.TwoDigits(s / 60), Decimal.TwoDigits(s % 60);
    Decimal.TwoDigitsValue(s / 60);
    Decimal.TwoDigitsValue(s % 60);
    assert Text.Split(ClockText(s), ':') == [m, sec] by {
      DigitsHaveNoColon(m);
      DigitsHaveNoColon(sec);
      Text.JoinSplit([m, sec], ':');
      assert Text.Join([m, sec], ':') == ClockText(s);
    }
    assert (s / 60) * 60 + s % 60 == s;
  }

  lemma DigitsHaveNoColon(t: string)
    requires Decimal.AllDigits(t)
    ensures ':' !in t
  {
  }

  /** The display reads "00:00" exactly when zero seconds are shown. */
  lemma ClockTextZero(s: nat)
    ensures ClockText(s) == "00:00" <==> s == 0
  {
    assert ClockText(0) == "00:00" by {
      assert Decimal.NatToString(0) == "0";
    }
    if ClockText(s) == "00:00" {
      ClockTextRoundTrip(s);
      ClockTextRoundTrip(0);
      assert ClockText(s) == ClockText(0);
    }
  }

  /** Python's `int()` of a quotient: truncation toward zero. */
  function TruncDiv(a: int, b: int): (q: int)
    requires b > 0
    ensures a >= 0 ==> q == a / b
    ensures a < 0 ==> q == -((-a) / b)
  {
    if a >= 0 then a / b else -((-a) / b)
  }

  /** `int(((total - s) / total) * 100)`, computed exactly. */
  function Progress(total: nat, s: nat): int
    requires total > 0
  {
    TruncDiv((total - s) * 100, total)
  }

  lemma MulMono(a: int, b: int, c: nat)
    requires a <= b
    ensures a * c <= b * c
  {
  }

  /** `a / b` is the one `q` with `q * b <= a < (q + 1) * b`. */
  lemma DivIsFloor(a: int, b: int, q: int)
    requires b > 0
    ensures a / b == q <==> q * b <= a < (q + 1) * b
  {
    var d, r := a / b, a % b;
    assert a == d * b + r && 0 <= r < b;
    if q * b <= a < (q + 1) * b {
      if q < d {
        MulMono(q + 1, d, b);
      } else if q > d {
        MulMono(d + 1, q, b);
      }
    }
  }

  /**
   * While the remaining time is within the configured total, the gauge shows
   * the whole percentage elapsed: 0 at the start, 100 at zero, the floor of
   * the exact fraction in between.
   */
  lemma ProgressBounds(total: nat, s: nat)
    requires 0 < total && s <= total
    ensures 0 <= Progress(total, s) <= 100
    ensures Progress(total, s) * total <= (total - s) * 100 < (Progress(total, s) + 1) * total
    ensures s == total ==> Progress(total, s) == 0
    ensures s == 0 ==> Progress(total, s) == 100
  {
    var a := (total - s) * 100;
    var p := Progress(total, s);
    assert 0 <= a <= 100 * total;
    DivIsFloor(a, total, p);
    if p > 100 {
      MulMono(101, p, total);
    }
    if p < 0 {
      MulMono(p + 1, 0, total);
    }
    if s == total {
      DivIsFloor(a, total, 0);
    }
    if s == 0 {
      DivIsFloor(a, total, 100);
    }
  }

  /** Less time remaining never shows less progress. */
  lemma ProgressMonotone(total: nat, s1: nat, s2: nat)
    requires 0 < total && s1 <= s2 <= total
    ensures Progress(total, s2) <= Progress(total, s1)
  {
    var p1, p2 := Progress(total, s1), Progress(total, s2);
    ProgressBounds(total, s1);
    ProgressBounds(total, s2);
    if p2 > p1 {
      MulMono(p1 + 1, p2, total);
    }
  }

  /** `update_display(s)`: show `s` as mm:ss; move the gauge only when a total is configured. */
  function ShowTime(st: TimerState, s: nat): (r: TimerState)
    ensures r.display == ClockText(s)
    ensures r.progress == if st.total > 0 then Progress(st.total, s) else st.progress
    ensures r.(display := st.display, progress := st.progress) == st
  {
    var p := if st.total > 0 then Progress(st.total, s) else st.progress;
    st.(display := ClockText(s), progress := p)
  }

  // ---------------------------------------------------------------------
  // The event handlers as steps

  /** `on_start` with the spinners at `minutes` and `seconds`. */
  function Start(st: TimerState, minutes: Minutes, seconds: Seconds): TimerState
  {
    var c :=
      if st.remaining <= 0 then
        var d := Duration(minutes, seconds);
        st.(remaining := d, total := d, progress := 0)
      else st;
    if c.remaining == 0 then
      c.(signals := c.signals + [ZeroDurationError])
    else
      c.(isRunning := true, startLabel := ResumeLabel, ticking := true)
  }

  /** `on_pause`. */
  function Pause(st: TimerState): TimerState
  {
    st.(isRunning := false, ticking := false)
  }

  /** `on_reset` with the spinners at `minutes` and `seconds`; `total_time` is left alone. */
  function Reset(st: TimerState, minutes: Minutes, seconds: Seconds): TimerState
  {
    var c := st.(isRunning := false, ticking := false, remaining := Duration(minutes, seconds));
    ShowTime(c, c.remaining).(startLabel := StartLabel, progress := 0)
  }

  /** `timer_complete`, with the description text `task`. */
  function Complete(st: TimerState, task: string): TimerState
  {
    st.(isRunning := false, remaining := 0, startLabel := StartLabel, progress := 100,
        signals := st.signals + [Alarm, CompletionNotice(task)])
  }

  /** Whether a tick counts down (rather than completing). */
  predicate CountsDown(st: TimerState) {
    st.remaining > 0 && st.isRunning
  }

  /** `run_timer`: one tick of the one-second timer. */
  function Tick(st: TimerState, task: string): TimerState
  {
    if CountsDown(st) then
      ShowTime(st, st.remaining).(remaining := st.remaining - 1)
    else
      Complete(st.(ticking := false), task)
  }

  // ---------------------------------------------------------------------
  // Properties of single steps

  /** Every handler keeps the panel invariant; in particular the timer ticks exactly while running. */
  lemma StepsKeepInv(st: TimerState, minutes: Minutes, seconds: Seconds, task: string)
    requires Inv(st)
    ensures Inv(Start(st, minutes, seconds))
    ensures Inv(Pause(st))
    ensures Inv(Reset(st, minutes, seconds))
    ensures Inv(Tick(st, task))
  {
  }

  /**
   * A start reconfigures only when no time remains; with time remaining it
   * resumes. A zero duration is refused: an error is signalled and the
   * running state is untouched.
   */
  lemma StartResumesOrReconfigures(st: TimerState, minutes: Minutes, seconds: Seconds)
    ensures var r := Start(st, minutes, seconds);
      && (st.remaining > 0 ==> r.remaining == st.remaining && r.total == st.total)
      && (st.remaining == 0 ==> r.remaining == Duration(minutes, seconds) && r.total == Duration(minutes, seconds))
  {
  }

  lemma StartRejectsZero(st: TimerState, minutes: Minutes, seconds: Seconds)
    ensures var r := Start(st, minutes, seconds);
      var refused := st.remaining == 0 && minutes == 0 && seconds == 0;
      && (refused ==> r.isRunning == st.isRunning && r.ticking == st.ticking
                      && r.signals == st.signals + [ZeroDurationError])
      && (!refused ==> r.isRunning && r.ticking && r.signals == st.signals && r.remaining > 0)
  {
  }

  /** A pause stops the countdown and keeps both the remaining and the total time. */
  lemma PauseKeepsTime(st: TimerState)
    ensures var r := Pause(st);
      !r.isRunning && !r.ticking && r.remaining == st.remaining && r.total == st.total
  {
  }

  /** Pausing at `R` and starting again resumes from `R`, whatever the spinners say. */
  lemma PauseThenStartResumes(st: TimerState, minutes: Minutes, seconds: Seconds)
    requires st.remaining > 0
    ensures var r := Start(Pause(st), minutes, seconds);
      r.isRunning && r.remaining == st.remaining && r.total == st.total
  {
  }

  /** A reset stops the countdown, reloads the remaining time from the spinners and never touches the total. */
  lemma ResetKeepsTotal(st: TimerState, minutes: Minutes, seconds: Seconds)
    ensures var r := Reset(st, minutes, seconds);
      && !r.isRunning && !r.ticking
      && r.remaining == Duration(minutes, seconds)
      && r.total == st.total
      && r.display == ClockText(Duration(minutes, seconds))
      && r.progress == 0
      && r.signals == st.signals
  {
  }

  /** `total_time` changes only in a start that finds no time remaining. */
  lemma OnlyStartSetsTotal(st: TimerState, minutes: Minutes, seconds: Seconds, task: string)
    ensures Pause(st).total == st.total
    ensures Reset(st, minutes, seconds).total == st.total
    ensures Tick(st, task).total == st.total
    ensures st.remaining > 0 ==> Start(st, minutes, seconds).total == st.total
  {
  }

  /**
   * A tick while running with time left shows the current value and then
   * counts down by one; any other tick stops the timer and completes it.
   */
  lemma TickEffect(st: TimerState, task: string)
    ensures var r := Tick(st, task);
      if st.remaining > 0 && st.isRunning then
        && r.display == ClockText(st.remaining)
        && r.remaining == st.remaining - 1
        && r.isRunning && r.signals == st.signals && r.total == st.total
      else
        && !r.isRunning && !r.ticking && r.remaining == 0 && r.progress == 100
        && r.display == st.display
        && r.signals == st.signals + [Alarm, CompletionNotice(task)]
  {
  }

  // ---------------------------------------------------------------------
  // A whole countdown

  /** The state after `n` ticks. */
  function Run(st: TimerState, n: nat, task: string): TimerState
  {
    if n == 0 then st else Tick(Run(st, n - 1, task), task)
  }

  /** The texts the display is set to by the first `n` ticks, in order. */
  function Shown(st: TimerState, n: nat, task: string): seq<string>
  {
    if n == 0 then []
    else
      var before := Run(st, n - 1, task);
      Shown(st, n - 1, task) + (if CountsDown(before) then [ClockText(before.remaining)] else [])
  }

  /** One counting-down tick, field by field. */
  lemma CountdownTick(st: TimerState, task: string)
    requires CountsDown(st)
    ensures var r := Tick(st, task);
      && r.isRunning && r.ticking == st.ticking
      && r.remaining == st.remaining - 1
      && r.total == st.total && r.signals == st.signals
      && r.display == ClockText(st.remaining)
      && (st.total == 0 ==> r.progress == st.progress)
  {
  }

  /** The first `n` ticks of a running countdown from `T >= n` count down by one each and signal nothing. */
  lemma {:induction false} RunPrefix(st: TimerState, n: nat, task: string)
    requires st.isRunning && n <= st.remaining
    ensures var r := Run(st, n, task);
      && r.isRunning && r.ticking == st.ticking
      && r.remaining == st.remaining - n
      && r.total == st.total
      && r.signals == st.signals
      && (n > 0 ==> r.display == ClockText(st.remaining - n + 1))
  {
    if n > 0 {
      RunPrefix(st, n - 1, task);
      CountdownTick(Run(st, n - 1, task), task);
    }
  }

  /** ... and show `T, T-1, ..., T-n+1`, one text per tick. */
  lemma ShownPrefix(st: TimerState, n: nat, task: string)
    requires st.isRunning && n <= st.remaining
    ensures |Shown(st, n, task)| == n
    ensures forall i :: 0 <= i < n ==> Shown(st, n, task)[i] == ClockText(st.remaining - i)
  {
    ShownIsCountdown(st, n, task);
    CountdownTexts(st.remaining, n);
  }

  /** The clock texts of `T, T-1, ..., T-n+1`. */
  function Countdown(T: nat, n: nat): seq<string>
    requires n <= T
  {
    if n == 0 then [] else Countdown(T, n - 1) + [ClockText(T - (n - 1))]
  }

  lemma {:induction false} CountdownTexts(T: nat, n: nat)
    requires n <= T
    ensures |Countdown(T, n)| == n
    ensures forall i :: 0 <= i < n ==> Countdown(T, n)[i] == ClockText(T - i)
  {
    if n > 0 {
      CountdownTexts(T, n - 1);
    }
  }

  lemma {:induction false} ShownIsCountdown(st: TimerState, n: nat, task: string)
    requires st.isRunning && n <= st.remaining
    ensures Shown(st, n, task) == Countdown(st.remaining, n)
  {
    if n > 0 {
      ShownIsCountdown(st, n - 1, task);
      RunPrefix(st, n - 1, task);
    }
  }

  /** A countdown from `T` completes on tick `T + 1`. */
  function TicksToComplete(st: TimerState): nat
  {
    st.remaining + 1
  }

  /**
   * An uninterrupted countdown from `T > 0` shows T, T-1, ..., 1, one value
   * per tick, and never "00:00" ...
   */
  lemma RunShowsCountdown(st: TimerState, task: string)
    requires st.isRunning && st.remaining > 0
    ensures var T := st.remaining;
      && |Shown(st, TicksToComplete(st), task)| == T
      && (forall i :: 0 <= i < T ==> Shown(st, TicksToComplete(st), task)[i] == ClockText(T - i))
      && "00:00" !in Shown(st, TicksToComplete(st), task)
  {
    var T := st.remaining;
    RunPrefix(st, T, task);
    ShownPrefix(st, T, task);
    var shown := Shown(st, T + 1, task);
    assert shown == Shown(st, T, task);
    forall i | 0 <= i < T
      ensures shown[i] != "00:00"
    {
      ClockTextZero(T - i);
    }
  }

  /**
   * ... and completes on tick `T + 1`, exactly once: stopped at zero, the
   * gauge at 100, "00:01" still displayed, the alarm and the notice signalled.
   */
  lemma RunCompletes(st: TimerState, task: string)
    requires st.isRunning && st.remaining > 0
    ensures Run(st, st.remaining, task).signals == st.signals
    ensures var done := Run(st, TicksToComplete(st), task);
      && !done.isRunning && !done.ticking && done.remaining == 0 && done.progress == 100
      && done.display == "00:01"
      && done.signals == st.signals + [Alarm, CompletionNotice(task)]
  {
    var T := st.remaining;
    var last := Run(st, T, task);
    RunPrefix(st, T, task);
    assert !CountsDown(last);
    assert Run(st, T + 1, task) == Complete(last.(ticking := false), task);
    assert last.display == ClockText(1);
    assert Decimal.NatToString(0) == "0" && Decimal.NatToString(1) == "1";
    assert ClockText(1) == "00:01";
  }

  /**
   * Because a reset leaves `total_time` alone and a later start resumes
   * rather than reconfigures, a reset to a longer duration followed by a
   * start drives the gauge below zero: from 1:00 reset to 2:00, the first
   * tick computes -100.
   */
  lemma ResetThenStartUsesStaleTotal()
    ensures var configured := Start(Initial(), 1, 0);
      var resumed := Start(Reset(configured, 2, 0), 2, 0);
      && resumed.total == 60 && resumed.remaining == 120
      && Tick(resumed, "Focus Time").progress == -100
  {
  }

  /** A reset before the first start leaves the total at 0, so the gauge then never moves while counting down. */
  lemma ResetBeforeFirstStartFreezesGauge(minutes: Minutes, seconds: Seconds, task: string, n: nat)
    requires Duration(minutes, seconds) > 0 && n <= Duration(minutes, seconds)
    ensures var st := Start(Reset(Initial(), minutes, seconds), minutes, seconds);
      st.total == 0 && Run(st, n, task).progress == 0
  {
    var st := Start(Reset(Initial(), minutes, seconds), minutes, seconds);
    FrozenGauge(st, n, task);
  }

  lemma {:induction false} FrozenGauge(st: TimerState, n: nat, task: string)
    requires st.total == 0 && st.isRunning && n <= st.remaining
    ensures Run(st, n, task).progress == st.progress
  {
    if n > 0 {
      FrozenGauge(st, n - 1, task);
      RunPrefix(st, n - 1, task);
      CountdownTick(Run(st, n - 1, task), task);
    }
  }

  // ---------------------------------------------------------------------
  // The panel object

  class TimerPanel {
    var isRunning: bool
    var remainingTime: nat
    var totalTime: nat
    var ticking: bool
    var display: string
    var progress: int
    var startLabel: string
    var signals: seq<Signal>

    function State(): TimerState
      reads this
    {
      TimerState(isRunning, remainingTime, totalTime, ticking, display, progress, startLabel, signals)
    }

    ghost predicate Valid()
      reads this
    {
      Inv(State())
    }

    constructor ()
      ensures Valid() && State() == Initial()
    {
      isRunning, remainingTime, totalTime, ticking := false, 0, 0, false;
      display, progress, startLabel, signals := "25:00", 0, StartLabel, [];
    }

    method OnStart(minutes: Minutes, seconds: Seconds)
      requires Valid()
      modifies this
      ensures Valid() && State() == Start(old(State()), minutes, seconds)
    {
      if remainingTime <= 0 {
        remainingTime := minutes * 60 + seconds;
        totalTime := remainingTime;
        progress := 0;
      }
      ghost var c := State();
      assert c == if old(remainingTime) <= 0
        then old(State()).(remaining := Duration(minutes, seconds), total := Duration(minutes, seconds), progress := 0)
        else old(State());
      if remainingTime == 0 {
        signals := signals + [ZeroDurationError];
        return;
      }
      isRunning := true;
      startLabel := ResumeLabel;
      ticking := true;
    }

    method OnPause()
      requires Valid()
      modifies this
      ensures Valid() && State() == Pause(old(State()))
    {
      isRunning := false;
      ticking := false;
    }

    method OnReset(minutes: Minutes, seconds: Seconds)
      requires Valid()
      modifies this
      ensures Valid() && State() == Reset(old(State()), minutes, seconds)
    {
      isRunning := false;
      ticking := false;
      remainingTime := minutes * 60 + seconds;
      UpdateDisplay(remainingTime);
      startLabel := StartLabel;
      progress := 0;
    }

    method RunTimer(task: string)
      requires Valid()
      modifies this
      ensures Valid() && State() == Tick(old(State()), task)
    {
      if remainingTime > 0 && isRunning {
        UpdateDisplay(remainingTime);
        remainingTime := remainingTime - 1;
      } else {
        ticking := false;
        TimerComplete(task);
      }
    }

    method UpdateDisplay(seconds: nat)
      modifies this
      ensures State() == ShowTime(old(State()), seconds)
    {
      display := Decimal.TwoDigits(seconds / 60) + ":" + Decimal.TwoDigits(seconds % 60);
      if totalTime > 0 {
        progress := TruncDiv((totalTime - seconds) * 100, totalTime);
      }
    }

    method TimerComplete(task: string)
      modifies this
      ensures State() == Complete(old(State()), task)
    {
      isRunning := false;
      remainingTime := 0;
      startLabel := StartLabel;
      progress := 100;
      signals := signals + [Alarm, CompletionNotice(task)];
    }
  }
}
