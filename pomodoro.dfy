/**
 * The Pomodoro timer: a countdown in seconds through work sessions and
 * breaks. One tick of the one-second interval decrements the countdown;
 * the effect that watches the countdown completes the session when it
 * reaches zero, counting work sessions and choosing a long break after
 * every fourth one.
 */
module Pomodoro {

  datatype Mode = Work | ShortBreak | LongBreak

  /** The length of each mode, in seconds. */
  function Duration(m: Mode): (r: nat)
    ensures r > 0
  {
    match m
    case Work => 25 * 60
    case ShortBreak => 5 * 60
    case LongBreak => 15 * 60
  }

  /** Every fourth completed work session earns a long break. */
  const SessionsPerLongBreak: nat := 4

  datatype TimerState = TimerState(timeLeft: int, isActive: bool, mode: Mode, sessions: nat)

  /** The countdown never goes below zero nor above the current mode's length. */
  ghost predicate Valid(s: TimerState)
  {
    0 <= s.timeLeft <= Duration(s.mode)
  }

  /** The state the component mounts with. */
  function Initial(): TimerState
  {
    TimerState(Duration(Work), false, Work, 0)
  }

  /** One firing of the one-second interval, which runs only while active with time left. */
  function Ticked(s: TimerState): TimerState
  {
    if s.isActive && s.timeLeft > 0 then s.(timeLeft := s.timeLeft - 1) else s
  }

  /** Completing a session: stop, count a finished work session and move to the next mode at its full length. */
  function Completed(s: TimerState): TimerState
  {
    if s.mode == Work then
      var sessions := s.sessions + 1;
      var next := if sessions % SessionsPerLongBreak == 0 then LongBreak else ShortBreak;
      TimerState(Duration(next), false, next, sessions)
    else
      TimerState(Duration(Work), false, Work, s.sessions)
  }

  /** The effect run after every change of countdown or activity: a countdown at zero completes the session. */
  function Settled(s: TimerState): TimerState
  {
    if s.isActive && s.timeLeft > 0 then s
    else if s.timeLeft == 0 then Completed(s)
    else s
  }

  function Toggled(s: TimerState): TimerState
  {
    s.(isActive := !s.isActive)
  }

  function Reset(s: TimerState): TimerState
  {
    s.(isActive := false, timeLeft := Duration(s.mode))
  }

  function Switched(s: TimerState, m: Mode): TimerState
  {
    s.(mode := m, timeLeft := Duration(m), isActive := false)
  }

  /** One second of wall time: the interval fires, then the effect reacts to the new countdown. */
  function Step(s: TimerState): TimerState
  {
    Settled(Ticked(s))
  }

  /** `n` seconds of wall time. */
  function Run(s: TimerState, n: nat): TimerState
    decreases n
  {
    if n == 0 then s else Run(Step(s), n - 1)
  }

  /** The mount state: a stopped 25-minute work session with no sessions counted. */
  lemma InitialState()
    ensures Valid(Initial())
    ensures Initial().mode == Work && Initial().timeLeft == 1500
    ensures !Initial().isActive && Initial().sessions == 0
    ensures Duration(Work) == 1500 && Duration(ShortBreak) == 300 && Duration(LongBreak) == 900
  {
  }

  /** A tick changes the state exactly when the timer is active with time left, and then only lowers the countdown by one. */
  lemma TickChanges(s: TimerState)
    ensures Ticked(s) != s <==> s.isActive && s.timeLeft > 0
    ensures Ticked(s) != s ==> Ticked(s) == s.(timeLeft := s.timeLeft - 1)
  {
  }

  /** Every operation keeps the countdown within the current mode's length. */
  lemma ValidPreserved(s: TimerState, m: Mode)
    requires Valid(s)
    ensures Valid(Ticked(s)) && Valid(Settled(s)) && Valid(Completed(s)) && Valid(Step(s))
    ensures Valid(Toggled(s)) && Valid(Reset(s)) && Valid(Switched(s, m))
  {
  }

  /** Once the effect has run, a valid countdown is positive: zero is only ever a passing state. */
  lemma SettledIsPositive(s: TimerState)
    requires Valid(s)
    ensures Settled(s).timeLeft > 0
  {
  }

  /** Completion always stops the timer. */
  lemma CompleteStops(s: TimerState)
    ensures !Completed(s).isActive
    ensures Completed(s).timeLeft == Duration(Completed(s).mode)
  {
  }

  /** A finished work session is counted, and leads to a long break exactly when the new count is a multiple of four. */
  lemma CompleteWork(s: TimerState)
    requires s.mode == Work
    ensures Completed(s).sessions == s.sessions + 1
    ensures Completed(s).mode == LongBreak <==> (s.sessions + 1) % 4 == 0
    ensures Completed(s).mode == ShortBreak <==> (s.sessions + 1) % 4 != 0
  {
  }

  /** A finished break returns to a full work session and counts nothing. */
  lemma CompleteBreak(s: TimerState)
    requires s.mode != Work
    ensures Completed(s) == TimerState(1500, false, Work, s.sessions)
  {
  }

  /** Reset stops and refills the countdown, keeping mode and sessions; switching does the same for the new mode. */
  lemma ResetAndSwitch(s: TimerState, m: Mode)
    ensures Reset(s) == Switched(s, s.mode)
    ensures Switched(s, m).mode == m && Switched(s, m).timeLeft == Duration(m)
    ensures !Switched(s, m).isActive && Switched(s, m).sessions == s.sessions
  {
  }

  /** Toggling flips activity alone, whatever the countdown, and is its own inverse. */
  lemma ToggleOnlyFlips(s: TimerState)
    ensures Toggled(s).isActive != s.isActive
    ensures Toggled(s).(isActive := s.isActive) == s
    ensures Toggled(Toggled(s)) == s
  {
  }

  /** A stopped timer stays put however much time passes. */
  lemma {:induction false} StoppedStaysPut(s: TimerState, n: nat)
    requires !s.isActive && s.timeLeft > 0
    ensures Run(s, n) == s
    decreases n
  {
    if n > 0 {
      StoppedStaysPut(Step(s), n - 1);
    }
  }

  /** While time is left, a running timer only counts down. */
  lemma {:induction false} RunCountsDown(s: TimerState, n: nat)
    requires s.isActive && n < s.timeLeft
    ensures Run(s, n) == s.(timeLeft := s.timeLeft - n)
    decreases n
  {
    if n > 0 {
      assert Step(s) == s.(timeLeft := s.timeLeft - 1);
      RunCountsDown(Step(s), n - 1);
    }
  }

  /**
   * Started with `t` seconds left, the timer completes the session after
   * exactly `t` seconds and then waits, stopped, at the next mode's full length.
   */
  lemma RunToCompletion(s: TimerState, extra: nat)
    requires s.isActive && s.timeLeft > 0
    ensures Run(s, s.timeLeft) == Completed(s)
    ensures Run(s, s.timeLeft + extra) == Completed(s)
  {
    var t := s.timeLeft;
    RunCountsDown(s, t - 1);
    var last := s.(timeLeft := 1);
    RunSplit(s, t - 1, 1);
    assert Run(last, 1) == Step(last);
    assert Step(last) == Completed(s);
    RunSplit(s, t, extra);
    StoppedStaysPut(Completed(s), extra);
  }

  /** Running `a` then `b` seconds is running `a + b` seconds. */
  lemma {:induction false} RunSplit(s: TimerState, a: nat, b: nat)
    ensures Run(s, a + b) == Run(Run(s, a), b)
    decreases a
  {
    if a > 0 {
      RunSplit(Step(s), a - 1, b);
    }
  }

  /** A full work session run to its end counts one session and starts no break by itself. */
  lemma WorkSessionEnds(s: TimerState)
    requires s.mode == Work && s.isActive && s.timeLeft > 0
    ensures Run(s, s.timeLeft).sessions == s.sessions + 1
    ensures Run(s, s.timeLeft).mode != Work && !Run(s, s.timeLeft).isActive
  {
    RunToCompletion(s, 0);
  }

  /** The timer component: its four pieces of state, updated in place by each handler. */
  class Timer {
    var timeLeft: int
    var isActive: bool
    var mode: Mode
    var sessions: nat

    function State(): TimerState
      reads this
    {
      TimerState(timeLeft, isActive, mode, sessions)
    }

    ghost predicate Invariant()
      reads this
    {
      Valid(State())
    }

    constructor ()
      ensures State() == Initial() && Invariant()
    {
      timeLeft := 25 * 60;
      isActive := false;
      mode := Work;
      sessions := 0;
    }

    /** One firing of the interval. */
    method Tick()
      requires Invariant()
      modifies this
      ensures Invariant() && State() == Ticked(old(State()))
    {
      if isActive && timeLeft > 0 {
        timeLeft := timeLeft - 1;
      }
    }

    /** The effect body: complete the session once the countdown has reached zero. */
    method Settle()
      requires Invariant()
      modifies this
      ensures Invariant() && timeLeft > 0 && State() == Settled(old(State()))
    {
      if isActive && timeLeft > 0 {
      } else if timeLeft == 0 {
        HandleTimerComplete();
      }
    }

    method HandleTimerComplete()
      modifies this
      ensures Invariant() && State() == Completed(old(State()))
    {
      isActive := false;
      if mode == Work {
        var newSessions := sessions + 1;
        sessions := newSessions;
        if newSessions % 4 == 0 {
          mode := LongBreak;
          timeLeft := Duration(LongBreak);
        } else {
          mode := ShortBreak;
          timeLeft := Duration(ShortBreak);
        }
      } else {
        mode := Work;
        timeLeft := Duration(Work);
      }
    }

    method ToggleTimer()
      requires Invariant()
      modifies this
      ensures Invariant() && State() == Toggled(old(State()))
    {
      isActive := !isActive;
    }

    method ResetTimer()
      modifies this
      ensures Invariant() && State() == Reset(old(State()))
    {
      isActive := false;
      timeLeft := Duration(mode);
    }

    method SwitchMode(newMode: Mode)
      modifies this
      ensures Invariant() && State() == Switched(old(State()), newMode)
    {
      mode := newMode;
      timeLeft := Duration(newMode);
      isActive := false;
    }
  }

  /** Every character is a decimal digit. */
  predicate AllDigits(s: string)
  {
    forall i :: 0 <= i < |s| ==> '0' <= s[i] <= '9'
  }

  /** A number's decimal digits, as `Number.prototype.toString` writes a non-negative integer. */
  function Digits(n: nat): (r: string)
    ensures |r| >= 1 && AllDigits(r)
  {
    if n < 10 then [DigitChar(n)] else Digits(n / 10) + [DigitChar(n % 10)]
  }

  function DigitChar(d: nat): (c: char)
    requires d < 10
    ensures '0' <= c <= '9' && c as int - '0' as int == d
  {
    ('0' as int + d) as char
  }

  /** The number a string of decimal digits denotes, read left to right. */
  function Value(s: string): nat
    requires AllDigits(s)
  {
    if s == [] then 0 else Value(s[..|s| - 1]) * 10 + (s[|s| - 1] as int - '0' as int)
  }

  /** `padStart(width, c)`: prefix copies of `c` until the string is `width` long. */
  function PadStart(s: string, width: nat, c: char): (r: string)
    ensures |r| == if |s| >= width then |s| else width
    ensures r[|r| - |s|..] == s
    ensures forall i :: 0 <= i < |r| - |s| ==> r[i] == c
  {
    if |s| >= width then s else seq(width - |s|, _ => c) + s
  }

  /** `mm:ss`, each part padded with zeros to two digits. */
  function FormatTime(seconds: nat): string
  {
    TwoDigits(seconds / 60) + ":" + TwoDigits(seconds % 60)
  }

  /** A number in decimal, padded with zeros to at least two digits; it reads back as the number. */
  function TwoDigits(n: nat): (p: string)
    ensures |p| >= 2 && AllDigits(p) && Value(p) == n
    ensures n < 100 ==> |p| == 2
  {
    PaddedValue(n);
    PadStart(Digits(n), 2, '0')
  }

  /** Reading back the digits of a number gives the number. */
  lemma {:induction false} ValueOfDigits(n: nat)
    ensures Value(Digits(n)) == n
  {
    if n >= 10 {
      var d := Digits(n / 10) + [DigitChar(n % 10)];
      assert d[..|d| - 1] == Digits(n / 10);
      ValueOfDigits(n / 10);
    }
  }

  /** Leading zeros do not change the value of a digit string. */
  lemma {:induction false} ValueOfLeadingZeros(z: nat, s: string)
    requires AllDigits(s)
    ensures Value(seq(z, _ => '0') + s) == Value(s)
  {
    if s == [] {
      ValueOfZeros(z);
      assert seq(z, _ => '0') + s == seq(z, _ => '0');
    } else {
      var t := seq(z, _ => '0') + s;
      assert t[..|t| - 1] == seq(z, _ => '0') + s[..|s| - 1];
      ValueOfLeadingZeros(z, s[..|s| - 1]);
    }
  }

  lemma {:induction false} ValueOfZeros(z: nat)
    ensures Value(seq(z, _ => '0')) == 0
  {
    if z > 0 {
      assert seq(z, _ => '0')[..z - 1] == seq(z - 1, _ => '0');
      ValueOfZeros(z - 1);
    }
  }

  /** A zero-padded number is a digit string of at least two characters that reads back as the number. */
  lemma PaddedValue(n: nat)
    ensures var p := PadStart(Digits(n), 2, '0');
      |p| >= 2 && AllDigits(p) && Value(p) == n
    ensures n < 100 ==> |PadStart(Digits(n), 2, '0')| == 2
  {
    ValueOfDigits(n);
    var d := Digits(n);
    if |d| < 2 {
      ValueOfLeadingZeros(2 - |d|, d);
    }
    if n < 100 {
      DigitsBelowHundred(n);
    }
  }

  /** A number below 100 has at most two digits. */
  lemma DigitsBelowHundred(n: nat)
    requires n < 100
    ensures |Digits(n)| <= 2
  {
  }

  /** Joining two digit strings with a colon: the colon sits three from the end when the right part has two digits. */
  lemma JoinedAtColon(a: string, b: string)
    requires |b| == 2
    ensures var r := a + ":" + b;
      |r| - 3 == |a| && r[|a|] == ':' && r[..|a|] == a && r[|a| + 1..] == b
  {
    var r := a + ":" + b;
    assert r[..|a|] == a;
    assert r[|a| + 1..] == b;
  }

  /** `r` is digits reading as `minutes`, a colon, and two digits reading as `secs`. */
  predicate ShowsMinutesSeconds(r: string, minutes: nat, secs: nat)
  {
    |r| >= 5 && r[|r| - 3] == ':' && AllDigits(r[..|r| - 3]) && AllDigits(r[|r| - 2..]) &&
    Value(r[..|r| - 3]) == minutes && Value(r[|r| - 2..]) == secs
  }

  /**
   * The display reads back as the seconds it shows: whole minutes, a colon
   * and the two-digit remainder of seconds; below 100 minutes it is exactly
   * five characters.
   */
  lemma FormatTimeRoundTrip(seconds: nat)
    ensures ShowsMinutesSeconds(FormatTime(seconds), seconds / 60, seconds % 60)
    ensures seconds < 6000 ==> |FormatTime(seconds)| == 5
  {
    var minutes, secs := seconds / 60, seconds % 60;
    var a, b := TwoDigits(minutes), TwoDigits(secs);
    assert FormatTime(seconds) == a + ":" + b;
    ShowsJoined(a, b, minutes, secs);
  }

  /** Two zero-padded parts joined at a colon show the numbers they read as. */
  lemma ShowsJoined(a: string, b: string, minutes: nat, secs: nat)
    requires |a| >= 2 && AllDigits(a) && Value(a) == minutes
    requires |b| == 2 && AllDigits(b) && Value(b) == secs
    ensures ShowsMinutesSeconds(a + ":" + b, minutes, secs)
  {
    JoinedAtColon(a, b);
  }
}
