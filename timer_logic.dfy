/**
 * The Pomodoro countdown as a state machine over values: the state of a
 * `PomodoroTimer` object (three durations in seconds, the remaining time,
 * the running and on-break flags, the cycle counter) and one function per
 * handler that gives the state after it. The class in module Pomodoro
 * updates its fields in place and is proved to agree with these functions;
 * the lemmas here say what the handlers do, alone and in sequence.
 */
module TimerLogic {
  import opened Options

  /** The three phases, named after the notice a transition shows. */
  datatype Phase = PomodoroSession | ShortBreak | LongBreak

  datatype TimerState = TimerState(
    pomodoroTime: int,
    shortBreakTime: int,
    longBreakTime: int,
    currentTime: int,
    running: bool,
    onBreak: bool,
    cycle: nat)

  /** The state the constructor sets up: 25, 5 and 15 minutes, idle at the first pomodoro. */
  function Initial(): TimerState {
    TimerState(25 * 60, 5 * 60, 15 * 60, 25 * 60, false, false, 0)
  }

  function Duration(s: TimerState, ph: Phase): int {
    match ph
    case PomodoroSession => s.pomodoroTime
    case ShortBreak => s.shortBreakTime
    case LongBreak => s.longBreakTime
  }

  /** The phase a transition announces, from the flags it has just updated: the cycle test wins. */
  function Announced(s: TimerState): Phase {
    if s.cycle % 4 == 0 then LongBreak
    else if s.onBreak then ShortBreak
    else PomodoroSession
  }

  /** The phase whose duration a start loads: here the on-break flag is tested first. */
  function StartPhase(s: TimerState): Phase {
    if !s.onBreak then PomodoroSession
    else if s.cycle % 4 != 0 then ShortBreak
    else LongBreak
  }

  /** The `else` branch of a tick: stop, flip the break flag, count the cycle, load the next phase. */
  function Transition(s: TimerState): TimerState {
    var t := s.(running := false, onBreak := !s.onBreak, cycle := s.cycle + 1);
    t.(currentTime := Duration(t, Announced(t)))
  }

  /** `update_timer`: one tick of the countdown. */
  function Tick(s: TimerState): TimerState {
    if !s.running then s
    else if s.currentTime > 0 then s.(currentTime := s.currentTime - 1)
    else Transition(s)
  }

  /** The message box a tick shows, if any. */
  function TickNotice(s: TimerState): Option<Phase> {
    if s.running && s.currentTime <= 0 then Some(Announced(Transition(s))) else None
  }

  /** The first three lines of `start_timer`: durations read in minutes, kept in seconds. */
  function Configure(s: TimerState, pomodoroMinutes: int, shortMinutes: int, longMinutes: int): TimerState {
    s.(pomodoroTime := pomodoroMinutes * 60,
       shortBreakTime := shortMinutes * 60,
       longBreakTime := longMinutes * 60)
  }

  /** What `start_timer` does to an idle timer before it calls `update_timer`. */
  function Load(s: TimerState): TimerState {
    s.(running := true, currentTime := Duration(s, StartPhase(s)))
  }

  /** `start_timer`: reconfigure; when idle, load the phase and tick once straight away. */
  function Start(s: TimerState, pomodoroMinutes: int, shortMinutes: int, longMinutes: int): TimerState {
    var c := Configure(s, pomodoroMinutes, shortMinutes, longMinutes);
    if c.running then c else Tick(Load(c))
  }

  /** The message box `start_timer` shows through its call of `update_timer`, if any. */
  function StartNotice(s: TimerState, pomodoroMinutes: int, shortMinutes: int, longMinutes: int): Option<Phase> {
    var c := Configure(s, pomodoroMinutes, shortMinutes, longMinutes);
    if c.running then None else TickNotice(Load(c))
  }

  /** `pause_timer`. */
  function Pause(s: TimerState): TimerState {
    s.(running := false)
  }

  /** `reset_timer`. */
  function Reset(s: TimerState): TimerState {
    s.(running := false, currentTime := s.pomodoroTime, onBreak := false)
  }

  /** `n` ticks in a row, as the toolkit's event loop delivers them once a second. */
  function Ticks(s: TimerState, n: nat): TimerState
    decreases n
  {
    if n == 0 then s else Ticks(Tick(s), n - 1)
  }

  /** Ticks until the countdown has stopped itself (an idle timer ticks once, to no effect). */
  function Finish(s: TimerState): TimerState
    decreases if s.running && s.currentTime > 0 then s.currentTime else 0
  {
    if s.running && s.currentTime > 0 then Finish(Tick(s)) else Tick(s)
  }

  /** One full phase: press start on an idle timer and let the countdown run out. */
  function Session(s: TimerState, pomodoroMinutes: int, shortMinutes: int, longMinutes: int): TimerState {
    Finish(Start(s, pomodoroMinutes, shortMinutes, longMinutes))
  }

  /** `k` sessions in a row with the same settings. */
  function Sessions(s: TimerState, k: nat, pomodoroMinutes: int, shortMinutes: int, longMinutes: int): TimerState {
    if k == 0 then s
    else Session(Sessions(s, k - 1, pomodoroMinutes, shortMinutes, longMinutes), pomodoroMinutes, shortMinutes, longMinutes)
  }

  /** Durations and remaining time are never negative. */
  predicate NonNegative(s: TimerState) {
    s.pomodoroTime >= 0 && s.shortBreakTime >= 0 && s.longBreakTime >= 0 && s.currentTime >= 0
  }

  /** The break flag is on exactly after an odd number of cycles; `reset_timer` can break this. */
  predicate Alternating(s: TimerState) {
    s.onBreak == (s.cycle % 2 == 1)
  }

  // ---------------------------------------------------------------------
  // One tick

  /** An idle timer ignores the tick. */
  lemma TickIdle(s: TimerState)
    requires !s.running
    ensures Tick(s) == s && TickNotice(s) == None
  {
  }

  /** A running timer with time left counts down by exactly one second and changes nothing else. */
  lemma TickCountsDown(s: TimerState)
    requires s.running && s.currentTime > 0
    ensures Tick(s) == s.(currentTime := s.currentTime - 1) && TickNotice(s) == None
  {
  }

  /**
   * The transition fires on the tick after the count has reached zero: the
   * timer stops, the break flag flips, the cycle is counted, and the next
   * duration is the long break on every fourth cycle, else the short break
   * when now on a break, else the pomodoro; the notice names that phase.
   */
  lemma TickTransition(s: TimerState)
    requires s.running && s.currentTime <= 0
    ensures var t := Tick(s);
      !t.running && t.onBreak == !s.onBreak && t.cycle == s.cycle + 1 &&
      t.pomodoroTime == s.pomodoroTime && t.shortBreakTime == s.shortBreakTime &&
      t.longBreakTime == s.longBreakTime &&
      t.currentTime == (if t.cycle % 4 == 0 then s.longBreakTime
                        else if t.onBreak then s.shortBreakTime
                        else s.pomodoroTime) &&
      TickNotice(s) == Some(if t.cycle % 4 == 0 then LongBreak
                            else if t.onBreak then ShortBreak
                            else PomodoroSession)
  {
  }

  /** The long-break rule takes precedence: on a fourth cycle it wins over the break flag. */
  lemma LongBreakPrecedence(s: TimerState)
    requires s.running && s.currentTime <= 0 && (s.cycle + 1) % 4 == 0
    ensures Tick(s).currentTime == s.longBreakTime && TickNotice(s) == Some(LongBreak)
  {
  }

  /** With non-negative durations the remaining time never goes below zero. */
  lemma TickNonNegative(s: TimerState)
    requires NonNegative(s)
    ensures NonNegative(Tick(s))
  {
  }

  // ---------------------------------------------------------------------
  // Start, pause, reset

  /** Start always takes the new durations; on an idle timer it loads the start phase and ticks once. */
  lemma StartEffect(s: TimerState, p: int, sb: int, l: int)
    ensures var t := Start(s, p, sb, l);
      t.pomodoroTime == p * 60 && t.shortBreakTime == sb * 60 && t.longBreakTime == l * 60
    ensures s.running ==> Start(s, p, sb, l) == Configure(s, p, sb, l) && StartNotice(s, p, sb, l) == None
    ensures !s.running ==>
      var c := Configure(s, p, sb, l);
      Start(s, p, sb, l) == Tick(c.(running := true, currentTime :=
        if !s.onBreak then p * 60 else if s.cycle % 4 != 0 then sb * 60 else l * 60))
  {
  }

  /** A start from idle with a positive duration leaves the timer running, one second into the phase. */
  lemma StartFromIdle(s: TimerState, p: int, sb: int, l: int)
    requires !s.running
    requires Duration(Configure(s, p, sb, l), StartPhase(s)) > 0
    ensures var t := Start(s, p, sb, l);
      t.running && t.cycle == s.cycle && t.onBreak == s.onBreak &&
      t.currentTime == Duration(Configure(s, p, sb, l), StartPhase(s)) - 1 &&
      StartNotice(s, p, sb, l) == None
  {
  }

  lemma StartNonNegative(s: TimerState, p: int, sb: int, l: int)
    requires NonNegative(s) && p >= 0 && sb >= 0 && l >= 0
    ensures NonNegative(Start(s, p, sb, l))
  {
  }

  /**
   * Pausing and starting again does not resume: the result does not depend
   * on how much time was left when the timer was paused.
   */
  lemma PauseThenStartRestarts(s: TimerState, left: int, p: int, sb: int, l: int)
    ensures Start(Pause(s), p, sb, l) == Start(Pause(s.(currentTime := left)), p, sb, l)
  {
  }

  /** Pause only stops the countdown. */
  lemma PauseEffect(s: TimerState)
    ensures var t := Pause(s);
      !t.running && t == s.(running := false)
  {
  }

  /** Reset stops, reloads the pomodoro and clears the break flag; cycle and durations stay. */
  lemma ResetEffect(s: TimerState)
    ensures var t := Reset(s);
      !t.running && !t.onBreak && t.currentTime == s.pomodoroTime && t.cycle == s.cycle &&
      t.pomodoroTime == s.pomodoroTime && t.shortBreakTime == s.shortBreakTime &&
      t.longBreakTime == s.longBreakTime
  {
  }

  lemma PauseResetNonNegative(s: TimerState)
    requires NonNegative(s)
    ensures NonNegative(Pause(s)) && NonNegative(Reset(s))
  {
  }

  /**
   * The phase a start loads agrees with the one the last transition
   * announced, except when a long break was announced with the break flag
   * off, where the start loads a pomodoro instead.
   */
  lemma StartAgreesWithAnnouncement(s: TimerState)
    ensures StartPhase(s) == Announced(s) <==> !(s.cycle % 4 == 0 && !s.onBreak)
  {
  }

  // ---------------------------------------------------------------------
  // Sequences of ticks

  lemma {:induction false} TicksAdd(s: TimerState, a: nat, b: nat)
    ensures Ticks(s, a + b) == Ticks(Ticks(s, a), b)
    decreases a
  {
    if a > 0 {
      TicksAdd(Tick(s), a - 1, b);
    }
  }

  /** An idle timer stays as it is however many ticks arrive. */
  lemma {:induction false} TicksIdle(s: TimerState, n: nat)
    requires !s.running
    ensures Ticks(s, n) == s
    decreases n
  {
    if n > 0 {
      TicksIdle(Tick(s), n - 1);
    }
  }

  /** While time is left, `n` ticks take exactly `n` seconds off and change nothing else. */
  lemma {:induction false} Countdown(s: TimerState, n: nat)
    requires s.running && n <= s.currentTime
    ensures Ticks(s, n) == s.(currentTime := s.currentTime - n)
    decreases n
  {
    if n > 0 {
      Countdown(Tick(s), n - 1);
    }
  }

  /** The transition depends on everything but the remaining time. */
  lemma TransitionIgnoresTime(s: TimerState, left: int)
    ensures Transition(s.(currentTime := left)) == Transition(s)
  {
  }

  /**
   * From a running state with `r >= 0` seconds left: after `r` ticks the
   * count is zero and still running in the same cycle, the next tick makes
   * the one transition, and every later tick does nothing.
   */
  lemma ExactlyOneTransition(s: TimerState, k: nat)
    requires s.running && s.currentTime >= 0
    ensures var z := Ticks(s, s.currentTime);
      z.running && z.currentTime == 0 && z.cycle == s.cycle && z.onBreak == s.onBreak
    ensures Ticks(s, s.currentTime + 1) == Transition(s)
    ensures Ticks(s, s.currentTime + 1 + k) == Transition(s)
  {
    Countdown(s, s.currentTime);
    var z := Ticks(s, s.currentTime);
    TicksAdd(s, s.currentTime, 1);
    assert Ticks(z, 1) == Tick(z);
    TransitionIgnoresTime(s, 0);
    TicksAdd(s, s.currentTime + 1, k);
    TicksIdle(Transition(s), k);
  }

  /** Running the countdown out ends in the transition of the state it started from. */
  lemma {:induction false} FinishIsTransition(s: TimerState)
    requires s.running
    ensures Finish(s) == Transition(s)
    decreases if s.currentTime > 0 then s.currentTime else 0
  {
    if s.currentTime > 0 {
      FinishIsTransition(Tick(s));
      TransitionIgnoresTime(s, s.currentTime - 1);
    }
  }

  /** `Finish` is the tick sequence of `ExactlyOneTransition`. */
  lemma FinishIsTicks(s: TimerState)
    requires s.running && s.currentTime >= 0
    ensures Finish(s) == Ticks(s, s.currentTime + 1)
  {
    FinishIsTransition(s);
    ExactlyOneTransition(s, 0);
  }

  // ---------------------------------------------------------------------
  // Sessions

  /** A session from idle ends in the transition of the freshly loaded state, whatever the durations. */
  lemma SessionIsTransition(s: TimerState, p: int, sb: int, l: int)
    requires !s.running
    ensures Session(s, p, sb, l) == Transition(Load(Configure(s, p, sb, l)))
  {
    var ld := Load(Configure(s, p, sb, l));
    if ld.currentTime > 0 {
      FinishIsTransition(Tick(ld));
      TransitionIgnoresTime(ld, ld.currentTime - 1);
    }
  }

  /** What a session from idle leaves behind. */
  lemma SessionEffect(s: TimerState, p: int, sb: int, l: int)
    requires !s.running
    ensures var t := Session(s, p, sb, l);
      !t.running && t.cycle == s.cycle + 1 && t.onBreak == !s.onBreak &&
      t.pomodoroTime == p * 60 && t.shortBreakTime == sb * 60 && t.longBreakTime == l * 60 &&
      t.currentTime == Duration(t, Announced(t))
  {
    SessionIsTransition(s, p, sb, l);
  }

  /** A transition flips the flag and counts one more cycle, so it keeps them in step. */
  lemma TransitionAlternating(s: TimerState)
    requires Alternating(s)
    ensures Alternating(Transition(s))
  {
    assert (s.cycle + 1) % 2 == 1 - s.cycle % 2;
  }

  /** Ticks, starts, pauses and whole sessions keep the break flag in step with the parity of the cycle. */
  lemma AlternatingPreserved(s: TimerState, p: int, sb: int, l: int)
    requires Alternating(s)
    ensures Alternating(Tick(s)) && Alternating(Pause(s))
    ensures Alternating(Start(s, p, sb, l)) && Alternating(Session(s, p, sb, l))
  {
    TransitionAlternating(s);
    var c := Configure(s, p, sb, l);
    TransitionAlternating(Load(c));
    if s.running {
      FinishIsTransition(c);
      TransitionAlternating(c);
    } else {
      SessionIsTransition(s, p, sb, l);
    }
  }

  /** While the flag keeps in step, a start never loads the long break. */
  lemma StartNeverLoadsLongBreak(s: TimerState)
    requires Alternating(s)
    ensures StartPhase(s) != LongBreak
  {
  }

  /** `reset_timer` can break the alternation, and then a start does load the long break. */
  lemma ResetThenLongBreak(p: int, sb: int, l: int)
    ensures var s := Reset(TimerState(p * 60, sb * 60, l * 60, 0, false, true, 3));
      var t := Session(s, p, sb, l);
      !Alternating(s) && t.cycle == 4 && t.onBreak && StartPhase(t) == LongBreak &&
      Start(t, p, sb, l) == Tick(t.(running := true, currentTime := l * 60))
  {
    var s := Reset(TimerState(p * 60, sb * 60, l * 60, 0, false, true, 3));
    SessionIsTransition(s, p, sb, l);
  }

  /** After `k` sessions from the initial state the timer is idle at cycle `k`, on a break for odd `k`. */
  lemma {:induction false} SessionsCount(k: nat, p: int, sb: int, l: int)
    ensures var t := Sessions(Initial(), k, p, sb, l);
      !t.running && t.cycle == k && t.onBreak == (k % 2 == 1)
  {
    if k > 0 {
      SessionsCount(k - 1, p, sb, l);
      SessionEffect(Sessions(Initial(), k - 1, p, sb, l), p, sb, l);
      assert k % 2 == 1 <==> (k - 1) % 2 != 1;
    }
  }

  /**
   * Sessions from the initial state: after `k` of them the cycle is `k`,
   * the break flag is on for odd `k`, and the phase announced is the long
   * break for every fourth `k`, the short break for odd `k`, else the pomodoro.
   */
  lemma SessionsFromInitial(k: nat, p: int, sb: int, l: int)
    ensures var t := Sessions(Initial(), k, p, sb, l);
      !t.running && t.cycle == k && t.onBreak == (k % 2 == 1) &&
      Announced(t) == (if k % 4 == 0 then LongBreak
                       else if k % 2 == 1 then ShortBreak
                       else PomodoroSession) &&
      StartPhase(t) != LongBreak
  {
    SessionsCount(k, p, sb, l);
    assert k % 4 == 0 ==> k % 2 == 0;
  }

  /**
   * The first five sessions from the initial state: pomodoro, short break,
   * pomodoro, short break, pomodoro. The fourth ends announcing and loading
   * the long break, yet the fifth start runs a pomodoro in its place.
   */
  lemma PhaseTrace(p: int, sb: int, l: int)
    ensures var s0 := Initial();
      var s1 := Session(s0, p, sb, l);
      var s2 := Session(s1, p, sb, l);
      var s3 := Session(s2, p, sb, l);
      var s4 := Session(s3, p, sb, l);
      var s5 := Session(s4, p, sb, l);
      StartPhase(s0) == PomodoroSession &&
      StartPhase(s1) == ShortBreak && Announced(s1) == ShortBreak && s1.currentTime == sb * 60 &&
      StartPhase(s2) == PomodoroSession && Announced(s2) == PomodoroSession && s2.currentTime == p * 60 &&
      StartPhase(s3) == ShortBreak && Announced(s3) == ShortBreak && s3.currentTime == sb * 60 &&
      Announced(s4) == LongBreak && s4.currentTime == l * 60 && s4.cycle == 4 &&
      StartPhase(s4) == PomodoroSession &&
      Announced(s5) == ShortBreak && s5.cycle == 5
  {
    var s0 := Initial();
    SessionEffect(s0, p, sb, l);
    var s1 := Session(s0, p, sb, l);
    SessionEffect(s1, p, sb, l);
    var s2 := Session(s1, p, sb, l);
    SessionEffect(s2, p, sb, l);
    var s3 := Session(s2, p, sb, l);
    SessionEffect(s3, p, sb, l);
    var s4 := Session(s3, p, sb, l);
    SessionEffect(s4, p, sb, l);
  }
}
