/**
 * The `PomodoroTimer` window with its widgets abstracted away: the timer
 * fields that the button handlers and the once-a-second callback update in
 * place, and the rows of the to-do list box. Each handler is proved to
 * leave exactly the state the matching function of TimerLogic or TaskList
 * gives, and to leave the other half of the object alone.
 */
module Pomodoro {
  import opened Options
  import opened TimerLogic
  import opened TaskList

  class PomodoroTimer {
    // durations in seconds
    var pomodoroTime: int
    var shortBreakTime: int
    var longBreakTime: int
    // the countdown
    var currentTime: int
    var running: bool
    var onBreak: bool
    var cycle: nat
    // the rows of the to-do list box, top first
    var todo: seq<string>

    /** The timer half of the object as a value. */
    function State(): TimerState
      reads this
    {
      TimerState(pomodoroTime, shortBreakTime, longBreakTime, currentTime, running, onBreak, cycle)
    }

    constructor ()
      ensures State() == Initial() && todo == []
    {
      pomodoroTime := 25 * 60;
      shortBreakTime := 5 * 60;
      longBreakTime := 15 * 60;
      currentTime := pomodoroTime;
      running := false;
      onBreak := false;
      cycle := 0;
      todo := [];
    }

    /** `update_timer`: one tick; returns the phase a message box announces, if one does. */
    method UpdateTimer() returns (notice: Option<Phase>)
      modifies this
      ensures State() == Tick(old(State())) && notice == TickNotice(old(State()))
      ensures todo == old(todo)
    {
      notice := None;
      if running {
        if currentTime > 0 {
          currentTime := currentTime - 1;
        } else {
          running := false;
          onBreak := !onBreak;
          cycle := cycle + 1;
          if cycle % 4 == 0 {
            currentTime := longBreakTime;
            notice := Some(LongBreak);
          } else if onBreak {
            currentTime := shortBreakTime;
            notice := Some(ShortBreak);
          } else {
            currentTime := pomodoroTime;
            notice := Some(PomodoroSession);
          }
        }
      }
    }

    /**
     * `start_timer` with the three spin box values already read as whole
     * minutes: store the durations; when idle, run, load the phase's
     * duration and tick at once.
     */
    method StartTimer(pomodoroMinutes: int, shortMinutes: int, longMinutes: int) returns (notice: Option<Phase>)
      modifies this
      ensures State() == Start(old(State()), pomodoroMinutes, shortMinutes, longMinutes)
      ensures notice == StartNotice(old(State()), pomodoroMinutes, shortMinutes, longMinutes)
      ensures todo == old(todo)
    {
      pomodoroTime := pomodoroMinutes * 60;
      shortBreakTime := shortMinutes * 60;
      longBreakTime := longMinutes * 60;
      notice := None;
      if !running {
        running := true;
        currentTime := if !onBreak then pomodoroTime
                       else if cycle % 4 != 0 then shortBreakTime
                       else longBreakTime;
        notice := UpdateTimer();
      }
    }

    /** `pause_timer`. */
    method PauseTimer()
      modifies this
      ensures State() == Pause(old(State())) && todo == old(todo)
    {
      running := false;
    }

    /** `reset_timer`. */
    method ResetTimer()
      modifies this
      ensures State() == Reset(old(State())) && todo == old(todo)
    {
      running := false;
      currentTime := pomodoroTime;
      onBreak := false;
    }

    /** `add_task` with the dialog's answer, `None` when it was cancelled. */
    method AddTask(task: Option<string>)
      modifies this
      ensures todo == AfterAdd(old(todo), task) && State() == old(State())
    {
      if task.Some? && task.value != "" {
        todo := todo + [task.value];
      }
    }

    /**
     * `complete_task`: walking the selection from the highest index down,
     * remove each row and append it, marked, at the end. Appending at the
     * end and removing from high to low never moves a row still to be visited.
     */
    method CompleteTask(selection: seq<nat>)
      requires ValidSelection(selection, |todo|)
      modifies this
      ensures todo == AfterComplete(old(todo), selection) && State() == old(State())
    {
      ghost var rows := todo;
      var i := |selection|;
      UnselectedNone(rows);
      while i > 0
        invariant 0 <= i <= |selection| && State() == old(State())
        invariant ValidSelection(selection[i..], |rows|)
        invariant todo == Unselected(rows, selection[i..]) + MarkedDescending(rows, selection[i..])
      {
        i := i - 1;
        var index := selection[i];
        UnselectedStep(rows, selection[i..]);
        assert selection[i..][1..] == selection[i + 1..];
        var task := todo[index];
        todo := RemoveAt(todo, index) + [Mark(task)];
        assert RemoveAt(Unselected(rows, selection[i + 1..]) + MarkedDescending(rows, selection[i + 1..]), index)
          == RemoveAt(Unselected(rows, selection[i + 1..]), index) + MarkedDescending(rows, selection[i + 1..]);
      }
      assert selection[0..] == selection;
    }

    /** `delete_task`: remove the selected rows, walking the selection from the highest index down. */
    method DeleteTask(selection: seq<nat>)
      requires ValidSelection(selection, |todo|)
      modifies this
      ensures todo == AfterDelete(old(todo), selection) && State() == old(State())
    {
      ghost var rows := todo;
      var i := |selection|;
      UnselectedNone(rows);
      while i > 0
        invariant 0 <= i <= |selection| && State() == old(State())
        invariant ValidSelection(selection[i..], |rows|)
        invariant todo == Unselected(rows, selection[i..])
      {
        i := i - 1;
        UnselectedStep(rows, selection[i..]);
        assert selection[i..][1..] == selection[i + 1..];
        todo := RemoveAt(todo, selection[i]);
      }
      assert selection[0..] == selection;
    }
  }
}
