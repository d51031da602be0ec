# Pomodoro timer: a verified model

This project models the logic inside the `PomodoroTimer` window of
`Pomodoro-Timer/main.py`, with the widgets abstracted away. The window holds
three phase durations in seconds and a countdown. The countdown is made of
the remaining time, a running flag, an on-break flag and a cycle counter. A
callback ticks the countdown once a second, and Start, Pause and Reset
buttons act on it. The window also holds a to-do list box, where tasks can
be added, marked completed or deleted. The remaining time is shown as
`MM:SS`.

Modules:

- `Options`: the optional value, used for a cancelled dialog and for a tick
  that shows no message box.
- `TimeFormat`: `format_time` modelled over all integers. It also holds a
  parser for `MM:SS` text and the round trip between the two.
- `TimerLogic`: the countdown as a value `TimerState`, with one function per
  handler (`Tick`, `Start`, `Pause`, `Reset`). Lemmas say what each handler
  does, what a run of ticks does, and what happens across a whole sequence
  of work and break phases.
- `TaskList`: the list box as a `seq<string>`. It defines the result of each
  list handler without saying in which order the selection is visited.
- `Pomodoro`: the class `PomodoroTimer` with the source's fields. Its
  methods update the fields in place, as the Python handlers do, and run
  the handlers' own loops over the selection. Each method is proved to end
  in the state that the matching `TimerLogic` or `TaskList` function gives.

Behaviour of the code a reader may not expect (the model follows the code):

- `start_timer` calls `update_timer` itself (line 129). Starting an idle
  timer therefore takes one second off straight away. With a zero-minute
  duration, that first tick already makes the phase transition.
- Start always reloads the phase's full duration when the timer is idle
  (line 128). So Pause followed by Start restarts the phase instead of
  resuming it (`PauseThenStartRestarts`).
- The transition happens on the tick after the count has reached zero
  (lines 101 and 105). It flips `on_break` even when it announces the long
  break (lines 107-110).
- `reset_timer` does not reset `cycle` (lines 134-137).
- A completed task is not flagged where it stands. It is removed and
  re-appended at the end of the list with the prefix `[Completed] `
  (lines 148-150).
- A tick and a start choose the next phase with opposite precedence. The
  tick tests `cycle % 4` first (line 109). The start tests `on_break` first
  (line 128). Until a reset, `on_break` is true exactly after an odd number
  of cycles. Under that condition a start never loads the long break: after
  the fourth cycle the long break is announced and shown, but pressing
  Start runs a pomodoro instead (`PhaseTrace`, `StartNeverLoadsLongBreak`).
  After a reset that breaks the condition, a start can load the long break
  (`ResetThenLongBreak`).

## Model

| member | source | states |
|---|---|---|
| `TimeFormat.Decimal` | Pomodoro-Timer/main.py:97 | the digits of a non-negative number: at least one digit, no leading zero except for `0` itself, and they read back as the number |
| `TimeFormat.SecondsField` | Pomodoro-Timer/main.py:96-97 | the seconds part of `divmod` is always written as exactly two digits that read back as the value |
| `TimeFormat.MinutesField` | Pomodoro-Timer/main.py:96-97 | a non-negative minutes part is written with at least two digits, zero-padded only when it has one digit, and it reads back as the value |
| `TimeFormat.MinutesRoundTrip` | Pomodoro-Timer/main.py:96-97 | the minutes part of any integer, negative ones included, parses back to itself |
| `TimeFormat.FormatTimeShape` | Pomodoro-Timer/main.py:95-97 | for a non-negative count: at least two minute digits, a colon, two second digits below 60, and minutes * 60 + seconds equals the count |
| `TimeFormat.ParseJoined` | Pomodoro-Timer/main.py:97 | text made of a minutes field, a colon and a two-digit seconds field below 60 parses to minutes * 60 + seconds |
| `TimeFormat.FormatParseRoundTrip` | Pomodoro-Timer/main.py:95-97 | parsing the `MM:SS` text gives back the count of seconds, for every integer |
| `TimeFormat.FormatTimeInjective` | Pomodoro-Timer/main.py:95-97 | two different counts never give the same label text |
| `TimerLogic.TickIdle` | Pomodoro-Timer/main.py:99-100 | a tick on a timer that is not running changes nothing and shows no message |
| `TimerLogic.TickCountsDown` | Pomodoro-Timer/main.py:101-102 | a running timer with time left loses exactly one second; every other field is unchanged and no message is shown |
| `TimerLogic.TickTransition` | Pomodoro-Timer/main.py:105-117 | at zero: the timer stops, `on_break` flips, `cycle` goes up by one, and the next duration and message are the long break if the new cycle is a multiple of 4, else the short break if now on a break, else the pomodoro |
| `TimerLogic.LongBreakPrecedence` | Pomodoro-Timer/main.py:109-111 | on every fourth cycle the long break is chosen whatever `on_break` says |
| `TimerLogic.TickNonNegative` | Pomodoro-Timer/main.py:99-117 | with non-negative durations, a tick never makes the remaining time negative |
| `TimerLogic.StartEffect` | Pomodoro-Timer/main.py:121-129 | start always stores the three durations as minutes * 60; a running timer keeps its remaining time and shows no message; an idle one gets the duration chosen by `on_break` and then `cycle % 4`, followed by one tick |
| `TimerLogic.StartFromIdle` | Pomodoro-Timer/main.py:126-129 | from idle with a positive duration, the timer is running, one second into the phase, in the same cycle and with the same break flag |
| `TimerLogic.StartNonNegative` | Pomodoro-Timer/main.py:121-129 | with non-negative minute settings, start keeps the durations and the remaining time non-negative |
| `TimerLogic.PauseThenStartRestarts` | Pomodoro-Timer/main.py:126-132 | what pause followed by start gives does not depend on the time that was left at the pause |
| `TimerLogic.PauseEffect` | Pomodoro-Timer/main.py:131-132 | pause clears the running flag and nothing else |
| `TimerLogic.ResetEffect` | Pomodoro-Timer/main.py:134-137 | reset stops the timer, reloads the pomodoro duration and clears `on_break`; the cycle and the durations stay |
| `TimerLogic.PauseResetNonNegative` | Pomodoro-Timer/main.py:131-137 | pause and reset keep the durations and the remaining time non-negative |
| `TimerLogic.StartAgreesWithAnnouncement` | Pomodoro-Timer/main.py:109-128 | for every state, the phase a start loads (line 128, `on_break` tested first) equals the phase a transition would announce from the same flags (lines 109-117, the cycle tested first), except exactly when the cycle is a multiple of 4 and `on_break` is false; right after a transition, these are the flags it announced from |
| `TimerLogic.TicksIdle` | Pomodoro-Timer/main.py:99-100 | any number of ticks leave an idle timer as it is |
| `TimerLogic.Countdown` | Pomodoro-Timer/main.py:101-104 | while time is left, `n` ticks take exactly `n` seconds off and change nothing else |
| `TimerLogic.TransitionIgnoresTime` | Pomodoro-Timer/main.py:105-117 | the state after a transition does not depend on the remaining time it started from |
| `TimerLogic.ExactlyOneTransition` | Pomodoro-Timer/main.py:99-117 | from `r >= 0` seconds left: after `r` ticks the count is zero and still running in the same cycle; tick `r + 1` makes the transition; later ticks change nothing |
| `TimerLogic.FinishIsTransition` | Pomodoro-Timer/main.py:99-117 | letting a running countdown run out ends in its transition |
| `TimerLogic.FinishIsTicks` | Pomodoro-Timer/main.py:99-117 | running out takes exactly the remaining seconds plus one tick |
| `TimerLogic.SessionIsTransition` | Pomodoro-Timer/main.py:121-129 | a start from idle followed by running out equals the transition of the freshly loaded state, for any durations |
| `TimerLogic.SessionEffect` | Pomodoro-Timer/main.py:105-129 | after one such session the timer is idle, the cycle is one higher, `on_break` is flipped, the durations are the new settings, and the remaining time is the duration of the announced phase |
| `TimerLogic.TransitionAlternating` | Pomodoro-Timer/main.py:106-108 | a transition flips `on_break` and counts one cycle, so `on_break` stays true exactly after an odd number of cycles |
| `TimerLogic.AlternatingPreserved` | Pomodoro-Timer/main.py:99-132 | tick, start, pause and a whole session keep `on_break` true exactly after an odd number of cycles |
| `TimerLogic.StartNeverLoadsLongBreak` | Pomodoro-Timer/main.py:128 | while that holds, a start never loads the long-break duration |
| `TimerLogic.ResetThenLongBreak` | Pomodoro-Timer/main.py:134-137 | a reset after three cycles breaks the alternation, and the start after the next session does load the long break |
| `TimerLogic.SessionsCount` | Pomodoro-Timer/main.py:12-18 | after `k` sessions from the initial state the timer is idle at cycle `k`, with `on_break` set exactly when `k` is odd |
| `TimerLogic.SessionsFromInitial` | Pomodoro-Timer/main.py:12-18 | after `k` sessions from the initial state: cycle `k`, `on_break` exactly when `k` is odd, long break announced for every fourth `k`, short break for odd `k`, pomodoro otherwise, and a start never loads the long break |
| `TimerLogic.PhaseTrace` | Pomodoro-Timer/main.py:105-128 | from the initial state the phases run pomodoro, short break, pomodoro, short break; the fourth session ends announcing the long break with its duration loaded; the fifth start runs a pomodoro and ends in a short break at cycle 5 |
| `TaskList.KeepDropOneMore` | Pomodoro-Timer/main.py:152-155 | removing the row at an index below every index already removed hits the right row: the rows before it have not moved |
| `TaskList.KeptIndicesInRange` | Pomodoro-Timer/main.py:152-155 | the indices that survive a deletion lie within the list |
| `TaskList.KeptIndicesIncrease` | Pomodoro-Timer/main.py:152-155 | the indices that survive a deletion come in strictly increasing order |
| `TaskList.KeptIndicesLength` | Pomodoro-Timer/main.py:152-155 | there are as many surviving indices as surviving rows |
| `TaskList.KeptRowAt` | Pomodoro-Timer/main.py:152-155 | the `k`-th surviving row is the original row at the `k`-th surviving index |
| `TaskList.UnselectedIndexMap` | Pomodoro-Timer/main.py:145-155 | the rows left after removing the selection, as an index map: a strictly increasing enumeration of exactly the unselected indices, with the `k`-th row left being the row at the `k`-th of them |
| `TaskList.UnselectedStep` | Pomodoro-Timer/main.py:147-155 | once the higher selected rows are gone, deleting the lowest selected index removes that very row, and the result is the list without all selected rows |
| `TaskList.UnselectedLength` | Pomodoro-Timer/main.py:152-155 | removing the selected rows shortens the list by the size of the selection |
| `TaskList.UnselectedMembers` | Pomodoro-Timer/main.py:152-155 | a text remains exactly when it stands at some unselected index |
| `TaskList.MarkedDescendingAt` | Pomodoro-Timer/main.py:147-150 | the `k`-th completed text is the marked text of the `k`-th selected row counted from the highest index down |
| `TaskList.AddEffect` | Pomodoro-Timer/main.py:140-143 | a non-empty answer is appended at the end; an empty or cancelled one leaves the list unchanged |
| `TaskList.CompleteEffect` | Pomodoro-Timer/main.py:145-150 | completing keeps the length; the first rows are those at the unselected indices, in strictly increasing index order; then come `[Completed] ` plus each selected row, highest index first |
| `TaskList.DeleteEffect` | Pomodoro-Timer/main.py:152-155 | deleting shortens the list by the size of the selection; the `k`-th remaining row is the row at the `k`-th unselected index, where the unselected indices are enumerated in strictly increasing order, each exactly once (so order and repeated texts are fixed); and a text remains exactly when it stands at some unselected index |
| `TaskList.DeleteExample` | Pomodoro-Timer/main.py:152-155 | deleting rows 0 and 2 of `A`, `B`, `C` leaves only `B` |
| `TaskList.CompleteExample` | Pomodoro-Timer/main.py:140-150 | adding `Buy milk` and completing row 0 leaves the single row `[Completed] Buy milk` |
| `Pomodoro.PomodoroTimer.constructor` | Pomodoro-Timer/main.py:12-18 | 25, 5 and 15 minutes in seconds; idle at the first pomodoro with its full duration; no break, cycle 0; empty list |
| `Pomodoro.PomodoroTimer.UpdateTimer` | Pomodoro-Timer/main.py:99-119 | the fields end as `Tick` of the fields before; the message returned is the one the tick shows; the list is untouched |
| `Pomodoro.PomodoroTimer.StartTimer` | Pomodoro-Timer/main.py:121-129 | the fields end as `Start` of the fields before with the given minutes, including the immediate tick; the list is untouched |
| `Pomodoro.PomodoroTimer.PauseTimer` | Pomodoro-Timer/main.py:131-132 | the fields end as `Pause` of the fields before; the list is untouched |
| `Pomodoro.PomodoroTimer.ResetTimer` | Pomodoro-Timer/main.py:134-138 | the fields end as `Reset` of the fields before; the list is untouched |
| `Pomodoro.PomodoroTimer.AddTask` | Pomodoro-Timer/main.py:140-143 | the list ends as `AfterAdd` of the old list; the timer is untouched |
| `Pomodoro.PomodoroTimer.CompleteTask` | Pomodoro-Timer/main.py:145-150 | walking the selection from the highest index down, the in-place removals and appends end in `AfterComplete` of the old list; the timer is untouched |
| `Pomodoro.PomodoroTimer.DeleteTask` | Pomodoro-Timer/main.py:152-155 | walking the selection from the highest index down, the in-place removals end in `AfterDelete` of the old list; the timer is untouched |

## Left out

- Widget construction, styling and layout (`create_widgets`, lines 22-93) and the `mainloop` entry point (lines 158-160): presentation only.
- The message boxes (lines 111, 114, 117): the tick and start methods return the announced phase instead.
- The label updates (lines 103, 119, 138): the label always shows `FormatTime` of the remaining time, and that function is modelled.
- The self-rescheduling `after(1000, ...)` (line 104) belongs to the toolkit's event loop. One call of `UpdateTimer` is one tick, and the scheduling stays outside. The model therefore does not capture a second callback chain: a pause followed by a start within the same second leaves the old pending callback alive next to the new one.
- The spin box reads and `int(...)` parsing (lines 122-124), including the `ValueError` on non-numeric text: the durations arrive as whole-minute integers. Negative values are allowed, because the code does not reject them. The spin box ranges (lines 45, 51, 57) are not enforced by the code and are not assumed.
- The text dialog (line 141) is a parameter that may be `None` or empty.
- The list box internals and `curselection()` (lines 146, 153): the list is a `seq<string>`, and the selection is a precondition saying it is a strictly increasing sequence of existing row indices.
- `TimeFormat.FormatTimeShape`: states the digit layout only for non-negative counts, because a negative count writes its minutes with a minus sign. `FormatParseRoundTrip` covers every integer.
