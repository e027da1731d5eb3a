/**
 * The study session of script.js: its globals become the fields of one
 * `Session` object, each pending or completed task is a `Task` object whose
 * fields the handlers update in place, and each event handler is a method.
 *
 * The interval that drives a countdown is the `timer` slot: it holds the task
 * object the interval's callback captured, and `null` while no interval is
 * live. Each firing of the callback is one call of `Tick`.
 */
module Planner {
  import opened Values
  import Text
  import Arith
  import Export
  import Quotes

  /** The alert with which a handler refuses an action, leaving everything as it was. */
  datatype Alert =
    | MissingNameOrHours      // startSession: name or hours left blank
    | InvalidHours            // startSession: hours not a positive number
    | NotEnoughTimeToday      // startSession: the plan runs past midnight
    | InvalidTaskInput        // addTask: no name, or minutes not a positive number
    | NotEnoughPlannedTime    // addTask: more minutes than the plan has left
    | StopBeforeEditing       // editTask: the task is running
    | InvalidEditInput        // editTask: a prompt was cancelled or left invalid
    | NotEnoughTimeForChange  // editTask: the increase exceeds what the plan has left
    | AlreadyRunning          // startTimer: a countdown is live
    | NotRunning              // stopTimer: the index is not the last started one

  /**
   * How a handler ended. `Aborted` is a JavaScript exception that ends the
   * handler midway; only the as-written edit (see `EditTaskAsWritten`) ends so.
   */
  datatype Outcome = Accepted | Refused(alert: Alert) | Aborted

  const MinutesPerDay := 1440

  class Task {
    var name: string
    /** The planned duration. */
    var minutes: int
    var description: string
    var remainingSeconds: int
    var running: bool
    /** The instant (ms) of the latest start, kept as `startTime` and `startTimeFormatted`; `None` before the first. */
    var startTime: Option<int>
    /** The completion instant (`completedTimeFormatted`); `None` while pending. */
    var completedTime: Option<int>
    /** The minutes actually spent, set on completion. */
    var usedMinutes: int

    /** A positive plan, and a countdown that lies between zero and the full plan. */
    ghost predicate Valid()
      reads this`minutes, this`remainingSeconds, this`running, this`startTime
    {
      && 0 < minutes
      && 0 <= remainingSeconds <= minutes * 60
      && (running ==> startTime.Some?)
    }

    /** The object literal addTask pushes. */
    constructor (name: string, minutes: int, description: string)
      requires 0 < minutes
      ensures Valid()
      ensures this.name == name && this.minutes == minutes && this.description == description
      ensures remainingSeconds == minutes * 60 && !running
      ensures startTime == None && completedTime == None && usedMinutes == 0
    {
      this.name := name;
      this.minutes := minutes;
      this.description := description;
      remainingSeconds := minutes * 60;
      running := false;
      startTime := None;
      completedTime := None;
      usedMinutes := 0;
    }

    function View(): Export.TaskView
      reads this
    {
      Export.TaskView(name, minutes, completedTime, description)
    }
  }

  function Views(ts: seq<Task>): (vs: seq<Export.TaskView>)
    reads ts
    ensures |vs| == |ts|
    ensures forall i :: 0 <= i < |ts| ==> vs[i] == ts[i].View()
  {
    if ts == [] then [] else [ts[0].View()] + Views(ts[1..])
  }

  /** The planned minutes of `ts`, summed. */
  ghost function TotalMinutes(ts: seq<Task>): int
    reads ts`minutes
  {
    if ts == [] then 0 else ts[0].minutes + TotalMinutes(ts[1..])
  }

  lemma {:induction false} TotalMinutesAppend(a: seq<Task>, b: seq<Task>)
    ensures TotalMinutes(a + b) == TotalMinutes(a) + TotalMinutes(b)
  {
    if a == [] {
      assert a + b == b;
    } else {
      assert (a + b)[1..] == a[1..] + b;
      TotalMinutesAppend(a[1..], b);
    }
  }

  /** The sum only depends on the plans of the tasks summed. */
  twostate lemma {:induction false} TotalMinutesUnchanged(ts: seq<Task>)
    requires forall u :: u in ts ==> old(u.minutes) == u.minutes
    ensures TotalMinutes(ts) == old(TotalMinutes(ts))
  {
    if ts != [] {
      assert ts[0] in ts;
      TotalMinutesUnchanged(ts[1..]);
    }
  }

  /** Tasks with positive plans commit at least one minute each. */
  lemma {:induction false} TotalMinutesPositive(ts: seq<Task>)
    requires forall t :: t in ts ==> t.minutes > 0
    ensures TotalMinutes(ts) >= |ts|
  {
    if ts != [] {
      assert ts[0] in ts;
      TotalMinutesPositive(ts[1..]);
    }
  }

  /** No task object appears twice. */
  ghost predicate Distinct(ts: seq<Task>) {
    forall i, j :: 0 <= i < |ts| && 0 <= j < |ts| && i != j ==> ts[i] != ts[j]
  }

  class Session {
    var tasks: seq<Task>
    var doneTasks: seq<Task>
    var quotes: seq<Quotes.Quote>
    var totalPlannedMinutes: int
    /** The minutes committed to tasks, pending and completed alike. */
    var usedMinutes: int
    /** `currentTimerId`: the task whose interval is live, or `null`. */
    var timer: Task?
    /** `currentRunningIndex`: the index last passed to a successful start; never cleared. */
    var runningIndex: Option<nat>
    var studentName: string

    /**
     * The session invariant: every task object is in exactly one list, pending
     * tasks are uncompleted and completed ones stamped and stopped, the
     * committed minutes are the planned minutes of all tasks, and a live
     * interval belongs to a pending task that is flagged running.
     */
    ghost predicate Valid()
      reads this`tasks, this`doneTasks, this`usedMinutes, this`timer, tasks, doneTasks
    {
      && Distinct(tasks + doneTasks)
      && (forall t :: t in tasks ==> t.Valid() && t.completedTime.None?)
      && (forall t :: t in doneTasks ==> t.Valid() && !t.running && t.completedTime.Some?)
      && usedMinutes == TotalMinutes(tasks) + TotalMinutes(doneTasks)
      && (timer != null ==> timer in tasks && timer.running)
    }

    /** The committed minutes fit in the plan. */
    predicate WithinBudget()
      reads this
    {
      usedMinutes <= totalPlannedMinutes
    }

    /** getAvailableMinutes: the plan minus the planned minutes of every task, completed ones included. */
    function AvailableMinutes(): (r: int)
      reads this, tasks, doneTasks
      ensures Valid() ==> r == totalPlannedMinutes - TotalMinutes(tasks) - TotalMinutes(doneTasks)
      ensures WithinBudget() <==> r >= 0
    {
      totalPlannedMinutes - usedMinutes
    }

    /** The initial values of the globals. */
    constructor ()
      ensures Valid()
      ensures tasks == [] && doneTasks == [] && quotes == []
      ensures totalPlannedMinutes == 0 && usedMinutes == 0
      ensures timer == null && runningIndex == None && studentName == ""
    {
      tasks, doneTasks, quotes := [], [], [];
      totalPlannedMinutes, usedMinutes := 0, 0;
      timer, runningIndex := null, None;
      studentName := "";
    }

    /**
     * startSession. `hours` is what `parseInt` made of the trimmed hours field
     * and `minuteOfDay` the wall-clock minute since midnight.
     */
    method StartSession(nameInput: string, hoursInput: string, hours: Num, minuteOfDay: int)
      returns (outcome: Outcome)
      requires Valid()
      requires 0 <= minuteOfDay < MinutesPerDay
      requires Text.Trim(hoursInput) == [] ==> hours == NaN
      modifies this`studentName, this`totalPlannedMinutes
      ensures Valid()
      ensures outcome ==
        if Text.Trim(nameInput) == [] || Text.Trim(hoursInput) == [] then Refused(MissingNameOrHours)
        else if hours.NaN? || hours.value <= 0 then Refused(InvalidHours)
        else if hours.value * 60 > MinutesPerDay - minuteOfDay then Refused(NotEnoughTimeToday)
        else Accepted
      ensures outcome.Accepted? ==>
        && studentName == Text.Trim(nameInput) && studentName != []
        && totalPlannedMinutes == hours.value * 60
        && 0 < totalPlannedMinutes <= MinutesPerDay - minuteOfDay
      ensures outcome.Accepted? && usedMinutes == 0 ==> WithinBudget()
      ensures outcome.Refused? ==> unchanged(this)
    {
      var name := Text.Trim(nameInput);
      if name == [] || Text.Trim(hoursInput) == [] {
        return Refused(MissingNameOrHours);
      }
      if hours.NaN? || hours.value <= 0 {
        return Refused(InvalidHours);
      }
      var minutesLeftToday := MinutesPerDay - minuteOfDay;
      if hours.value * 60 > minutesLeftToday {
        return Refused(NotEnoughTimeToday);
      }
      studentName := name;
      totalPlannedMinutes := hours.value * 60;
      outcome := Accepted;
    }

    /**
     * addTask. `minutes` is what `parseInt` made of the minutes field; the name
     * and the description are trimmed.
     */
    method AddTask(nameInput: string, minutes: Num, descriptionInput: string) returns (outcome: Outcome)
      requires Valid()
      modifies this`tasks, this`usedMinutes
      ensures Valid()
      ensures outcome ==
        if Text.Trim(nameInput) == [] || !minutes.Truthy() || minutes.value <= 0 then Refused(InvalidTaskInput)
        else if minutes.value > old(AvailableMinutes()) then Refused(NotEnoughPlannedTime)
        else Accepted
      ensures outcome.Refused? ==> unchanged(this)
      ensures outcome.Accepted? ==>
        && |tasks| == |old(tasks)| + 1 && tasks[..|old(tasks)|] == old(tasks)
        && var t := tasks[|tasks| - 1];
        && fresh(t)
        && t.name == Text.Trim(nameInput) && t.minutes == minutes.value
        && t.description == Text.Trim(descriptionInput)
        && t.remainingSeconds == minutes.value * 60 && !t.running
        && t.startTime == None && t.completedTime == None && t.usedMinutes == 0
        && usedMinutes == old(usedMinutes) + minutes.value
        && WithinBudget()
    {
      var name := Text.Trim(nameInput);
      var description := Text.Trim(descriptionInput);
      if name == [] || !minutes.Truthy() || minutes.value <= 0 {
        return Refused(InvalidTaskInput);
      }
      if minutes.value > AvailableMinutes() {
        return Refused(NotEnoughPlannedTime);
      }
      var t := new Task(name, minutes.value, description);
      TotalMinutesAppend(tasks, [t]);
      DistinctAppend(tasks, doneTasks, t);
      tasks := tasks + [t];
      usedMinutes := usedMinutes + minutes.value;
      outcome := Accepted;
    }

    /**
     * editTask, with the three prompt answers as inputs (`None` for a
     * cancelled prompt) and `newMinutes` what `parseInt` made of the second.
     * The name is tested before it is trimmed. A cancelled description prompt
     * refuses the edit like the other two; see `EditTaskAsWritten` for what the
     * handler does instead.
     */
    method EditTask(index: nat, newName: Option<string>, newMinutes: Num, newDescription: Option<string>)
      returns (outcome: Outcome)
      requires Valid() && index < |tasks|
      modifies this`usedMinutes, tasks[index]
      ensures Valid()
      ensures outcome ==
        if old(tasks[index].running) then Refused(StopBeforeEditing)
        else if newName.None? || newName.value == [] || newMinutes.NaN? || newMinutes.value <= 0
          || newDescription.None? then Refused(InvalidEditInput)
        else if newMinutes.value - old(tasks[index].minutes) > old(AvailableMinutes()) then Refused(NotEnoughTimeForChange)
        else Accepted
      ensures outcome.Refused? ==> unchanged(this) && unchanged(tasks[index])
      ensures outcome.Accepted? ==>
        var t := tasks[index];
        && t.name == Text.Trim(newName.value) && t.minutes == newMinutes.value
        && t.description == Text.Trim(newDescription.value)
        && t.remainingSeconds == newMinutes.value * 60
        && t.running == old(t.running) && t.startTime == old(t.startTime)
        && t.completedTime == old(t.completedTime) && t.usedMinutes == old(t.usedMinutes)
        && usedMinutes == old(usedMinutes) + (newMinutes.value - old(t.minutes))
        && WithinBudget()
      ensures old(WithinBudget()) && !old(tasks[index].running) && newName.Some? && newName.value != []
        && newMinutes.Int? && 0 < newMinutes.value <= old(tasks[index].minutes) && newDescription.Some?
        ==> outcome.Accepted?
    {
      var t := tasks[index];
      if t.running {
        return Refused(StopBeforeEditing);
      }
      if newName.None? || newName.value == [] || newMinutes.NaN? || newMinutes.value <= 0 || newDescription.None? {
        return Refused(InvalidEditInput);
      }
      var timeDiff := newMinutes.value - t.minutes;
      if timeDiff > AvailableMinutes() {
        return Refused(NotEnoughTimeForChange);
      }
      Revise(index, Text.Trim(newName.value), newMinutes.value, Text.Trim(newDescription.value));
      outcome := Accepted;
    }

    /**
     * The updates of a successful editTask: the committed minutes move by the
     * change of plan, and the task takes the new name, plan and description
     * and a countdown of the full new length.
     */
    method Revise(index: nat, name: string, minutes: int, description: string)
      requires Valid() && index < |tasks| && 0 < minutes
      modifies this`usedMinutes, tasks[index]
      ensures Valid()
      ensures var t := tasks[index];
        && t.name == name && t.minutes == minutes && t.description == description
        && t.remainingSeconds == minutes * 60
        && t.running == old(t.running) && t.startTime == old(t.startTime)
        && t.completedTime == old(t.completedTime) && t.usedMinutes == old(t.usedMinutes)
      ensures usedMinutes == old(usedMinutes) + (minutes - old(tasks[index].minutes))
    {
      var t := tasks[index];
      var pre, post := tasks[..index], tasks[index + 1..];
      SplitAt(index);
      usedMinutes := usedMinutes + (minutes - t.minutes);
      t.name := name;
      t.minutes := minutes;
      t.description := description;
      t.remainingSeconds := minutes * 60;
      TotalMinutesUnchanged(pre);
      TotalMinutesUnchanged(post);
      TotalMinutesUnchanged(doneTasks);
      SplitAt(index);
      forall u | u in tasks ensures u.Valid() && u.completedTime.None? {
        if u != t { assert old(u.Valid()); }
      }
      forall u | u in doneTasks ensures u.Valid() && !u.running && u.completedTime.Some? {
        assert u != t && old(u.Valid());
      }
    }

    /**
     * editTask exactly as written. When the description prompt is cancelled,
     * `null.trim()` throws after the committed minutes, the name and the plan
     * were already updated, so the countdown keeps its old length.
     */
    method EditTaskAsWritten(index: nat, newName: Option<string>, newMinutes: Num, newDescription: Option<string>)
      returns (outcome: Outcome)
      requires Valid() && index < |tasks|
      modifies this`usedMinutes, tasks[index]
      ensures outcome ==
        if old(tasks[index].running) then Refused(StopBeforeEditing)
        else if newName.None? || newName.value == [] || newMinutes.NaN? || newMinutes.value <= 0 then Refused(InvalidEditInput)
        else if newMinutes.value - old(tasks[index].minutes) > old(AvailableMinutes()) then Refused(NotEnoughTimeForChange)
        else if newDescription.None? then Aborted
        else Accepted
      ensures outcome.Refused? ==> unchanged(this) && unchanged(tasks[index])
      ensures outcome.Accepted? ==>
        var t := tasks[index];
        && Valid()
        && t.name == Text.Trim(newName.value) && t.minutes == newMinutes.value
        && t.description == Text.Trim(newDescription.value)
        && t.remainingSeconds == newMinutes.value * 60
        && t.running == old(t.running) && t.startTime == old(t.startTime)
        && t.completedTime == old(t.completedTime) && t.usedMinutes == old(t.usedMinutes)
        && usedMinutes == old(usedMinutes) + (newMinutes.value - old(t.minutes))
      ensures outcome.Aborted? ==>
        var t := tasks[index];
        && t.name == Text.Trim(newName.value) && t.minutes == newMinutes.value
        && t.description == old(t.description) && t.remainingSeconds == old(t.remainingSeconds)
        && t.running == old(t.running) && t.startTime == old(t.startTime)
        && t.completedTime == old(t.completedTime) && t.usedMinutes == old(t.usedMinutes)
        && usedMinutes == old(usedMinutes) + (newMinutes.value - old(t.minutes))
      ensures outcome.Aborted? && newMinutes.value < old(tasks[index].minutes)
        && old(tasks[index].remainingSeconds) == old(tasks[index].minutes) * 60
        ==> !tasks[index].Valid()
    {
      var t := tasks[index];
      if t.running {
        return Refused(StopBeforeEditing);
      }
      if newName.None? || newName.value == [] || newMinutes.NaN? || newMinutes.value <= 0 {
        return Refused(InvalidEditInput);
      }
      var timeDiff := newMinutes.value - t.minutes;
      if timeDiff > AvailableMinutes() {
        return Refused(NotEnoughTimeForChange);
      }
      if newDescription.None? {
        usedMinutes := usedMinutes + timeDiff;
        t.name := Text.Trim(newName.value);
        t.minutes := newMinutes.value;
        return Aborted;
      }
      Revise(index, Text.Trim(newName.value), newMinutes.value, Text.Trim(newDescription.value));
      outcome := Accepted;
    }

    /**
     * startTimer. Refused while an interval is live, whichever task it counts
     * down; otherwise flags the task, overwrites its start instant with `now`
     * and fills the slot.
     */
    method StartTimer(index: nat, now: int) returns (outcome: Outcome)
      requires Valid() && index < |tasks|
      modifies this`timer, this`runningIndex, tasks[index]
      ensures Valid()
      ensures outcome == if old(timer) != null then Refused(AlreadyRunning) else Accepted
      ensures outcome.Refused? ==> unchanged(this) && unchanged(tasks[index])
      ensures outcome.Accepted? ==>
        var t := tasks[index];
        && timer == t && runningIndex == Some(index)
        && t.running && t.startTime == Some(now)
        && t.name == old(t.name) && t.minutes == old(t.minutes) && t.description == old(t.description)
        && t.remainingSeconds == old(t.remainingSeconds)
        && t.completedTime == old(t.completedTime) && t.usedMinutes == old(t.usedMinutes)
    {
      if timer != null {
        return Refused(AlreadyRunning);
      }
      var t := tasks[index];
      t.running := true;
      t.startTime := Some(now);
      runningIndex := Some(index);
      timer := t;
      outcome := Accepted;
    }

    /**
     * One firing of the live interval's callback: counts the captured task
     * down by a second, or, once it is at zero, clears the slot and the task's
     * running flag (the task stays pending).
     */
    method Tick()
      requires Valid() && timer != null
      modifies this`timer, timer
      ensures Valid()
      ensures var t := old(timer);
        && t.name == old(t.name) && t.minutes == old(t.minutes) && t.description == old(t.description)
        && t.startTime == old(t.startTime) && t.completedTime == old(t.completedTime)
        && t.usedMinutes == old(t.usedMinutes)
      ensures var t := old(timer);
        old(t.remainingSeconds) > 0 ==>
          timer == t && t.running && t.remainingSeconds == old(t.remainingSeconds) - 1
      ensures var t := old(timer);
        old(t.remainingSeconds) == 0 ==> timer == null && !t.running && t.remainingSeconds == 0
    {
      var t := timer;
      if t.remainingSeconds > 0 {
        t.remainingSeconds := t.remainingSeconds - 1;
      } else {
        timer := null;
        t.running := false;
      }
    }

    /**
     * stopTimer. Refused unless `index` is the index of the last successful
     * start. Clears the slot (whatever interval is live) and the running flag
     * of the task now at `index`, which after a completion may be another task.
     */
    method StopTimer(index: nat) returns (outcome: Outcome)
      requires Valid() && index < |tasks|
      modifies this`timer, tasks[index]
      ensures Valid()
      ensures outcome == if old(runningIndex) == Some(index) then Accepted else Refused(NotRunning)
      ensures outcome.Refused? ==> unchanged(this) && unchanged(tasks[index])
      ensures outcome.Accepted? ==>
        var t := tasks[index];
        && timer == null && !t.running
        && t.name == old(t.name) && t.minutes == old(t.minutes) && t.description == old(t.description)
        && t.remainingSeconds == old(t.remainingSeconds) && t.startTime == old(t.startTime)
        && t.completedTime == old(t.completedTime) && t.usedMinutes == old(t.usedMinutes)
    {
      if runningIndex != Some(index) {
        return Refused(NotRunning);
      }
      timer := null;
      tasks[index].running := false;
      outcome := Accepted;
    }

    /**
     * markAsDone. The minutes used are the wall-clock span since the latest
     * start, rounded to the nearest minute, for a running task (whose interval
     * is cleared) and for a stopped one alike, and zero for a task never
     * started. The task moves to the end of the completed list; the committed
     * minutes stay as they are.
     */
    method MarkAsDone(index: nat, now: int)
      requires Valid() && index < |tasks|
      modifies this`tasks, this`doneTasks, this`timer, tasks[index]
      ensures Valid()
      ensures tasks == old(tasks[..index] + tasks[index + 1..])
      ensures doneTasks == old(doneTasks) + [old(tasks[index])]
      ensures timer == if old(tasks[index].running) then null else old(timer)
      ensures var t := old(tasks[index]);
        && (old(t.running) ==> old(t.startTime).Some?)
        && t.usedMinutes == (if old(t.startTime).Some? then Arith.RoundToMinutes(now - old(t.startTime).value) else 0)
        && t.completedTime == Some(now) && !t.running
        && t.name == old(t.name) && t.minutes == old(t.minutes) && t.description == old(t.description)
        && t.remainingSeconds == old(t.remainingSeconds) && t.startTime == old(t.startTime)
    {
      var t := tasks[index];
      assert t.Valid() by { assert t in tasks; }
      if t.running {
        timer := null;
        Complete(index, Arith.RoundToMinutes(now - t.startTime.value), now);
      } else if t.startTime.Some? {
        Complete(index, Arith.RoundToMinutes(now - t.startTime.value), now);
      } else {
        Complete(index, 0, now);
      }
    }

    /**
     * The updates every branch of markAsDone ends with: the task records the
     * minutes used and the completion instant, stops, and moves from the
     * pending list to the end of the completed list.
     */
    method Complete(index: nat, used: int, now: int)
      requires Valid() && index < |tasks| && timer != tasks[index]
      modifies this`tasks, this`doneTasks, tasks[index]
      ensures Valid()
      ensures tasks == old(tasks[..index] + tasks[index + 1..])
      ensures doneTasks == old(doneTasks) + [old(tasks[index])]
      ensures var t := old(tasks[index]);
        && t.usedMinutes == used && t.completedTime == Some(now) && !t.running
        && t.name == old(t.name) && t.minutes == old(t.minutes) && t.description == old(t.description)
        && t.remainingSeconds == old(t.remainingSeconds) && t.startTime == old(t.startTime)
    {
      var t := tasks[index];
      var rest := tasks[..index] + tasks[index + 1..];
      CompleteAt(index);
      t.usedMinutes, t.completedTime := used, Some(now);
      t.running := false;
      ghost var oldTasks, oldDone := tasks, doneTasks;
      doneTasks := doneTasks + [t];
      tasks := rest;
      forall u | u in tasks ensures u.Valid() && u.completedTime.None? {
        assert u in oldTasks && u != t;
      }
      forall u | u in doneTasks ensures u.Valid() && !u.running && u.completedTime.Some? {
        if u != t { assert u in oldDone; }
      }
    }

    /**
     * What completing the task at `index` needs of the lists: without it the
     * pending tasks and the completed ones plus it are still free of
     * duplicates, hold the committed minutes, and keep any live interval.
     */
    lemma CompleteAt(index: nat)
      requires Valid() && index < |tasks|
      ensures var t, rest := tasks[index], tasks[..index] + tasks[index + 1..];
        && t.Valid() && (t.running ==> t.startTime.Some?)
        && Distinct(rest + (doneTasks + [t]))
        && usedMinutes == TotalMinutes(rest) + TotalMinutes(doneTasks + [t])
        && (forall u :: u in rest ==> u in tasks && u != t)
        && (timer != null && timer != t ==> timer in rest)
    {
      var t, pre, post := tasks[index], tasks[..index], tasks[index + 1..];
      SplitAt(index);
      assert t in tasks;
      assert tasks + doneTasks == pre + [t] + post + doneTasks;
      DistinctMove(pre, t, post, doneTasks);
      assert pre + post + doneTasks + [t] == (pre + post) + (doneTasks + [t]);
      TotalMinutesAppend(pre, post);
      TotalMinutesAppend(doneTasks, [t]);
      if timer != null && timer != t {
        assert timer in pre || timer in post;
      }
    }

    /** loadQuotes' `forEach`: pushes a cleaned quote for every usable row, in order. */
    method LoadQuotes(rows: seq<Quotes.CsvRow>)
      modifies this`quotes
      ensures quotes == old(quotes) + Quotes.Cleaned(rows)
    {
      var i := 0;
      while i < |rows|
        invariant 0 <= i <= |rows|
        invariant quotes == old(quotes) + Quotes.Cleaned(rows[..i])
      {
        var row := rows[i];
        assert rows[..i + 1][..i] == rows[..i];
        if Quotes.Usable(row) {
          quotes := quotes + [Quotes.Clean(row)];
        }
        i := i + 1;
      }
      assert rows[..i] == rows;
    }

    /** downloadSession's rows. */
    function ExportRows(): (rows: seq<Export.Row>)
      reads this, tasks, doneTasks
      ensures |rows| == 1 + |doneTasks| + |tasks|
    {
      Export.SessionRows(studentName, Views(doneTasks), Views(tasks))
    }

    /**
     * The download holds the session: its completed rows are the completed
     * tasks in order, with their completion instants, and its pending rows the
     * pending tasks in order.
     */
    lemma ExportHoldsSession()
      requires Valid()
      ensures Export.Select(ExportRows(), Export.CompletedStatus) == Views(doneTasks)
      ensures Export.Select(ExportRows(), Export.PendingStatus) == Views(tasks)
    {
      var pending := Views(tasks);
      forall v | v in pending ensures v.completedTime == None {
        var i :| 0 <= i < |pending| && pending[i] == v;
        assert tasks[i] in tasks;
      }
      Export.ExportReadBack(studentName, Views(doneTasks), pending);
    }

    /** Every task, pending or completed, holds at least one committed minute. */
    lemma CommittedCoversTasks()
      requires Valid()
      ensures usedMinutes >= |tasks| + |doneTasks|
    {
      TotalMinutesPositive(tasks);
      TotalMinutesPositive(doneTasks);
    }

    /** The sums and the distinctness facts about the split of `tasks` at `index`. */
    lemma SplitAt(index: nat)
      requires index < |tasks| && Distinct(tasks + doneTasks)
      ensures tasks == tasks[..index] + [tasks[index]] + tasks[index + 1..]
      ensures TotalMinutes(tasks) == TotalMinutes(tasks[..index]) + tasks[index].minutes + TotalMinutes(tasks[index + 1..])
      ensures tasks[index] !in tasks[..index] && tasks[index] !in tasks[index + 1..] && tasks[index] !in doneTasks
    {
      var all := tasks + doneTasks;
      assert tasks == tasks[..index] + [tasks[index]] + tasks[index + 1..];
      TotalMinutesAppend(tasks[..index] + [tasks[index]], tasks[index + 1..]);
      TotalMinutesAppend(tasks[..index], [tasks[index]]);
      forall k | 0 <= k < |tasks| && k != index ensures tasks[k] != tasks[index] {
        assert all[k] == tasks[k] && all[index] == tasks[index];
      }
      forall k | 0 <= k < |doneTasks| ensures doneTasks[k] != tasks[index] {
        assert all[|tasks| + k] == doneTasks[k] && all[index] == tasks[index];
      }
    }
  }

  /** Appending a fresh task keeps the two lists free of duplicates. */
  lemma DistinctAppend(tasks: seq<Task>, doneTasks: seq<Task>, t: Task)
    requires Distinct(tasks + doneTasks) && t !in tasks && t !in doneTasks
    ensures Distinct(tasks + [t] + doneTasks)
  {
    var all, all' := tasks + doneTasks, tasks + [t] + doneTasks;
    forall i, j | 0 <= i < |all'| && 0 <= j < |all'| && i != j ensures all'[i] != all'[j] {
      if i < |tasks| && j < |tasks| {
        assert all'[i] == all[i] && all'[j] == all[j];
      } else if i > |tasks| && j > |tasks| {
        assert all'[i] == all[i - 1] && all'[j] == all[j - 1];
      } else if i < |tasks| && j > |tasks| {
        assert all'[i] == all[i] && all'[j] == all[j - 1];
      } else if i > |tasks| && j < |tasks| {
        assert all'[i] == all[i - 1] && all'[j] == all[j];
      } else if i == |tasks| {
        assert all'[j] in tasks || all'[j] in doneTasks;
      } else {
        assert all'[i] in tasks || all'[i] in doneTasks;
      }
    }
  }

  /** Moving a task from the pending list to the end of the completed list keeps them free of duplicates. */
  lemma DistinctMove(pre: seq<Task>, t: Task, post: seq<Task>, done: seq<Task>)
    requires Distinct(pre + [t] + post + done)
    ensures Distinct(pre + post + done + [t])
  {
    var all, all' := pre + [t] + post + done, pre + post + done + [t];
    var n, p := |all|, |pre|;
    forall i, j | 0 <= i < n && 0 <= j < n && i != j ensures all'[i] != all'[j] {
      var fi := if i < p then i else if i < n - 1 then i + 1 else p;
      var fj := if j < p then j else if j < n - 1 then j + 1 else p;
      assert all'[i] == all[fi];
      assert all'[j] == all[fj];
    }
  }
}
