/**
 * Short runs of the planner's handlers: the running index that goes stale
 * after a completion, and the edit left half done by a cancelled prompt.
 */
module Scenarios {
  import opened Values
  import opened Planner

  /**
   * The last started index is never cleared. With three pending tasks and the
   * second one counting down (as after adding three tasks and starting the
   * second), completing the first shifts the list, so stopping "the running
   * task" by its old index stops the third task instead; the second stays
   * flagged running, the slot is empty, and the third can be started too.
   */
  method TwoRunningTasks(s: Session, now: int) returns (b: Task, c: Task)
    requires s.Valid() && |s.tasks| == 3 && !s.tasks[0].running
    requires s.runningIndex == Some(1) && s.timer == s.tasks[1]
    modifies s, s.tasks
    ensures s.Valid()
    ensures b != c && s.tasks == [b, c]
    ensures b.running && c.running && s.timer == c
  {
    b, c := s.tasks[1], s.tasks[2];
    assert b.running && b != c by {
      assert b in s.tasks && (s.tasks + s.doneTasks)[1] == b && (s.tasks + s.doneTasks)[2] == c;
    }
    assert s.tasks[..0] + s.tasks[1..] == [b, c];
    s.MarkAsDone(0, now);
    var stopped := s.StopTimer(1);
    var started := s.StartTimer(1, now);
  }

  /**
   * Shortening a fresh 30-minute task to 10 minutes with the description
   * prompt cancelled leaves it with a 30-minute countdown.
   */
  method CancelledDescription(s: Session, name: string) returns (t: Task)
    requires s.Valid() && |s.tasks| == 1 && !s.tasks[0].running
    requires s.tasks[0].minutes == 30 && s.tasks[0].remainingSeconds == 30 * 60
    requires name != [] && s.WithinBudget()
    modifies s, s.tasks
    ensures t in s.tasks && !t.Valid()
    ensures t.minutes == 10 && t.remainingSeconds == 30 * 60
  {
    t := s.tasks[0];
    var outcome := s.EditTaskAsWritten(0, Some(name), Int(10), None);
  }
}
