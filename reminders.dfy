/**
 * The reminder tick as a function of the task list: which tasks get a send
 * attempt, in which order, and which records come out marked as notified.
 * Times are integer milliseconds; the delivery outcome of the k-th send
 * attempt of a tick is `delivered(k)`.
 */
module Reminders {
  import opened Wrappers
  import opened TaskRecords

  const MsPerHour: int := 1000 * 60 * 60

  /** A reminder goes out when at most this long remains until the task (four hours). */
  const ReminderWindowMs: int := 4 * MsPerHour

  /** `timeDiff / (1000 * 60 * 60)`, taken exactly. */
  function HoursDiff(timeDiff: int): real
  {
    timeDiff as real / MsPerHour as real
  }

  /** The hour test `hoursDiff <= 4 && hoursDiff > 0` is the millisecond test `0 < timeDiff <= 4 h`. */
  lemma HoursTestIsWindowTest(timeDiff: int)
    ensures (HoursDiff(timeDiff) <= 4.0 && HoursDiff(timeDiff) > 0.0) <==> 0 < timeDiff <= ReminderWindowMs
  {
  }

  /** The task is due in more than zero and at most four hours; an unparseable date never is. */
  predicate InWindow(t: Task, now: int)
  {
    match t.datetime
    case None => false
    case Some(due) => 0 < due - now <= ReminderWindowMs
  }

  /** A tick attempts a reminder for exactly these tasks. */
  predicate Due(t: Task, now: int)
  {
    !t.notified && InWindow(t, now)
  }

  /** One send attempt: the position of the task in the list, its recipient and the outcome. */
  datatype Attempt = Attempt(index: nat, userId: int, succeeded: bool)

  /** The list a tick writes back and the send attempts it made, in order. */
  datatype TickResult = TickResult(tasks: seq<Task>, attempts: seq<Attempt>)

  /** The number of due tasks in `ts`, which is the number of sends a tick attempts. */
  function DueCount(ts: seq<Task>, now: int): nat
  {
    if ts == [] then 0
    else DueCount(ts[..|ts| - 1], now) + (if Due(ts[|ts| - 1], now) then 1 else 0)
  }

  /**
   * The tick, element by element from the front: a due task gets a send
   * attempt, whose outcome is the next one of `delivered`, and is marked
   * notified only if that send succeeded; every other task stays as it was.
   */
  function Tick(ts: seq<Task>, now: int, delivered: nat -> bool): TickResult
  {
    if ts == [] then TickResult([], [])
    else
      var prev := Tick(ts[..|ts| - 1], now, delivered);
      var t := ts[|ts| - 1];
      if Due(t, now) then
        var ok := delivered(|prev.attempts|);
        TickResult(prev.tasks + [if ok then t.(notified := true) else t],
                   prev.attempts + [Attempt(|ts| - 1, t.userId, ok)])
      else TickResult(prev.tasks + [t], prev.attempts)
  }

  /** The tick keeps the list's length and makes one attempt per due task. */
  lemma {:induction false} TickShape(ts: seq<Task>, now: int, delivered: nat -> bool)
    ensures |Tick(ts, now, delivered).tasks| == |ts|
    ensures |Tick(ts, now, delivered).attempts| == DueCount(ts, now)
  {
    if ts != [] {
      TickShape(ts[..|ts| - 1], now, delivered);
    }
  }

  /**
   * Record i comes out marked exactly when it was due and the send made for
   * it, which is the DueCount(ts[..i])-th of the tick, succeeded; otherwise
   * it comes out unchanged.
   */
  lemma {:induction false} TickTaskAt(ts: seq<Task>, now: int, delivered: nat -> bool, i: nat)
    requires i < |ts|
    ensures |Tick(ts, now, delivered).tasks| == |ts|
    ensures Tick(ts, now, delivered).tasks[i] ==
            if Due(ts[i], now) && delivered(DueCount(ts[..i], now)) then ts[i].(notified := true) else ts[i]
  {
    TickShape(ts, now, delivered);
    var n := |ts|;
    var pre := ts[..n - 1];
    TickShape(pre, now, delivered);
    if i < n - 1 {
      TickTaskAt(pre, now, delivered, i);
      assert pre[..i] == ts[..i];
      assert pre[i] == ts[i];
    } else {
      assert ts[..i] == pre;
    }
  }

  /** A due task i gets its send attempt at position DueCount(ts[..i]), addressed to its owner. */
  lemma {:induction false} TickAttemptAt(ts: seq<Task>, now: int, delivered: nat -> bool, i: nat)
    requires i < |ts| && Due(ts[i], now)
    ensures DueCount(ts[..i], now) < |Tick(ts, now, delivered).attempts|
    ensures Tick(ts, now, delivered).attempts[DueCount(ts[..i], now)] ==
            Attempt(i, ts[i].userId, delivered(DueCount(ts[..i], now)))
  {
    var n := |ts|;
    var pre := ts[..n - 1];
    TickShape(pre, now, delivered);
    if i < n - 1 {
      TickAttemptAt(pre, now, delivered, i);
      assert pre[..i] == ts[..i];
      assert pre[i] == ts[i];
    } else {
      assert ts[..i] == pre;
    }
  }

  /**
   * Every attempt is for a due task of the list, goes to that task's owner
   * and has the outcome the channel gave for its position; attempts follow
   * list order, so no task gets two attempts in one tick.
   */
  lemma {:induction false} TickAttemptsValid(ts: seq<Task>, now: int, delivered: nat -> bool)
    ensures forall j :: 0 <= j < |Tick(ts, now, delivered).attempts| ==>
              var a := Tick(ts, now, delivered).attempts[j];
              a.index < |ts| && Due(ts[a.index], now) && a.userId == ts[a.index].userId && a.succeeded == delivered(j)
    ensures forall j1, j2 :: 0 <= j1 < j2 < |Tick(ts, now, delivered).attempts| ==>
              Tick(ts, now, delivered).attempts[j1].index < Tick(ts, now, delivered).attempts[j2].index
  {
    if ts != [] {
      var n := |ts|;
      var pre := ts[..n - 1];
      TickAttemptsValid(pre, now, delivered);
      assert forall k :: 0 <= k < n - 1 ==> pre[k] == ts[k];
    }
  }

  /**
   * The tick writes back the same records in the same order and changes
   * nothing but `notified`, which it only ever sets, and only on a task
   * that was not notified before.
   */
  lemma {:induction false} TickPreservesRecords(ts: seq<Task>, now: int, delivered: nat -> bool)
    ensures |Tick(ts, now, delivered).tasks| == |ts|
    ensures forall i :: 0 <= i < |ts| ==>
              Tick(ts, now, delivered).tasks[i] == ts[i] ||
              (!ts[i].notified && Tick(ts, now, delivered).tasks[i] == ts[i].(notified := true))
  {
    TickShape(ts, now, delivered);
    forall i | 0 <= i < |ts|
      ensures Tick(ts, now, delivered).tasks[i] == ts[i] ||
              (!ts[i].notified && Tick(ts, now, delivered).tasks[i] == ts[i].(notified := true))
    {
      TickTaskAt(ts, now, delivered, i);
    }
  }

  /**
   * A task that is already notified, or is not due within the next four
   * hours (overdue, further away, or with a date that does not parse),
   * gets no send attempt and is written back unchanged.
   */
  lemma NotDueUntouched(ts: seq<Task>, now: int, delivered: nat -> bool, i: nat)
    requires i < |ts| && (ts[i].notified || !InWindow(ts[i], now))
    ensures |Tick(ts, now, delivered).tasks| == |ts| && Tick(ts, now, delivered).tasks[i] == ts[i]
    ensures forall j :: 0 <= j < |Tick(ts, now, delivered).attempts| ==> Tick(ts, now, delivered).attempts[j].index != i
  {
    TickTaskAt(ts, now, delivered, i);
    TickAttemptsValid(ts, now, delivered);
  }

  /** A task whose date does not parse is never sent a reminder and never marked, whatever the time. */
  lemma UnparseableNeverFires(ts: seq<Task>, now: int, delivered: nat -> bool, i: nat)
    requires i < |ts| && ts[i].datetime.None?
    ensures |Tick(ts, now, delivered).tasks| == |ts| && Tick(ts, now, delivered).tasks[i] == ts[i]
    ensures forall j :: 0 <= j < |Tick(ts, now, delivered).attempts| ==> Tick(ts, now, delivered).attempts[j].index != i
  {
    NotDueUntouched(ts, now, delivered, i);
  }

  /** A task comes out newly notified only if the tick made a successful send for it. */
  lemma NotifiedOnlyAfterSuccess(ts: seq<Task>, now: int, delivered: nat -> bool, i: nat)
    requires i < |ts| && !ts[i].notified
    ensures |Tick(ts, now, delivered).tasks| == |ts|
    ensures Tick(ts, now, delivered).tasks[i].notified <==>
            exists j :: 0 <= j < |Tick(ts, now, delivered).attempts| &&
                        Tick(ts, now, delivered).attempts[j] == Attempt(i, ts[i].userId, true)
  {
    TickTaskAt(ts, now, delivered, i);
    TickAttemptsValid(ts, now, delivered);
    var r := Tick(ts, now, delivered);
    if Due(ts[i], now) {
      TickAttemptAt(ts, now, delivered, i);
      var k := DueCount(ts[..i], now);
      assert forall j :: 0 <= j < |r.attempts| && r.attempts[j].index == i ==> j == k;
    }
  }

  /**
   * A due task whose send failed is written back unchanged and so is still
   * due: the next tick in the window tries it again.
   */
  lemma FailedSendRetried(ts: seq<Task>, now: int, delivered: nat -> bool, i: nat)
    requires i < |ts| && Due(ts[i], now) && !delivered(DueCount(ts[..i], now))
    ensures |Tick(ts, now, delivered).tasks| == |ts|
    ensures Tick(ts, now, delivered).tasks[i] == ts[i] && Due(Tick(ts, now, delivered).tasks[i], now)
  {
    TickTaskAt(ts, now, delivered, i);
  }

  /** When no task is due, the tick attempts nothing and writes the list back as it was. */
  lemma {:induction false} NothingDueNoChange(ts: seq<Task>, now: int, delivered: nat -> bool)
    requires forall i :: 0 <= i < |ts| ==> !Due(ts[i], now)
    ensures Tick(ts, now, delivered) == TickResult(ts, [])
  {
    if ts != [] {
      var pre := ts[..|ts| - 1];
      assert forall i :: 0 <= i < |pre| ==> pre[i] == ts[i];
      NothingDueNoChange(pre, now, delivered);
      assert pre + [ts[|ts| - 1]] == ts;
    }
  }

  /** If every send of the tick succeeds, no task is still due at the same `now` after it. */
  lemma {:induction false} AllDeliveredNothingDue(ts: seq<Task>, now: int, delivered: nat -> bool)
    requires forall a :: a in Tick(ts, now, delivered).attempts ==> a.succeeded
    ensures |Tick(ts, now, delivered).tasks| == |ts|
    ensures forall i :: 0 <= i < |ts| ==> !Due(Tick(ts, now, delivered).tasks[i], now)
  {
    TickShape(ts, now, delivered);
    forall i | 0 <= i < |ts|
      ensures !Due(Tick(ts, now, delivered).tasks[i], now)
    {
      TickTaskAt(ts, now, delivered, i);
      if Due(ts[i], now) {
        TickAttemptAt(ts, now, delivered, i);
      }
    }
  }

  /**
   * Idempotence: after a tick in which every send succeeded, a second tick
   * at the same `now`, whatever its channel does, attempts no send and
   * changes nothing.
   */
  lemma {:induction false} TickIdempotent(ts: seq<Task>, now: int, delivered: nat -> bool, again: nat -> bool)
    requires forall a :: a in Tick(ts, now, delivered).attempts ==> a.succeeded
    ensures Tick(Tick(ts, now, delivered).tasks, now, again) == TickResult(Tick(ts, now, delivered).tasks, [])
  {
    AllDeliveredNothingDue(ts, now, delivered);
    NothingDueNoChange(Tick(ts, now, delivered).tasks, now, again);
  }
}
