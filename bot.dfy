/**
 * The bot's handlers, with the I/O taken out: the document fetch is an
 * input, the list handed to the save is an output, and the chat channel's
 * answer to each reminder send is the oracle `delivered`.
 */
module Bot {
  import opened Wrappers
  import opened TaskRecords
  import opened Reminders

  /**
   * What the read of the JSON document gave: the request failed, or it
   * returned a record whose `tasks` field is present or missing.
   */
  datatype Fetch = Failed | Received(tasks: Option<seq<Task>>)

  /** The fetched task list; a failed read and a record without tasks both read as the empty list. */
  function GetTasks(f: Fetch): (r: seq<Task>)
    ensures f.Received? && f.tasks.Some? ==> r == f.tasks.value
    ensures !(f.Received? && f.tasks.Some?) ==> r == []
  {
    match f
    case Received(Some(ts)) => ts
    case _ => []
  }

  /**
   * /addtask: a payload that does not decode writes nothing (`None`);
   * otherwise the fetched list, with one new record for the caller appended
   * at its end, is handed to the save.
   */
  method AddTask(fetched: Fetch, chatId: int, id: string, payload: Option<TaskData>)
    returns (saved: Option<seq<Task>>)
    ensures payload.None? <==> saved.None?
    ensures saved.Some? ==>
              |saved.value| == |GetTasks(fetched)| + 1 &&
              saved.value[..|GetTasks(fetched)|] == GetTasks(fetched) &&
              saved.value[|GetTasks(fetched)|] == NewTask(id, chatId, payload.value)
    ensures saved.Some? ==> saved.value[|GetTasks(fetched)|].userId == chatId && !saved.value[|GetTasks(fetched)|].notified
  {
    if payload.None? {
      return None;
    }
    var newTask := NewTask(id, chatId, payload.value);
    var tasks := GetTasks(fetched);
    tasks := tasks + [newTask];
    saved := Some(tasks);
  }

  /** The answer to /getmytasks: a "no tasks yet" note, or the caller's tasks. */
  datatype Listing = NoTasksYet | YourTasks(tasks: seq<Task>)

  /** /getmytasks: the caller's tasks in list order, or the note when there are none. */
  function GetMyTasks(fetched: Fetch, userId: int): (r: Listing)
    ensures r.NoTasksYet? <==> (forall t :: t in GetTasks(fetched) ==> t.userId != userId)
    ensures r.YourTasks? ==> |r.tasks| > 0 && forall t :: t in r.tasks <==> t in GetTasks(fetched) && t.userId == userId
    ensures r.YourTasks? ==> r.tasks == MyTasks(GetTasks(fetched), userId)
  {
    var mine := MyTasks(GetTasks(fetched), userId);
    assert |mine| > 0 ==> mine[0] in mine;
    if |mine| == 0 then NoTasksYet else YourTasks(mine)
  }

  /**
   * The reminder tick over the fetched list, updating the records in place in
   * list order. Returns the list handed to the save, which happens whether or
   * not anything changed, and the send attempts in the order they were made.
   */
  method CheckNotifications(fetched: Fetch, now: int, delivered: nat -> bool)
    returns (saved: seq<Task>, attempts: seq<Attempt>)
    ensures saved == Tick(GetTasks(fetched), now, delivered).tasks
    ensures attempts == Tick(GetTasks(fetched), now, delivered).attempts
  {
    var fetchedTasks := GetTasks(fetched);
    var tasks := new Task[|fetchedTasks|](k requires 0 <= k < |fetchedTasks| => fetchedTasks[k]);
    assert tasks[..] == fetchedTasks;
    attempts := [];
    var i := 0;
    while i < tasks.Length
      invariant 0 <= i <= tasks.Length == |fetchedTasks|
      invariant tasks[..i] == Tick(fetchedTasks[..i], now, delivered).tasks
      invariant tasks[i..] == fetchedTasks[i..]
      invariant attempts == Tick(fetchedTasks[..i], now, delivered).attempts
    {
      assert fetchedTasks[..i + 1][..i] == fetchedTasks[..i];
      var task := tasks[i];
      assert task == fetchedTasks[i];
      assert tasks[i + 1..] == fetchedTasks[i + 1..];
      if task.notified {
        assert tasks[..i + 1] == tasks[..i] + [task];
        i := i + 1;
        continue;
      }
      // An unparseable date gives a NaN difference, for which both comparisons are false.
      match task.datetime {
        case None =>
        case Some(due) =>
          var timeDiff := due - now;
          var hoursDiff := HoursDiff(timeDiff);
          HoursTestIsWindowTest(timeDiff);
          if hoursDiff <= 4.0 && hoursDiff > 0.0 {
            var ok := delivered(|attempts|);
            attempts := attempts + [Attempt(i, task.userId, ok)];
            if ok {
              tasks[i] := task.(notified := true);
            }
          }
      }
      assert tasks[..i + 1] == tasks[..i] + [tasks[i]];
      assert tasks[i + 1..] == fetchedTasks[i + 1..];
      i := i + 1;
    }
    assert fetchedTasks[..i] == fetchedTasks;
    saved := tasks[..];
  }

  /**
   * A failed read makes the tick hand the empty list to the save, which
   * overwrites the stored document with no tasks; the same holds for a
   * record without a task list.
   */
  lemma FailedReadSavesEmpty(now: int, delivered: nat -> bool)
    ensures Tick(GetTasks(Failed), now, delivered) == TickResult([], [])
  {
  }
}
