/**
 * The task records kept in the bot's JSON document, the record that
 * /addtask builds, and the owner filter behind /getmytasks.
 */
module TaskRecords {
  import opened Wrappers

  /**
   * One stored task. `datetime` is the due moment as `new Date(...)` reads
   * it, in milliseconds since the epoch; `None` stands for a string that
   * does not parse (the Date is NaN). `userId` is the chat id of the owner.
   */
  datatype Task = Task(id: string, userId: int, title: string, datetime: Option<int>, notified: bool)

  /** The fields of a decoded /addtask payload that the handler keeps. */
  datatype TaskData = TaskData(title: string, datetime: Option<int>)

  /** The record /addtask stores: a fresh id, the caller's chat id, not yet notified. */
  function NewTask(id: string, chatId: int, data: TaskData): (t: Task)
    ensures t.id == id && t.userId == chatId && !t.notified
    ensures t.title == data.title && t.datetime == data.datetime
  {
    Task(id, chatId, data.title, data.datetime, false)
  }

  /** The tasks owned by `userId`, in list order (`tasks.filter(task => task.userId == userId)`). */
  function MyTasks(tasks: seq<Task>, userId: int): (r: seq<Task>)
    ensures |r| <= |tasks|
    ensures forall t :: t in r <==> t in tasks && t.userId == userId
  {
    if tasks == [] then []
    else (if tasks[0].userId == userId then [tasks[0]] else []) + MyTasks(tasks[1..], userId)
  }

  /** Filtering commutes with concatenation, so the filter keeps the list's order. */
  lemma {:induction false} MyTasksAppend(a: seq<Task>, b: seq<Task>, userId: int)
    ensures MyTasks(a + b, userId) == MyTasks(a, userId) + MyTasks(b, userId)
  {
    if a == [] {
      assert a + b == b;
    } else {
      assert (a + b)[0] == a[0];
      assert (a + b)[1..] == a[1..] + b;
      MyTasksAppend(a[1..], b, userId);
    }
  }

  /** Every task in the filtered list belongs to `userId`; a list owned only by `userId` is kept whole. */
  lemma {:induction false} MyTasksAllOwned(tasks: seq<Task>, userId: int)
    ensures (forall i :: 0 <= i < |tasks| ==> tasks[i].userId == userId) <==> MyTasks(tasks, userId) == tasks
  {
    if tasks != [] {
      MyTasksAllOwned(tasks[1..], userId);
      if MyTasks(tasks, userId) == tasks {
        assert tasks[0] in MyTasks(tasks, userId);
        assert MyTasks(tasks[1..], userId) == tasks[1..];
        assert forall i :: 1 <= i < |tasks| ==> tasks[i] == tasks[1..][i - 1];
      }
    }
  }

  /**
   * After /addtask appends a record for `chatId`, the caller's listing gains
   * exactly that record at its end and every other user's listing is unchanged.
   */
  lemma AddedTaskListing(tasks: seq<Task>, id: string, chatId: int, data: TaskData, userId: int)
    ensures MyTasks(tasks + [NewTask(id, chatId, data)], userId) ==
            if userId == chatId then MyTasks(tasks, userId) + [NewTask(id, chatId, data)]
            else MyTasks(tasks, userId)
  {
    MyTasksAppend(tasks, [NewTask(id, chatId, data)], userId);
    assert [NewTask(id, chatId, data)][1..] == [];
  }
}
