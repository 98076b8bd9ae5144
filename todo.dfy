/** The task list of the todo command-line tool: an ordered sequence of task
    records, addressed by 1-based position, that the command line loads,
    changes with one operation and saves back. */
module Todo {

  /** A point in time. The wall clock is not modelled: callers pass "now". */
  type Time = nat

  /** The zero time value, which a task carries as its completion time until
      it is completed. */
  const ZeroTime: Time := 0

  newtype byte = b: int | 0 <= b < 256

  /** One task record. */
  datatype Item = Item(task: string, done: bool, createdAt: Time, completedAt: Time)

  /** The errors the list operations hand back to their caller. */
  datatype Error =
    | InvalidIndex              // a position outside 1..length
    | ReadFailed(reason: string)  // the file exists but could not be read
    | DecodeFailed(reason: string) // the file's bytes are not a task list

  /** Go's `error` result: nil, or an error value. */
  datatype Outcome = Ok | Fail(error: Error)

  /** What reading the storage file produced. */
  datatype ReadOutcome =
    | NotExist                  // the file does not exist
    | ReadErr(reason: string)   // any other read failure
    | Read(bytes: seq<byte>)    // the file's contents

  /** What decoding a non-empty file produced. The decoder is handed a
      pointer to Load's own copy of the receiver, so a JSON `null` resets
      that copy and leaves the caller's list alone. */
  datatype Decoded =
    | Parsed(tasks: seq<Item>)  // a JSON array of tasks
    | Null                      // the JSON literal null
    | Malformed(reason: string) // not a task list

  /** The bounds check of CompleteTask and DeleteTask: a position is valid
      exactly when it is neither <= 0 nor past the end. */
  predicate InRange(index: int, n: int)
  {
    !(index <= 0 || index > n)
  }

  /** The task that AddTask appends. */
  function NewItem(task: string, now: Time): (it: Item)
    ensures it.task == task && !it.done
    ensures it.createdAt == now && it.completedAt == ZeroTime
  {
    Item(task, false, now, ZeroTime)
  }

  /** The list after the task at `index` is marked done at time `now`. */
  function MarkDone(s: seq<Item>, index: int, now: Time): (r: seq<Item>)
    requires InRange(index, |s|)
    ensures |r| == |s|
    ensures r[index - 1].done && r[index - 1].completedAt == now
    ensures r[index - 1].task == s[index - 1].task
    ensures r[index - 1].createdAt == s[index - 1].createdAt
    ensures forall j :: 0 <= j < |s| && j != index - 1 ==> r[j] == s[j]
  {
    s[index - 1 := s[index - 1].(done := true, completedAt := now)]
  }

  /** The list after the task at `index` is removed. */
  function Removed(s: seq<Item>, index: int): (r: seq<Item>)
    requires InRange(index, |s|)
    ensures |r| == |s| - 1
    ensures forall j :: 0 <= j < index - 1 ==> r[j] == s[j]
    ensures forall j :: index - 1 <= j < |r| ==> r[j] == s[j + 1]
  {
    s[..index - 1] + s[index..]
  }

  /** The tasks of `s` whose done flag is `done`, in the order of `s`. */
  function WithStatus(s: seq<Item>, done: bool): (r: seq<Item>)
    ensures |r| <= |s|
  {
    if s == [] then []
    else
      var last := s[|s| - 1];
      assert s == s[..|s| - 1] + [last];
      WithStatus(s[..|s| - 1], done) + (if last.done == done then [last] else [])
  }

  /** The filter keeps exactly the tasks with the wanted status. */
  lemma {:induction false} WithStatusMembers(s: seq<Item>, done: bool, x: Item)
    ensures x in WithStatus(s, done) <==> x in s && x.done == done
    decreases |s|
  {
    if s != [] {
      var init := s[..|s| - 1];
      WithStatusMembers(init, done, x);
      assert s == init + [s[|s| - 1]];
    }
  }

  /** Filtering distributes over concatenation: it keeps the relative order
      of the tasks it keeps. */
  lemma {:induction false} WithStatusAppend(s: seq<Item>, t: seq<Item>, done: bool)
    ensures WithStatus(s + t, done) == WithStatus(s, done) + WithStatus(t, done)
    decreases |t|
  {
    if t == [] {
      assert s + t == s;
    } else {
      var init := t[..|t| - 1];
      assert (s + t)[..|s + t| - 1] == s + init;
      WithStatusAppend(s, init, done);
    }
  }

  /** A list whose tasks all have the wanted status is its own filter. */
  lemma {:induction false} WithStatusAll(s: seq<Item>, done: bool)
    requires forall j :: 0 <= j < |s| ==> s[j].done == done
    ensures WithStatus(s, done) == s
    ensures WithStatus(s, !done) == []
    decreases |s|
  {
    if s != [] {
      WithStatusAll(s[..|s| - 1], done);
    }
  }

  /** Every task is either completed or pending: the two filters split the
      list, by count and by content. */
  lemma {:induction false} StatusPartition(s: seq<Item>)
    ensures |WithStatus(s, true)| + |WithStatus(s, false)| == |s|
    ensures multiset(WithStatus(s, true)) + multiset(WithStatus(s, false)) == multiset(s)
    decreases |s|
  {
    if s != [] {
      var init, last := s[..|s| - 1], s[|s| - 1];
      StatusPartition(init);
      assert s == init + [last];
      assert multiset(s) == multiset(init) + multiset{last};
      if last.done {
        assert WithStatus(s, true) == WithStatus(init, true) + [last];
        assert WithStatus(s, false) == WithStatus(init, false);
      } else {
        assert WithStatus(s, true) == WithStatus(init, true);
        assert WithStatus(s, false) == WithStatus(init, false) + [last];
      }
    }
  }

  /** Adding a task adds one pending task at the end of the pending list and
      leaves the completed list as it was. */
  lemma PendingAfterAdd(s: seq<Item>, task: string, now: Time)
    ensures WithStatus(s + [NewItem(task, now)], false) == WithStatus(s, false) + [NewItem(task, now)]
    ensures WithStatus(s + [NewItem(task, now)], true) == WithStatus(s, true)
  {
  }

  /** The filter of a list, split around the task at position `k`. */
  lemma WithStatusSplit(s: seq<Item>, k: nat, done: bool)
    requires k < |s|
    ensures WithStatus(s, done)
            == WithStatus(s[..k], done) + (if s[k].done == done then [s[k]] else []) + WithStatus(s[k + 1..], done)
  {
    assert s == s[..k] + [s[k]] + s[k + 1..];
    assert WithStatus([s[k]], done) == (if s[k].done == done then [s[k]] else []) by {
      assert [s[k]][..0] == [];
    }
    WithStatusAppend(s[..k] + [s[k]], s[k + 1..], done);
    WithStatusAppend(s[..k], [s[k]], done);
  }

  /** Filtering a list after one position is overwritten. */
  lemma WithStatusUpdate(s: seq<Item>, k: nat, x: Item, done: bool)
    requires k < |s|
    ensures WithStatus(s[k := x], done)
            == WithStatus(s[..k], done) + (if x.done == done then [x] else []) + WithStatus(s[k + 1..], done)
  {
    var r := s[k := x];
    assert r[..k] == s[..k];
    assert r[k + 1..] == s[k + 1..];
    WithStatusSplit(r, k, done);
  }

  /** Deleting a task removes it from whichever filtered list held it. */
  lemma PendingAfterDelete(s: seq<Item>, index: int)
    requires InRange(index, |s|)
    ensures |WithStatus(Removed(s, index), false)|
            == |WithStatus(s, false)| - (if s[index - 1].done then 0 else 1)
    ensures |WithStatus(Removed(s, index), true)|
            == |WithStatus(s, true)| - (if s[index - 1].done then 1 else 0)
  {
    var k := index - 1;
    assert Removed(s, index) == s[..k] + s[k + 1..];
    WithStatusSplit(s, k, false);
    WithStatusSplit(s, k, true);
    WithStatusAppend(s[..k], s[k + 1..], false);
    WithStatusAppend(s[..k], s[k + 1..], true);
  }

  /** Completing a task takes it off the pending list exactly as deleting it
      would. */
  lemma CompleteLeavesPending(s: seq<Item>, index: int, now: Time)
    requires InRange(index, |s|)
    ensures WithStatus(MarkDone(s, index, now), false) == WithStatus(Removed(s, index), false)
  {
    var k := index - 1;
    var x := s[k].(done := true, completedAt := now);
    WithStatusUpdate(s, k, x, false);
    WithStatusAppend(s[..k], s[k + 1..], false);
  }

  /** Completing a task lowers the pending count by one, unless it was
      already done. */
  lemma PendingAfterComplete(s: seq<Item>, index: int, now: Time)
    requires InRange(index, |s|)
    ensures |WithStatus(MarkDone(s, index, now), false)|
            == |WithStatus(s, false)| - (if s[index - 1].done then 0 else 1)
  {
    CompleteLeavesPending(s, index, now);
    PendingAfterDelete(s, index);
  }

  /** Completing the same task twice is allowed: it leaves the task done and
      only the later completion time survives. */
  lemma CompleteTwice(s: seq<Item>, index: int, first: Time, second: Time)
    requires InRange(index, |s|)
    ensures MarkDone(MarkDone(s, index, first), index, second) == MarkDone(s, index, second)
    ensures MarkDone(MarkDone(s, index, first), index, second)[index - 1].done
  {
  }

  /** The task list. Go's `List` is a slice that the methods reassign through
      their pointer receiver; here it is the field `items`. */
  class TaskList {
    var items: seq<Item>

    /** An empty list, as the command line creates before loading. */
    constructor ()
      ensures items == []
    {
      items := [];
    }

    /** Appends a new pending task created at `now`. */
    method AddTask(task: string, now: Time)
      modifies this
      ensures items == old(items) + [NewItem(task, now)]
      ensures |items| == |old(items)| + 1
      ensures items[|items| - 1] == NewItem(task, now)
    {
      var item := NewItem(task, now);
      items := items + [item];
    }

    /** Marks the task at 1-based `index` done at time `now`; fails and
        changes nothing when `index` is out of range. */
    method CompleteTask(index: int, now: Time) returns (err: Outcome)
      modifies this
      ensures err.Fail? <==> !InRange(index, |old(items)|)
      ensures err.Fail? ==> err.error == InvalidIndex && items == old(items)
      ensures err.Ok? ==> items == MarkDone(old(items), index, now)
    {
      var ls := items;
      if index <= 0 || index > |ls| {
        return Fail(InvalidIndex);
      }
      items := ls[index - 1 := ls[index - 1].(done := true)];
      items := items[index - 1 := items[index - 1].(completedAt := now)];
      err := Ok;
    }

    /** Removes the task at 1-based `index`, shifting the later tasks down by
        one; fails and changes nothing when `index` is out of range. */
    method DeleteTask(index: int) returns (err: Outcome)
      modifies this
      ensures err.Fail? <==> !InRange(index, |old(items)|)
      ensures err.Fail? ==> err.error == InvalidIndex && items == old(items)
      ensures err.Ok? ==> items == Removed(old(items), index)
    {
      var ls := items;
      if index <= 0 || index > |ls| {
        return Fail(InvalidIndex);
      }
      items := ls[..index - 1] + ls[index..];
      err := Ok;
    }

    /** Populates the list from what reading the storage file produced;
        `unmarshal` stands for the JSON decoder. A missing or zero-length
        file is not an error and leaves the list as it was. */
    method Load(read: ReadOutcome, unmarshal: seq<byte> -> Decoded) returns (err: Outcome)
      modifies this
      ensures read.NotExist? ==> err == Ok && items == old(items)
      ensures read.ReadErr? ==> err == Fail(ReadFailed(read.reason)) && items == old(items)
      ensures read.Read? && |read.bytes| == 0 ==> err == Ok && items == old(items)
      ensures read.Read? && |read.bytes| > 0 && unmarshal(read.bytes).Parsed? ==>
                err == Ok && items == unmarshal(read.bytes).tasks
      ensures read.Read? && |read.bytes| > 0 && unmarshal(read.bytes).Null? ==>
                err == Ok && items == old(items)
      ensures read.Read? && |read.bytes| > 0 && unmarshal(read.bytes).Malformed? ==>
                err == Fail(DecodeFailed(unmarshal(read.bytes).reason)) && items == old(items)
    {
      match read
      case NotExist =>
        return Ok;
      case ReadErr(reason) =>
        return Fail(ReadFailed(reason));
      case Read(file) =>
        if |file| == 0 {
          return Ok;
        }
        match unmarshal(file)
        case Null =>
          return Ok;
        case Malformed(reason) =>
          return Fail(DecodeFailed(reason));
        case Parsed(tasks) =>
          items := tasks;
          return Ok;
    }

    /** The whole list, in stored order. */
    method ListTasks() returns (all: seq<Item>)
      ensures all == items
    {
      all := items;
    }

    /** The completed tasks, in list order. */
    method ListCompletedTasks() returns (completed: seq<Item>)
      ensures completed == WithStatus(items, true)
      ensures forall x :: x in completed <==> x in items && x.done
    {
      completed := [];
      var i := 0;
      while i < |items|
        invariant 0 <= i <= |items|
        invariant completed == WithStatus(items[..i], true)
      {
        var item := items[i];
        assert items[..i + 1][..i] == items[..i];
        if item.done {
          completed := completed + [item];
        }
        i := i + 1;
      }
      assert items[..i] == items;
      forall x {
        WithStatusMembers(items, true, x);
      }
    }

    /** The pending tasks, in list order. */
    method ListPendingTasks() returns (pending: seq<Item>)
      ensures pending == WithStatus(items, false)
      ensures forall x :: x in pending <==> x in items && !x.done
    {
      pending := [];
      var i := 0;
      while i < |items|
        invariant 0 <= i <= |items|
        invariant pending == WithStatus(items[..i], false)
      {
        var item := items[i];
        assert items[..i + 1][..i] == items[..i];
        if !item.done {
          pending := pending + [item];
        }
        i := i + 1;
      }
      assert items[..i] == items;
      forall x {
        WithStatusMembers(items, false, x);
      }
    }

    /** The number of pending tasks: the length of the pending list, which is
        the list's length less the number of completed tasks. */
    method CountPendingTasks() returns (count: int)
      ensures count == |WithStatus(items, false)|
      ensures count == |items| - |WithStatus(items, true)|
      ensures 0 <= count <= |items|
    {
      count := 0;
      var i := 0;
      while i < |items|
        invariant 0 <= i <= |items|
        invariant count == |WithStatus(items[..i], false)|
      {
        assert items[..i + 1][..i] == items[..i];
        if !items[i].done {
          count := count + 1;
        }
        i := i + 1;
      }
      assert items[..i] == items;
      StatusPartition(items);
    }
  }

  /** A caller of the list, walking through what the contracts above let it
      conclude: add, complete, delete and the filters. */
  method Scenario(t0: Time, t1: Time)
  {
    var l := new TaskList();
    l.AddTask("buy milk", t0);
    assert l.items == [Item("buy milk", false, t0, ZeroTime)];
    l.AddTask("walk dog", t0);
    l.AddTask("pay rent", t0);
    var e := l.CompleteTask(4, t1);
    assert e == Fail(InvalidIndex) && |l.items| == 3;
    e := l.CompleteTask(1, t1);
    assert e == Ok && l.items[0].done && l.items[0].completedAt == t1;
    var pending := l.CountPendingTasks();
    var added := [NewItem("buy milk", t0), NewItem("walk dog", t0), NewItem("pay rent", t0)];
    assert l.items == MarkDone(added, 1, t1);
    WithStatusAll(added, false);
    PendingAfterComplete(added, 1, t1);
    assert pending == 2;
    var third := l.items[2];
    e := l.DeleteTask(2);
    assert e == Ok && |l.items| == 2 && l.items[1] == third;
    e := l.DeleteTask(0);
    assert e == Fail(InvalidIndex);
  }
}
