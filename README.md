# todo_cli task list, modelled in Dafny

The todo command-line tool keeps an ordered list of tasks. Each task has a
description, a done flag, a creation time and a completion time. Tasks are
addressed by their 1-based position. The list is loaded from a JSON file,
changed by one operation (add, complete or delete), and saved back.

`todo.dfy` holds one module, `Todo`, that models `todo.go`:

- `Item` is the task record. Times are abstract (`Time = nat`) and the zero
  time is `ZeroTime = 0`.
- `TaskList` is a class whose field `items: seq<Item>` stands for Go's `List`
  slice. The Go methods reassign or write that slice through a pointer
  receiver, so the Dafny methods have `modifies this`.
- `AddTask`, `CompleteTask` and `DeleteTask` are proved against pure
  functions of the old list: `NewItem`, `MarkDone` and `Removed`. `Load` is
  proved against the read result and the decoder's result.
- The three read-only loops are proved against one filter, `WithStatus(s, done)`.
  Lemmas prove the filter keeps exactly the wanted tasks, keeps their order,
  and splits the list in two. They also prove how each operation changes the
  pending and completed lists.
- `time.Now()` becomes a `now` parameter of `AddTask` and `CompleteTask`.
- `Load` works on an abstract read result (`ReadOutcome`: file missing,
  other read error, or the file's bytes). The JSON decoder is passed in as a
  function `unmarshal`.
- `Scenario` is a client that walks through add, complete, count and delete
  using only the contracts.

Two behaviours of the code worth knowing:

- For a missing or zero-length file, `Load` returns success and leaves the
  list as it was; it does not clear it. The command line always loads into a
  fresh empty list, so in practice the list is empty.
- A completion time can change: `CompleteTask` on a task that is already done
  overwrites `CompletedAt`. `CompleteTwice` states this.

## Model

| member | source | states |
|---|---|---|
| Todo.NewItem | todo.go:29 | a new task has the given description, is not done, was created at `now`, and has the zero completion time |
| Todo.MarkDone | todo.go:43-44 | completing position `index` makes that task done with completion time `now`; its description and creation time are kept; the length and every other task are unchanged |
| Todo.Removed | todo.go:57 | deleting position `index` shortens the list by one; tasks before it stay in place; tasks after it move down one position with their values unchanged |
| Todo.WithStatus | todo.go:107-126 | the filtered list is never longer than the list |
| Todo.WithStatusMembers | todo.go:107-126 | a task is in the filtered list exactly when it is in the list and its done flag is the wanted one |
| Todo.WithStatusAppend | todo.go:107-126 | filtering a concatenation is the concatenation of the filters, so the relative order of kept tasks is preserved |
| Todo.WithStatusAll | todo.go:107-126 | a list whose tasks all have the wanted status filters to itself, and to the empty list for the other status |
| Todo.StatusPartition | todo.go:107-137 | completed count plus pending count is the list length, and the two filtered lists together are a permutation of the list |
| Todo.PendingAfterAdd | todo.go:28-31 | adding a task appends it to the pending list and leaves the completed list unchanged |
| Todo.CompleteLeavesPending | todo.go:43-44 | after completing a task, the pending list is what it would be after deleting that task |
| Todo.PendingAfterComplete | todo.go:43-44 | completing a task lowers the pending count by one, unless the task was already done |
| Todo.PendingAfterDelete | todo.go:57 | deleting a task lowers the pending count by one if it was pending, and the completed count by one if it was done |
| Todo.CompleteTwice | todo.go:37-47 | completing the same task twice equals completing it once at the later time; the task stays done |
| Todo.TaskList.constructor | cmd/todo/main.go:23 | the list starts empty |
| Todo.TaskList.AddTask | todo.go:28-31 | the list grows by exactly one; the new last task is `NewItem(task, now)`; earlier tasks are unchanged |
| Todo.TaskList.CompleteTask | todo.go:37-47 | fails with an invalid-index error exactly when `index <= 0` or `index > len`, and then the list is unchanged; otherwise the new list is `MarkDone(old, index, now)` |
| Todo.TaskList.DeleteTask | todo.go:51-59 | fails under the same bounds condition with the list unchanged; otherwise the new list is `Removed(old, index)` |
| Todo.TaskList.Load | todo.go:64-83 | a missing file, a zero-length file or a file holding JSON `null` gives success with the list unchanged; any other read error and any decode error are returned; decoded tasks replace the list |
| Todo.TaskList.ListTasks | todo.go:102-104 | returns the whole list in stored order |
| Todo.TaskList.ListCompletedTasks | todo.go:107-115 | returns `WithStatus(items, true)`: exactly the done tasks, in list order |
| Todo.TaskList.ListPendingTasks | todo.go:118-126 | returns `WithStatus(items, false)`: exactly the pending tasks, in list order |
| Todo.TaskList.CountPendingTasks | todo.go:129-137 | returns the length of the pending list, which is the list length minus the number of completed tasks, and lies between 0 and the length |

## Left out

- `Save` and the JSON encoding (todo.go:87-98): these are calls into `encoding/json` and `os`. The save-then-load round trip depends on library code that is not part of this model.
- Todo.TaskList.Load: the JSON decoder and the file read are parameters (`unmarshal`, `read`). On a decode error the model leaves the list unchanged. Go's decoder rejects syntax errors before it writes anything, but after a type error it may leave a partly decoded list.
- Aliasing: `ListTasks` returns the slice itself, which shares its backing array with the list. `DeleteTask` shifts that array in place. The model returns values, so a caller's earlier copy never sees a later change.
- Wall-clock time and time formatting: `time.Now()` is a parameter, and times are abstract naturals.
- `PrintTable` (todo.go:145-185): terminal rendering through the external `simpletable` package. It also numbers rows starting at 2, because it increments `i` and then prints `i + 1`.
- colors.go: ANSI colour wrappers used only for display.
- cmd/todo/main.go: flag parsing, error printing and exit codes around the operations above.
