# Task manager: task record, line codec and record store

This project models the core of `task_manager.cpp`, a single-user console
task tracker, in Dafny, and proves properties of that model. The core has
two parts:

- **The task record and its line codec** (`TaskRecord`, `Decimal`).
  - A task has an id, four free-text fields (title, description, priority,
    deadline) and a completed flag.
  - `serialize` writes the id as decimal text, then the four text fields,
    then `"1"` or `"0"`, joined with `|`. Nothing is escaped.
  - `deserialize` splits the line on every `|` with a character loop. It
    reads the id with `stoi` and sets the flag only when the sixth part is
    exactly `"1"`.
  - `to_string` and `stoi` are modelled as a to-text/parse pair.
    `stoi(to_string(n)) == n` is proved for every integer.
- **The record store** (`TaskStore`). The class `TaskManager` holds an
  ordered sequence of tasks and the counter `nextId` that stamps new tasks.
  - `addTask` stamps the counter and appends the task.
  - `deleteTask` removes every task with the id (`remove_if` then `erase`).
  - `markTaskCompleted` completes the first task with the id.
  - `saveToFile` produces one encoded line per task.
  - `loadFromFile` skips empty lines, decodes and appends the others, and
    raises the counter to `max(nextId, id + 1)`.
  - Files are replaced by sequences of lines.
  - The not-found outcomes, which the program only prints, are boolean
    results.

The store keeps one invariant throughout: the counter is at least 1 and
above every stored id (`TaskManager.Valid`). Every operation that changes
the store preserves it.

The specification functions are:

- `TaskRecord.Split` mirrors the accumulator loop of `deserialize`.
- `TaskRecord.Decode` is `deserialize` with explicit error results.
- `TaskStore.RemoveId` is the `remove_if`/`erase` filter.
- `TaskStore.MarkFirst` is the effect of `markTaskCompleted`.
- `TaskStore.Load` is the line loop of `loadFromFile`.

The methods with loops (`Deserialize`, `MarkTaskCompleted`, `SaveLines`,
`LoadLines`) are proved against these functions. The lemmas state what the
functions mean.

Three behaviours of the code shape the model:

- **Ids are reused after a reload.** `saveToFile` writes the tasks only;
  `nextId` is never saved (task_manager.cpp:127-134). `loadFromFile` starts
  from the counter of a fresh store, 1, and raises it past the loaded ids
  only (task_manager.cpp:145). So the id of a deleted newest task is
  handed out again after a reload (`TaskStore.IdReusedAfterReload`).
- **The store has no edit operation.** `TaskManager` offers add, delete,
  mark completed, list, save and load. `Task::editTask` exists, but nothing
  calls it, so only `TaskRecord.Edit` is modelled.
- **Malformed lines are not guarded against.** A saved line with fewer than
  six parts makes `deserialize` read past the end of its part vector.
  With exactly five parts, `stoi` reads the id first: a non-numeric id
  throws there, and a numeric one leads to the read of the missing sixth
  part. A non-numeric id in a line with six or more parts makes `stoi`
  throw, and the exception leaves `loadFromFile`.

  The model makes each of these an error result of `Decode`
  (`TooFewFields`, `BadId`). The load stops at the first such line and
  reports `false`, keeping the tasks already appended.

## Model

| member | source | states |
|---|---|---|
| Decimal.NatToStringShape | task_manager.cpp:57 | the decimal text of a natural number is a non-empty run of digits with no leading zero |
| Decimal.IntToString | task_manager.cpp:57 | `to_string(n)` is never empty and starts with `-` exactly when n is negative |
| Decimal.IntToStringShape | task_manager.cpp:57 | `to_string(n)` starts with `-` exactly when n is negative and with a digit otherwise, and every later character is a digit, so it never contains `\|` |
| Decimal.DigitsValueOfNatToString | task_manager.cpp:57 | reading the digits of `to_string(n)` back gives n |
| Decimal.LeadingDigitsLongest | task_manager.cpp:74 | the digits `stoi` reads are a prefix of the text that no further digit could extend |
| Decimal.SkipSpacesSuffix | task_manager.cpp:74 | what `stoi` skips is a prefix made only of white space, and what remains does not start with white space |
| Decimal.ParseDigits | task_manager.cpp:74 | digits are read exactly when the text starts with a digit |
| Decimal.Stoi | task_manager.cpp:74 | `stoi` yields a number exactly when, after leading white space, the text starts with a digit or with a sign followed by a digit; a negative result comes only after a `-` |
| Decimal.StoiOfIntToString | task_manager.cpp:74 | `stoi(to_string(n)) == n` for every integer n |
| Decimal.StoiIgnoresTail | task_manager.cpp:74 | `stoi` reads `to_string(n)` followed by any text that starts with a non-digit as n |
| Decimal.ParseNatToString | task_manager.cpp:74 | the digits of a natural number, followed by a non-digit, parse back as that number |
| Decimal.StoiMinus | task_manager.cpp:74 | a leading `-` followed by digits worth v is read as -v |
| Decimal.StoiUnsigned | task_manager.cpp:74 | text that starts with a digit is read as the value of its leading digits |
| Decimal.LeadingDigitsOfDigitsThen | task_manager.cpp:74 | `stoi` stops reading exactly where a run of digits ends |
| TaskRecord.NewTask | task_manager.cpp:21-28 | a new task carries the given id and text fields and is not completed |
| TaskRecord.MarkCompleted | task_manager.cpp:38 | the flag becomes true and every other field is kept |
| TaskRecord.Edit | task_manager.cpp:40-45 | the four text fields are replaced, while the id and the flag are kept |
| TaskRecord.Split | task_manager.cpp:62-72 | the split loop always yields at least one part |
| TaskRecord.SplitCount | task_manager.cpp:62-72 | the split loop yields one more part than the line has `\|` characters |
| TaskRecord.SplitPartsSepFree | task_manager.cpp:62-72 | no part yielded by the split loop contains `\|` |
| TaskRecord.JoinSplit | task_manager.cpp:62-72 | joining the parts with `\|` rebuilds the line exactly |
| TaskRecord.JoinSplitStep | task_manager.cpp:63-71 | after one more character of the loop, joining the parts still gives back exactly the text read so far |
| TaskRecord.SplitJoin | task_manager.cpp:62-72 | splitting a `\|`-join of `\|`-free parts gives those parts back |
| TaskRecord.SplitAppendFree | task_manager.cpp:68-70 | `\|`-free text extends the current part and leaves the earlier parts alone |
| TaskRecord.SplitPrefix | task_manager.cpp:62-72 | parts already closed by a `\|` do not change whatever text follows |
| TaskRecord.Encode | task_manager.cpp:56-58 | the serialized line starts with the id's decimal text and ends with `1` for a completed task and `0` otherwise |
| TaskRecord.Decode | task_manager.cpp:61-77 | decoding fails for too few fields exactly when the line splits into fewer than six parts, and for the id exactly when there are six and `stoi` rejects the first; otherwise the id is `stoi` of part 1, the text fields are parts 2 to 5, and the task is completed exactly when part 6 is `"1"` |
| TaskRecord.EncodeIsJoin | task_manager.cpp:56-58 | the serialized line is the six fields joined with `\|` |
| TaskRecord.EncodeShape | task_manager.cpp:57 | for `\|`-free text fields, the line splits into exactly the six fields with five `\|`, its last field is `"1"` exactly when the task is completed, and it is never empty |
| TaskRecord.DecodeEncode | task_manager.cpp:56-77 | decoding a serialized task gives back the same id, text fields and flag when no text field contains `\|` |
| TaskRecord.EncodeDecode | task_manager.cpp:56-77 | serializing a decoded line gives the line back when the line is in the canonical six-field form |
| TaskRecord.DecodeTooFew | task_manager.cpp:74-75 | decoding fails for too few fields exactly when the line has fewer than five `\|` |
| TaskRecord.DecodeIgnoresExtra | task_manager.cpp:74-75 | parts after the sixth do not change the decoded task |
| TaskRecord.Deserialize | task_manager.cpp:61-77 | the character loop and the rebuild compute `Decode(line)`, with the invariant that the parts so far plus the open part are the split of the prefix read |
| TaskStore.Max | task_manager.cpp:145 | `max` is an upper bound of both arguments and equals one of them |
| TaskStore.RemoveId | task_manager.cpp:107-109 | removal never grows the store and keeps no task with the id |
| TaskStore.RemoveIdShape | task_manager.cpp:106-113 | no kept task has the id, and the store shrinks exactly when some task had it |
| TaskStore.RemoveIdMembers | task_manager.cpp:107 | every kept task comes from the store, and every task with another id is kept |
| TaskStore.RemoveIdAppend | task_manager.cpp:107 | removal works piecewise, so the kept tasks keep their relative order |
| TaskStore.RemoveIdAppendStep | task_manager.cpp:107 | removal over one more task at the end extends the piecewise law |
| TaskStore.RemoveIdAbsent | task_manager.cpp:108-112 | a store without the id is left exactly as it is |
| TaskStore.RemoveIdDistinct | task_manager.cpp:106-113 | removal keeps the ids of a store with distinct ids distinct |
| TaskStore.DeleteIsFinal | task_manager.cpp:106-125 | after a delete the id is gone, so a later delete or mark of it reports not found |
| TaskStore.IndexOf | task_manager.cpp:117-118 | the position found holds the id, and no earlier task has it |
| TaskStore.MarkFirst | task_manager.cpp:116-125 | the first task with the id is completed, every other task and every id is unchanged, and a store without the id is unchanged |
| TaskStore.MarkFirstIdempotent | task_manager.cpp:116-125 | marking the same id twice is the same as marking it once |
| TaskStore.IndexOfSameIds | task_manager.cpp:117-118 | the first position of an id depends only on the ids |
| TaskStore.Classify | task_manager.cpp:142-143 | a line is skipped exactly when it is empty, yields the task it decodes to, and is malformed exactly when it is non-empty and does not decode |
| TaskStore.ClassifyAllAt | task_manager.cpp:141-147 | the kind of each line depends only on that line |
| TaskStore.FirstBadIs | task_manager.cpp:141-147 | the first malformed line is at i when no earlier line is malformed and line i is (or i is the end) |
| TaskStore.FirstBadShape | task_manager.cpp:141-147 | no line before the first malformed one is malformed |
| TaskStore.TasksPrefixCons | task_manager.cpp:142-144 | the tasks of a run of lines are those of its first line followed by those of the rest |
| TaskStore.TasksOfGood | task_manager.cpp:141-147 | lines that all decode yield their tasks in line order, and none is malformed |
| TaskStore.RaiseNext | task_manager.cpp:145 | the counter raised past a run of tasks is at least its start and above every one of their ids |
| TaskStore.RaiseNextIsLeast | task_manager.cpp:145 | the raised counter is its start value or one past some loaded id |
| TaskStore.RaiseNextAppend | task_manager.cpp:145 | raising past two runs of tasks is raising past the first and then the second |
| TaskStore.RaiseNextCons | task_manager.cpp:145 | raising past one task is `max(n, id + 1)`, and the rest follow from there |
| TaskStore.RaiseNextBelow | task_manager.cpp:145 | the raised counter stays at or below any bound above the start and every id |
| TaskStore.Load | task_manager.cpp:141-146 | loading only appends to the tasks already held, never lowers the counter, and leaves it above the id of every appended task |
| TaskStore.LoadMeaning | task_manager.cpp:141-147 | loading appends the tasks of the lines before the first malformed one, in line order, raises the counter past exactly their ids, and succeeds exactly when no line is malformed |
| TaskStore.LoadAllGood | task_manager.cpp:141-147 | loading lines that all decode into an empty store gives their tasks, in order, and succeeds |
| TaskStore.LineRoundTrip | task_manager.cpp:130 | a saved line of a `\|`-free task is read back as that task |
| TaskStore.ClassifySaved | task_manager.cpp:129-131 | every saved line of `\|`-free tasks is read back as its task |
| TaskStore.LoadSaved | task_manager.cpp:127-150 | loading the saved lines of `\|`-free tasks into a fresh store gives the same tasks in the same order |
| TaskStore.IdReusedAfterReload | task_manager.cpp:136-150 | after task 3 of tasks 1, 2, 3 is deleted and the store is reloaded, the counter is 3 again, so id 3 is reused |
| TaskStore.TaskManager.constructor | task_manager.cpp:87 | a new store is empty, its counter is 1, and the invariant holds |
| TaskStore.TaskManager.AddTask | task_manager.cpp:89-91 | exactly one pending task is appended, with the old counter as its id, and the counter goes up by one; earlier tasks are unchanged, the new id was unused, and distinct ids stay distinct |
| TaskStore.TaskManager.DeleteTask | task_manager.cpp:106-113 | the store becomes `RemoveId` of the old store, found is true exactly when some task had the id, nothing changes when none had it, and the counter is untouched |
| TaskStore.TaskManager.MarkTaskCompleted | task_manager.cpp:116-125 | the loop completes the first task with the id (`MarkFirst`), found is true exactly when some task had it, nothing changes otherwise, and the counter is untouched |
| TaskStore.TaskManager.SaveLines | task_manager.cpp:127-134 | one line per task, in store order, each the task's serialized form |
| TaskStore.TaskManager.LoadLines | task_manager.cpp:136-150 | the line loop leaves the store and counter given by `Load` on the lines, and keeps the invariant |
| TaskStore.TaskManager.LoadLine | task_manager.cpp:142-146 | an empty line changes nothing; a line that decodes appends its task and raises the counter to `max(nextId, id + 1)`; a malformed line changes nothing and reports false |
| TaskStore.Reload | task_manager.cpp:127-150 | saving a store of `\|`-free tasks and loading the lines into a fresh store succeeds and gives the same tasks in the same order, with a counter no larger than the old one |

## Left out

- The menu loop in `main` and the console printing in `displayTask` and
  `listTasks`, including the status messages. These are I/O. Only the
  found/not-found outcomes are kept, as boolean results.
- Opening, writing, reading and closing the file. Saving produces a
  sequence of lines and loading consumes one. A missing file is the empty
  sequence of lines.
- The newline that ends each saved line, and `getline` splitting the file
  at newlines. A text field that contains a newline would be split across
  two lines in the real file. `TaskStore.Reload` hands the saved lines
  over directly, so it does not capture that case.
- The getters (`getId` and the others) are record field selections and
  have no members of their own.
- `TaskRecord.Decode`: does not model `std::out_of_range` from `stoi` for
  ids outside the range of `int`, because integers are unbounded here.
- `TaskStore.TaskManager.AddTask`: does not model overflow of `nextId++`
  past the largest `int`, because integers are unbounded here.
- `TaskStore.TaskManager.LoadLine`: does not model overflow of `id + 1`
  for the largest `int` id, for the same reason.
- `TaskStore.TaskManager.LoadLines`: a malformed line ends the load with
  `false`. The source has no defined behaviour there: an out-of-bounds
  vector access, or an exception that ends the program. The model does not
  capture either.
- `TaskStore.TaskManager.DeleteTask`: `remove_if` followed by `erase` is a
  library algorithm. It is modelled by its result (the filter `RemoveId`),
  not as an in-place compaction loop.
- `Task::markCompleted` and `Task::editTask` update a task in place. A task
  has value semantics: the vector owns its elements and no two holders
  share one. `markTaskCompleted` reaches the stored element through an
  `auto&` reference, and the `remove_if` predicate takes a `Task&` but only
  reads it. So the two mutators are modelled as functions that return the
  updated task (`TaskRecord.MarkCompleted`, `TaskRecord.Edit`). The
  in-place flag update of the stored element is the sequence update in
  `TaskStore.TaskManager.MarkTaskCompleted`.
