/**
 * The record store `TaskManager` of task_manager.cpp: an ordered sequence
 * of tasks and the counter that stamps the next new task.  Files are
 * replaced by sequences of lines: saving produces the lines, loading
 * consumes them.
 */
module TaskStore {
  import opened Wrappers
  import opened TaskRecord

  function Max(a: int, b: int): (m: int)
    ensures m >= a && m >= b && (m == a || m == b)
  {
    if a >= b then a else b
  }

  /** Every id in `ts` is below `n`. */
  predicate IdsBelow(ts: seq<Task>, n: int)
  {
    forall i :: 0 <= i < |ts| ==> ts[i].id < n
  }

  /** No two tasks share an id. */
  predicate DistinctIds(ts: seq<Task>)
  {
    forall i, j :: 0 <= i < j < |ts| ==> ts[i].id != ts[j].id
  }

  predicate HasId(ts: seq<Task>, id: int)
  {
    exists i :: 0 <= i < |ts| && ts[i].id == id
  }

  // ---------------------------------------------------------------------
  // deleteTask: remove_if followed by erase
  // ---------------------------------------------------------------------

  /** The tasks of `ts` whose id is not `id`, in their original order. */
  function RemoveId(ts: seq<Task>, id: int): (r: seq<Task>)
    ensures |r| <= |ts|
    ensures forall i :: 0 <= i < |r| ==> r[i].id != id
  {
    if ts == [] then []
    else
      var last := ts[|ts| - 1];
      RemoveId(ts[..|ts| - 1], id) + (if last.id == id then [] else [last])
  }

  /**
   * No kept task has the id, and the store shrinks exactly when some task
   * had it.
   */
  lemma {:induction false} RemoveIdShape(ts: seq<Task>, id: int)
    ensures var r := RemoveId(ts, id);
      |r| <= |ts| &&
      (forall i :: 0 <= i < |r| ==> r[i].id != id) &&
      (|r| == |ts| <==> !HasId(ts, id))
  {
    if ts != [] {
      var init := ts[..|ts| - 1];
      var last := ts[|ts| - 1];
      RemoveIdShape(init, id);
      assert HasId(ts, id) <==> HasId(init, id) || last.id == id by {
        if HasId(ts, id) && last.id != id {
          var k :| 0 <= k < |ts| && ts[k].id == id;
          assert init[k].id == id;
        }
        if HasId(init, id) {
          var k :| 0 <= k < |init| && init[k].id == id;
          assert ts[k].id == id;
        }
      }
    }
  }

  /** Every kept task comes from the store and every task with another id is kept. */
  lemma {:induction false} RemoveIdMembers(ts: seq<Task>, id: int)
    ensures forall j :: 0 <= j < |RemoveId(ts, id)| ==> RemoveId(ts, id)[j] in ts
    ensures forall k :: 0 <= k < |ts| && ts[k].id != id ==> ts[k] in RemoveId(ts, id)
  {
    if ts != [] {
      var init := ts[..|ts| - 1];
      RemoveIdMembers(init, id);
      assert ts == init + [ts[|ts| - 1]];
      forall k | 0 <= k < |ts| - 1 && ts[k].id != id ensures ts[k] in RemoveId(ts, id) {
        assert ts[k] == init[k];
      }
    }
  }

  /** Removal works piecewise, so the kept tasks keep their relative order. */
  lemma {:induction false} RemoveIdAppend(a: seq<Task>, b: seq<Task>, id: int)
    ensures RemoveId(a + b, id) == RemoveId(a, id) + RemoveId(b, id)
  {
    if b == [] {
      assert a + b == a;
    } else {
      var b' := b[..|b| - 1];
      var t := b[|b| - 1];
      RemoveIdAppend(a, b', id);
      assert b == b' + [t];
      RemoveIdAppendStep(a, b', t, id);
    }
  }

  /** The inductive step of RemoveIdAppend: one more task at the end of `b`. */
  lemma RemoveIdAppendStep(a: seq<Task>, b: seq<Task>, t: Task, id: int)
    requires RemoveId(a + b, id) == RemoveId(a, id) + RemoveId(b, id)
    ensures RemoveId(a + (b + [t]), id) == RemoveId(a, id) + RemoveId(b + [t], id)
  {
    var tail := if t.id == id then [] else [t];
    calc {
      RemoveId(a + (b + [t]), id);
      { assert a + (b + [t]) == (a + b) + [t]; }
      RemoveId((a + b) + [t], id);
      { RemoveIdSnoc(a + b, t, id); }
      RemoveId(a + b, id) + tail;
      (RemoveId(a, id) + RemoveId(b, id)) + tail;
      RemoveId(a, id) + (RemoveId(b, id) + tail);
      { RemoveIdSnoc(b, t, id); }
      RemoveId(a, id) + RemoveId(b + [t], id);
    }
  }

  /** One more task is kept exactly when its id differs. */
  lemma RemoveIdSnoc(ts: seq<Task>, t: Task, id: int)
    ensures RemoveId(ts + [t], id) == RemoveId(ts, id) + (if t.id == id then [] else [t])
  {
    assert (ts + [t])[..|ts|] == ts;
  }

  /** A store without the id is left as it is. */
  lemma {:induction false} RemoveIdAbsent(ts: seq<Task>, id: int)
    requires !HasId(ts, id)
    ensures RemoveId(ts, id) == ts
  {
    if ts != [] {
      var init := ts[..|ts| - 1];
      assert !HasId(init, id) by {
        forall i | 0 <= i < |init| ensures init[i].id != id {
          assert init[i] == ts[i];
        }
      }
      RemoveIdAbsent(init, id);
      assert ts == init + [ts[|ts| - 1]];
    }
  }

  /** Removing tasks from a store with distinct ids leaves the ids distinct. */
  lemma {:induction false} RemoveIdDistinct(ts: seq<Task>, id: int)
    requires DistinctIds(ts)
    ensures DistinctIds(RemoveId(ts, id))
  {
    if ts != [] {
      var init := ts[..|ts| - 1];
      var last := ts[|ts| - 1];
      var r' := RemoveId(init, id);
      RemoveIdDistinct(init, id);
      RemoveIdMembers(init, id);
      if last.id != id {
        var r := r' + [last];
        forall i, j | 0 <= i < j < |r| ensures r[i].id != r[j].id {
          if j == |r| - 1 {
            assert r[i] in init;
            var k :| 0 <= k < |init| && init[k] == r[i];
            assert ts[k] == init[k];
          } else {
            assert r[i] == r'[i] && r[j] == r'[j];
          }
        }
      }
    }
  }

  // ---------------------------------------------------------------------
  // markTaskCompleted: the first task with the id
  // ---------------------------------------------------------------------

  /** Position of the first task with `id`, or |ts| when there is none. */
  function IndexOf(ts: seq<Task>, id: int): (k: nat)
    ensures k <= |ts|
    ensures k < |ts| ==> ts[k].id == id
    ensures forall j :: 0 <= j < k ==> ts[j].id != id
  {
    if ts == [] then 0
    else if ts[0].id == id then 0
    else 1 + IndexOf(ts[1..], id)
  }

  /**
   * `ts` with the first task carrying `id` marked completed: that task's
   * flag is set, every other task is as it was, and a store without the id
   * is left unchanged.
   */
  function MarkFirst(ts: seq<Task>, id: int): (r: seq<Task>)
    ensures |r| == |ts|
    ensures forall j :: 0 <= j < |ts| ==> r[j].id == ts[j].id
    ensures HasId(ts, id) ==> r[IndexOf(ts, id)] == MarkCompleted(ts[IndexOf(ts, id)])
    ensures forall j :: 0 <= j < |ts| && j != IndexOf(ts, id) ==> r[j] == ts[j]
    ensures !HasId(ts, id) ==> r == ts
  {
    var k := IndexOf(ts, id);
    if k < |ts| then ts[k := MarkCompleted(ts[k])] else ts
  }

  /** Marking the same id twice is the same as marking it once. */
  lemma MarkFirstIdempotent(ts: seq<Task>, id: int)
    ensures MarkFirst(MarkFirst(ts, id), id) == MarkFirst(ts, id)
  {
    var r := MarkFirst(ts, id);
    var k := IndexOf(ts, id);
    assert IndexOf(r, id) == k by {
      IndexOfSameIds(ts, r, id);
    }
  }

  /** The first position of an id depends only on the ids. */
  lemma {:induction false} IndexOfSameIds(a: seq<Task>, b: seq<Task>, id: int)
    requires |a| == |b|
    requires forall j :: 0 <= j < |a| ==> a[j].id == b[j].id
    ensures IndexOf(a, id) == IndexOf(b, id)
  {
    if a != [] && a[0].id != id {
      IndexOfSameIds(a[1..], b[1..], id);
    }
  }

  /** After a delete, the id is gone: marking or deleting it again reports not found. */
  lemma {:induction false} DeleteIsFinal(ts: seq<Task>, id: int)
    ensures !HasId(RemoveId(ts, id), id)
    ensures IndexOf(RemoveId(ts, id), id) == |RemoveId(ts, id)|
  {
    RemoveIdShape(ts, id);
  }

  // ---------------------------------------------------------------------
  // saveToFile and loadFromFile, on sequences of lines
  // ---------------------------------------------------------------------

  /** What the load makes of one line. */
  datatype LineKind = Blank | Good(task: Task) | Bad

  /** Empty lines are skipped; any other line is decoded, and a line that fails to decode is malformed. */
  function Classify(line: string): (kind: LineKind)
    ensures kind.Blank? <==> line == ""
    ensures kind.Good? ==> Decode(line) == Success(kind.task)
    ensures kind.Bad? <==> line != "" && Decode(line).Failure?
  {
    if line == "" then Blank
    else match Decode(line)
      case Success(t) => Good(t)
      case Failure(_) => Bad
  }

  function ClassifyAll(lines: seq<string>): (kinds: seq<LineKind>)
    ensures |kinds| == |lines|
  {
    if lines == [] then []
    else ClassifyAll(lines[..|lines| - 1]) + [Classify(lines[|lines| - 1])]
  }

  lemma {:induction false} ClassifyAllAt(lines: seq<string>, i: nat)
    requires i < |lines|
    ensures ClassifyAll(lines)[i] == Classify(lines[i])
  {
    if i < |lines| - 1 {
      ClassifyAllAt(lines[..|lines| - 1], i);
    }
  }

  /** Position of the first malformed line, or |kinds| when there is none. */
  function FirstBad(kinds: seq<LineKind>): (k: nat)
    ensures k <= |kinds|
  {
    if kinds == [] || kinds[0].Bad? then 0 else 1 + FirstBad(kinds[1..])
  }

  /** FirstBad(kinds) is i exactly when no line before i is malformed and line i is, or i is the end. */
  lemma {:induction false} FirstBadIs(kinds: seq<LineKind>, i: nat)
    requires i <= |kinds|
    requires forall j :: 0 <= j < i ==> !kinds[j].Bad?
    requires i < |kinds| ==> kinds[i].Bad?
    ensures FirstBad(kinds) == i
  {
    if i > 0 {
      FirstBadIs(kinds[1..], i - 1);
    }
  }

  /** Before FirstBad(kinds) no line is malformed, and at it one is, unless it is the end. */
  lemma {:induction false} FirstBadShape(kinds: seq<LineKind>)
    ensures forall j :: 0 <= j < FirstBad(kinds) ==> !kinds[j].Bad?
    ensures FirstBad(kinds) < |kinds| ==> kinds[FirstBad(kinds)].Bad?
  {
    if kinds != [] && !kinds[0].Bad? {
      FirstBadShape(kinds[1..]);
    }
  }

  /** The decoded tasks, in line order, skipping blank lines. */
  function Tasks(kinds: seq<LineKind>): (ts: seq<Task>)
    ensures |ts| <= |kinds|
  {
    if kinds == [] then []
    else (if kinds[0].Good? then [kinds[0].task] else []) + Tasks(kinds[1..])
  }

  /** The outcome of loading: the store's tasks and counter, and whether every line was read. */
  datatype Loaded = Loaded(tasks: seq<Task>, nextId: int, ok: bool)

  /**
   * `loadFromFile` line by line on a store holding `ts` with counter `n`:
   * blank lines are skipped, a decoded task is appended and raises the
   * counter to `max(n, id + 1)`, and the first malformed line ends the load.
   */
  function Load(kinds: seq<LineKind>, ts: seq<Task>, n: int): (r: Loaded)
    ensures |ts| <= |r.tasks| && r.tasks[..|ts|] == ts
    ensures r.nextId >= n && IdsBelow(r.tasks[|ts|..], r.nextId)
  {
    if kinds == [] then Loaded(ts, n, true)
    else match kinds[0]
      case Blank => Load(kinds[1..], ts, n)
      case Bad => Loaded(ts, n, false)
      case Good(t) => Load(kinds[1..], ts + [t], Max(n, t.id + 1))
  }

  /**
   * Loading appends the tasks of the lines before the first malformed one,
   * raises the counter past exactly their ids, and succeeds exactly when
   * no line is malformed.
   */
  lemma {:induction false} LoadMeaning(kinds: seq<LineKind>, ts: seq<Task>, n: int)
    ensures var done := Tasks(kinds[..FirstBad(kinds)]);
      Load(kinds, ts, n) == Loaded(ts + done, RaiseNext(n, done), FirstBad(kinds) == |kinds|)
  {
    if kinds != [] && !kinds[0].Bad? {
      var rest := kinds[1..];
      var k := FirstBad(rest);
      var done' := Tasks(rest[..k]);
      TasksPrefixCons(kinds, k);
      assert FirstBad(kinds) == k + 1;
      if kinds[0].Good? {
        var t := kinds[0].task;
        var n' := Max(n, t.id + 1);
        calc {
          Load(kinds, ts, n);
          Load(rest, ts + [t], n');
          { LoadMeaning(rest, ts + [t], n'); }
          Loaded(ts + [t] + done', RaiseNext(n', done'), k == |rest|);
          { RaiseNextCons(n, t, done');
            assert ts + [t] + done' == ts + ([t] + done'); }
          Loaded(ts + ([t] + done'), RaiseNext(n, [t] + done'), k + 1 == |kinds|);
        }
      } else {
        assert Tasks(kinds[..k + 1]) == done';
        LoadMeaning(rest, ts, n);
      }
    }
  }

  /** The tasks of the first k + 1 lines: those of the first line, then those of the next k. */
  lemma TasksPrefixCons(kinds: seq<LineKind>, k: nat)
    requires k < |kinds|
    ensures Tasks(kinds[..k + 1]) == Tasks([kinds[0]]) + Tasks(kinds[1..][..k])
    ensures Tasks([kinds[0]]) == if kinds[0].Good? then [kinds[0].task] else []
  {
    assert kinds[..k + 1][1..] == kinds[1..][..k];
    assert [kinds[0]][1..] == [];
  }

  /** Raising past one task and then past the rest is raising past all of them. */
  lemma RaiseNextCons(n: int, t: Task, ts: seq<Task>)
    ensures RaiseNext(n, [t] + ts) == RaiseNext(Max(n, t.id + 1), ts)
  {
    RaiseNextAppend(n, [t], ts);
    assert [t][..0] == [];
  }

  /** Loading lines that all decode, into an empty store, gives their tasks in order. */
  lemma LoadAllGood(kinds: seq<LineKind>, ts: seq<Task>)
    requires |kinds| == |ts|
    requires forall i :: 0 <= i < |ts| ==> kinds[i] == Good(ts[i])
    ensures Load(kinds, [], 1) == Loaded(ts, RaiseNext(1, ts), true)
  {
    TasksOfGood(kinds, ts);
    LoadMeaning(kinds, [], 1);
    assert kinds[..|kinds|] == kinds;
  }

  /** Lines that all decode give their tasks in order, one per line. */
  lemma {:induction false} TasksOfGood(kinds: seq<LineKind>, ts: seq<Task>)
    requires |kinds| == |ts|
    requires forall i :: 0 <= i < |ts| ==> kinds[i] == Good(ts[i])
    ensures Tasks(kinds) == ts
    ensures FirstBad(kinds) == |kinds|
  {
    FirstBadIs(kinds, |kinds|);
    if ts != [] {
      TasksOfGood(kinds[1..], ts[1..]);
      assert ts == [ts[0]] + ts[1..];
    }
  }

  /** The counter after `nextId = max(nextId, id + 1)` for each task in turn. */
  function RaiseNext(n: int, ts: seq<Task>): (r: int)
    ensures r >= n
    ensures IdsBelow(ts, r)
  {
    if ts == [] then n
    else Max(RaiseNext(n, ts[..|ts| - 1]), ts[|ts| - 1].id + 1)
  }

  /** The raised counter is the least bound: the start value or one past some task's id. */
  lemma {:induction false} RaiseNextIsLeast(n: int, ts: seq<Task>)
    ensures RaiseNext(n, ts) == n || exists i :: 0 <= i < |ts| && RaiseNext(n, ts) == ts[i].id + 1
  {
    if ts != [] {
      var init := ts[..|ts| - 1];
      RaiseNextIsLeast(n, init);
      if RaiseNext(n, ts) != n && RaiseNext(n, ts) != ts[|ts| - 1].id + 1 {
        var i :| 0 <= i < |init| && RaiseNext(n, init) == init[i].id + 1;
        assert ts[i] == init[i];
      }
    }
  }

  /**
   * Loading the saved lines of separator-free tasks into an empty store
   * gives the tasks back in order, with the counter one past the largest id.
   */
  lemma LoadSaved(ts: seq<Task>, lines: seq<string>)
    requires forall i :: 0 <= i < |ts| ==> Encodable(ts[i])
    requires |lines| == |ts| && forall i :: 0 <= i < |ts| ==> lines[i] == Encode(ts[i])
    ensures Load(ClassifyAll(lines), [], 1) == Loaded(ts, RaiseNext(1, ts), true)
  {
    ClassifySaved(ts, lines);
    LoadAllGood(ClassifyAll(lines), ts);
  }

  /** Every saved line of a separator-free task reads back as that task. */
  lemma ClassifySaved(ts: seq<Task>, lines: seq<string>)
    requires forall i :: 0 <= i < |ts| ==> Encodable(ts[i])
    requires |lines| == |ts| && forall i :: 0 <= i < |ts| ==> lines[i] == Encode(ts[i])
    ensures |ClassifyAll(lines)| == |ts|
    ensures forall i :: 0 <= i < |ts| ==> ClassifyAll(lines)[i] == Good(ts[i])
  {
    forall i | 0 <= i < |ts| ensures ClassifyAll(lines)[i] == Good(ts[i]) {
      ClassifyAllAt(lines, i);
      LineRoundTrip(ts[i]);
    }
  }

  lemma LineRoundTrip(t: Task)
    requires Encodable(t)
    ensures Classify(Encode(t)) == Good(t)
  {
    EncodeShape(t);
    DecodeEncode(t);
  }

  /**
   * The counter is never lowered below a bound it already had, so only
   * `max` with the loaded ids decides what it becomes.
   */
  lemma {:induction false} RaiseNextAppend(n: int, a: seq<Task>, b: seq<Task>)
    ensures RaiseNext(n, a + b) == RaiseNext(RaiseNext(n, a), b)
  {
    if b == [] {
      assert a + b == a;
    } else {
      var b' := b[..|b| - 1];
      RaiseNextAppend(n, a, b');
      assert (a + b)[..|a + b| - 1] == a + b';
      assert (a + b)[|a + b| - 1] == b[|b| - 1];
    }
  }

  /**
   * The counter is not persisted: a store holding tasks 1, 2 and 3 that
   * deletes task 3 and is saved and loaded again starts its counter at 3,
   * so the next task added receives the deleted task's id.
   */
  lemma IdReusedAfterReload(t1: Task, t2: Task, t3: Task)
    requires t1.id == 1 && t2.id == 2 && t3.id == 3
    ensures RemoveId([t1, t2, t3], 3) == [t1, t2]
    ensures RaiseNext(1, RemoveId([t1, t2, t3], 3)) == 3
  {
    var kept := [t1, t2];
    RemoveIdSnoc(kept, t3, 3);
    assert kept + [t3] == [t1, t2, t3];
    assert !HasId(kept, 3) by {
      assert kept[0].id == 1 && kept[1].id == 2;
    }
    RemoveIdAbsent(kept, 3);
    assert RaiseNext(1, [t1]) == 2 by {
      assert [t1][..0] == [];
    }
    assert kept[..1] == [t1];
  }

  class TaskManager {
    var tasks: seq<Task>
    var nextId: int

    /** The counter stays above every stored id, so a new id never meets a stored one. */
    ghost predicate Valid()
      reads this
    {
      nextId >= 1 && IdsBelow(tasks, nextId)
    }

    /** `TaskManager()`: an empty store whose counter starts at 1. */
    constructor ()
      ensures Valid()
      ensures tasks == [] && nextId == 1
    {
      tasks := [];
      nextId := 1;
    }

    /** `addTask`: stamp the counter on a new pending task, append it and advance the counter. */
    method AddTask(title: string, description: string, priority: string, deadline: string)
      requires Valid()
      modifies this
      ensures Valid()
      ensures tasks == old(tasks) + [NewTask(old(nextId), title, description, priority, deadline)]
      ensures nextId == old(nextId) + 1
      ensures !HasId(old(tasks), old(nextId))
      ensures DistinctIds(old(tasks)) ==> DistinctIds(tasks)
    {
      var t := NewTask(nextId, title, description, priority, deadline);
      assert forall i :: 0 <= i < |tasks| ==> tasks[i].id != t.id;
      tasks := tasks + [t];
      nextId := nextId + 1;
    }

    /** `deleteTask`: drop every task with the id; found is false exactly when none had it. */
    method DeleteTask(id: int) returns (found: bool)
      requires Valid()
      modifies this
      ensures Valid()
      ensures tasks == RemoveId(old(tasks), id)
      ensures found <==> HasId(old(tasks), id)
      ensures !found ==> tasks == old(tasks)
      ensures nextId == old(nextId)
      ensures DistinctIds(old(tasks)) ==> DistinctIds(tasks)
    {
      var kept := RemoveId(tasks, id);
      RemoveIdShape(tasks, id);
      found := |kept| < |tasks|;
      if !found {
        RemoveIdAbsent(tasks, id);
      }
      RemoveIdMembers(tasks, id);
      if DistinctIds(tasks) {
        RemoveIdDistinct(tasks, id);
      }
      tasks := kept;
    }

    /** `markTaskCompleted`: complete the first task with the id; found is false exactly when none has it. */
    method MarkTaskCompleted(id: int) returns (found: bool)
      requires Valid()
      modifies this
      ensures Valid()
      ensures tasks == MarkFirst(old(tasks), id)
      ensures found <==> HasId(old(tasks), id)
      ensures !found ==> tasks == old(tasks)
      ensures nextId == old(nextId)
    {
      var i := 0;
      while i < |tasks|
        invariant 0 <= i <= |tasks|
        invariant tasks == old(tasks) && nextId == old(nextId)
        invariant forall j :: 0 <= j < i ==> tasks[j].id != id
      {
        if tasks[i].id == id {
          tasks := tasks[i := MarkCompleted(tasks[i])];
          return true;
        }
        i := i + 1;
      }
      return false;
    }

    /** The line-producing body of `saveToFile`: one encoded line per task, in store order. */
    method SaveLines() returns (lines: seq<string>)
      ensures |lines| == |tasks|
      ensures forall i :: 0 <= i < |tasks| ==> lines[i] == Encode(tasks[i])
    {
      lines := [];
      var i := 0;
      while i < |tasks|
        invariant 0 <= i <= |tasks|
        invariant |lines| == i
        invariant forall j :: 0 <= j < i ==> lines[j] == Encode(tasks[j])
      {
        lines := lines + [Encode(tasks[i])];
        i := i + 1;
      }
    }

    /**
     * The line-processing body of `loadFromFile`: skip empty lines, decode
     * and append the others and raise the counter past each decoded id.
     * A line that does not decode stops the load (the source aborts there)
     * and ok is false; the tasks of the lines before it stay appended.
     */
    method LoadLines(lines: seq<string>) returns (ok: bool)
      requires Valid()
      modifies this
      ensures Valid()
      ensures Loaded(tasks, nextId, ok) == Load(ClassifyAll(lines), old(tasks), old(nextId))
    {
      ghost var kinds := ClassifyAll(lines);
      var i := 0;
      while i < |lines|
        invariant 0 <= i <= |lines|
        invariant Load(kinds[i..], tasks, nextId) == Load(kinds, old(tasks), old(nextId))
        invariant Valid()
      {
        ClassifyAllAt(lines, i);
        var lineOk := LoadLine(lines[i]);
        if !lineOk {
          return false;
        }
        assert kinds[i..][1..] == kinds[i + 1..];
        i := i + 1;
      }
      return true;
    }

    /**
     * One line of `loadFromFile`: an empty line is skipped, any other is
     * decoded, appended, and raises the counter to `max(nextId, id + 1)`.
     * ok is false, and nothing changes, when the line does not decode.
     */
    method LoadLine(line: string) returns (ok: bool)
      requires Valid()
      modifies this
      ensures Valid()
      ensures var kind := Classify(line);
        && (ok <==> !kind.Bad?)
        && (kind.Good? ==> tasks == old(tasks) + [kind.task] && nextId == Max(old(nextId), kind.task.id + 1))
        && (!kind.Good? ==> tasks == old(tasks) && nextId == old(nextId))
    {
      if line == "" {
        return true;
      }
      var r := Deserialize(line);
      if r.Failure? {
        return false;
      }
      tasks := tasks + [r.value];
      nextId := Max(nextId, r.value.id + 1);
      return true;
    }
  }

  /**
   * Saving a store and loading the lines into a fresh store, as the program
   * does across two runs, gives the same tasks in the same order; the new
   * counter is 1 raised past every loaded id.
   */
  method Reload(m: TaskManager) returns (reloaded: TaskManager, ok: bool)
    requires m.Valid()
    requires forall i :: 0 <= i < |m.tasks| ==> Encodable(m.tasks[i])
    ensures ok
    ensures reloaded.Valid()
    ensures reloaded.tasks == m.tasks
    ensures reloaded.nextId == RaiseNext(1, m.tasks) <= m.nextId
  {
    var lines := m.SaveLines();
    LoadSaved(m.tasks, lines);
    reloaded := new TaskManager();
    ok := reloaded.LoadLines(lines);
    RaiseNextBelow(1, m.tasks, m.nextId);
  }

  /** Raising a counter past ids that are all below `bound` keeps it at most `bound`. */
  lemma {:induction false} RaiseNextBelow(n: int, ts: seq<Task>, bound: int)
    requires n <= bound && IdsBelow(ts, bound)
    ensures RaiseNext(n, ts) <= bound
  {
    if ts != [] {
      RaiseNextBelow(n, ts[..|ts| - 1], bound);
    }
  }
}
