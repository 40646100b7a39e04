/**
 * The task record of task_manager.cpp and its one-line text encoding:
 * six fields joined with '|', the id as decimal text and the completed
 * flag as "1" or "0", with no escaping of '|' inside the text fields.
 *
 * A task is a value in the source (the store keeps copies in a vector and
 * `deserialize` returns one by value), so it is a datatype here and the
 * two mutators return the updated record.
 */
module TaskRecord {
  import opened Wrappers
  import opened Decimal

  const Sep: char := '|'

  datatype Task = Task(
    id: int,
    title: string,
    description: string,
    priority: string,   // free text, conventionally High, Medium or Low
    deadline: string,   // free text, conventionally YYYY-MM-DD
    completed: bool)

  datatype DecodeError =
    | TooFewFields   // fewer than six parts: the source reads past the end of `parts`
                     // (with exactly five, `stoi` reads the first part before that
                     // and throws instead when it holds no digits)
    | BadId          // no digits at the head of the first part: `stoi` throws

  /** The constructor `Task(id, title, description, priority, deadline)`: a new task is pending. */
  function NewTask(id: int, title: string, description: string, priority: string, deadline: string): (t: Task)
    ensures !t.completed
    ensures t.id == id && t.title == title && t.description == description
    ensures t.priority == priority && t.deadline == deadline
  {
    Task(id, title, description, priority, deadline, false)
  }

  /** `markCompleted`: the flag becomes true and nothing else changes. */
  function MarkCompleted(t: Task): (r: Task)
    ensures r.completed
    ensures r.id == t.id && r.title == t.title && r.description == t.description
    ensures r.priority == t.priority && r.deadline == t.deadline
  {
    t.(completed := true)
  }

  /** `editTask`: the four text fields are replaced; the id and the flag stay. */
  function Edit(t: Task, title: string, description: string, priority: string, deadline: string): (r: Task)
    ensures r.id == t.id && r.completed == t.completed
    ensures r.title == title && r.description == description
    ensures r.priority == priority && r.deadline == deadline
  {
    t.(title := title, description := description, priority := priority, deadline := deadline)
  }

  // ---------------------------------------------------------------------
  // Splitting a line on '|' and joining parts with '|'
  // ---------------------------------------------------------------------

  predicate SepFree(s: string) { forall i :: 0 <= i < |s| ==> s[i] != Sep }

  /** Number of separators in `s`. */
  function Seps(s: string): nat
  {
    if s == [] then 0 else Seps(s[..|s| - 1]) + (if s[|s| - 1] == Sep then 1 else 0)
  }

  /**
   * The parts of `s` between separators, defined on the last character so
   * that it follows the accumulator loop of `deserialize`: a separator
   * closes the current part and opens an empty one, any other character
   * extends the current part.
   */
  function Split(s: string): (parts: seq<string>)
    ensures |parts| >= 1
  {
    if s == [] then [""]
    else
      var init := Split(s[..|s| - 1]);
      var c := s[|s| - 1];
      if c == Sep then init + [""]
      else init[..|init| - 1] + [init[|init| - 1] + [c]]
  }

  /** The parts joined with one separator between neighbours. */
  function Join(parts: seq<string>): string
    requires |parts| >= 1
  {
    if |parts| == 1 then parts[0]
    else Join(parts[..|parts| - 1]) + [Sep] + parts[|parts| - 1]
  }

  /** Splitting yields one more part than there are separators. */
  lemma {:induction false} SplitCount(s: string)
    ensures |Split(s)| == Seps(s) + 1
  {
    if s != [] {
      SplitCount(s[..|s| - 1]);
    }
  }

  /** No part of a split line contains a separator. */
  lemma {:induction false} SplitPartsSepFree(s: string)
    ensures forall k :: 0 <= k < |Split(s)| ==> SepFree(Split(s)[k])
  {
    if s != [] {
      SplitPartsSepFree(s[..|s| - 1]);
    }
  }

  /** Joining the parts of a line rebuilds the line exactly. */
  lemma {:induction false} JoinSplit(s: string)
    ensures Join(Split(s)) == s
  {
    if s != [] {
      var p, c := s[..|s| - 1], s[|s| - 1];
      assert s == p + [c];
      JoinSplit(p);
      JoinSplitStep(p, c);
    }
  }

  /** One more character keeps joining the parts equal to the text read. */
  lemma JoinSplitStep(p: string, c: char)
    requires Join(Split(p)) == p
    ensures Join(Split(p + [c])) == p + [c]
  {
    var init := Split(p);
    var n := |init|;
    SplitSnoc(p, c);
    if c == Sep {
      JoinSnoc(init, "");
    } else if n == 1 {
      assert Split(p + [c]) == [init[0] + [c]];
    } else {
      var front := init[..n - 1];
      assert init == front + [init[n - 1]];
      JoinSnoc(front, init[n - 1]);
      JoinSnoc(front, init[n - 1] + [c]);
      calc {
        Join(Split(p + [c]));
        Join(front + [init[n - 1] + [c]]);
        Join(front) + [Sep] + (init[n - 1] + [c]);
        (Join(front) + [Sep] + init[n - 1]) + [c];
        p + [c];
      }
    }
  }

  /** One more character: a separator opens a new part, anything else extends the last one. */
  lemma SplitSnoc(s: string, c: char)
    ensures var init := Split(s);
      Split(s + [c]) == if c == Sep then init + [""] else init[..|init| - 1] + [init[|init| - 1] + [c]]
  {
    assert (s + [c])[..|s|] == s;
  }

  /** Appending a separator closes the last part and opens an empty one. */
  lemma SplitAppendSep(a: string)
    ensures Split(a + [Sep]) == Split(a) + [""]
  {
    SplitSnoc(a, Sep);
  }

  /** Appending separator-free text extends the last part. */
  lemma {:induction false} SplitAppendFree(a: string, b: string)
    requires SepFree(b)
    ensures var sa := Split(a);
      Split(a + b) == sa[..|sa| - 1] + [sa[|sa| - 1] + b]
  {
    var sa := Split(a);
    var m := |sa|;
    if b == [] {
      assert a + b == a;
      assert sa[m - 1] + b == sa[m - 1];
      assert sa[..m - 1] + [sa[m - 1]] == sa;
    } else {
      var b' := b[..|b| - 1];
      var c := b[|b| - 1];
      assert c != Sep;
      SplitAppendFree(a, b');
      SplitSnoc(a + b', c);
      var init := sa[..m - 1] + [sa[m - 1] + b'];
      assert init[..|init| - 1] == sa[..m - 1];
      assert init[|init| - 1] + [c] == sa[m - 1] + b;
      calc {
        Split(a + b);
        { assert a + b == (a + b') + [c]; }
        Split((a + b') + [c]);
        init[..|init| - 1] + [init[|init| - 1] + [c]];
        sa[..m - 1] + [sa[m - 1] + b];
      }
    }
  }

  /** Splitting a join of separator-free parts gives the parts back. */
  lemma {:induction false} SplitJoin(parts: seq<string>)
    requires |parts| >= 1
    requires forall k :: 0 <= k < |parts| ==> SepFree(parts[k])
    ensures Split(Join(parts)) == parts
  {
    var n := |parts|;
    var last := parts[n - 1];
    if n == 1 {
      SplitAppendFree([], last);
      assert [] + last == last;
    } else {
      var init := parts[..n - 1];
      var a := Join(init) + [Sep];
      var sa := init + [""];
      calc {
        Split(Join(parts));
        { assert Join(parts) == a + last; }
        Split(a + last);
        { SplitAppendFree(a, last);
          SplitJoin(init);
          SplitAppendSep(Join(init)); }
        sa[..|sa| - 1] + [sa[|sa| - 1] + last];
        { assert sa[..|sa| - 1] == init; assert sa[|sa| - 1] + last == last; }
        init + [last];
        parts;
      }
    }
  }

  /** Parts of `a` that a separator has closed stay the same whatever follows. */
  lemma {:induction false} SplitPrefix(a: string, b: string)
    ensures |Split(a + b)| >= |Split(a)|
    ensures forall k :: 0 <= k < |Split(a)| - 1 ==> Split(a + b)[k] == Split(a)[k]
  {
    if b == [] {
      assert a + b == a;
    } else {
      var b' := b[..|b| - 1];
      SplitPrefix(a, b');
      assert (a + b)[..|a + b| - 1] == a + b';
    }
  }

  // ---------------------------------------------------------------------
  // Encoding and decoding one task
  // ---------------------------------------------------------------------

  function FlagText(completed: bool): string { if completed then "1" else "0" }

  /** `serialize`: the line starts with the id text and ends with the flag character. */
  function Encode(t: Task): (line: string)
    ensures |line| > |IntToString(t.id)| && line[..|IntToString(t.id)|] == IntToString(t.id)
    ensures line[|line| - 1] == if t.completed then '1' else '0'
  {
    IntToString(t.id) + [Sep] + t.title + [Sep] + t.description + [Sep]
      + t.priority + [Sep] + t.deadline + [Sep] + FlagText(t.completed)
  }

  /** The six fields of `serialize`, in order. */
  function Fields(t: Task): (f: seq<string>)
    ensures |f| == 6
  {
    [IntToString(t.id), t.title, t.description, t.priority, t.deadline, FlagText(t.completed)]
  }

  /** A task whose text fields contain no separator. */
  predicate Encodable(t: Task)
  {
    SepFree(t.title) && SepFree(t.description) && SepFree(t.priority) && SepFree(t.deadline)
  }

  /**
   * `deserialize` as a function: split, then rebuild from the first six
   * parts.  Too few parts and an id without digits are the two failures;
   * otherwise the id is read from part 1, the text fields are parts 2 to 5
   * and the task is completed exactly when part 6 is "1".
   */
  function Decode(line: string): (r: Result<Task, DecodeError>)
    ensures r == Failure(TooFewFields) <==> |Split(line)| < 6
    ensures r == Failure(BadId) <==> |Split(line)| >= 6 && Stoi(Split(line)[0]).None?
    ensures r.Success? ==>
      var parts := Split(line);
      && Stoi(parts[0]) == Some(r.value.id)
      && r.value.title == parts[1] && r.value.description == parts[2]
      && r.value.priority == parts[3] && r.value.deadline == parts[4]
      && (r.value.completed <==> parts[5] == "1")
  {
    var parts := Split(line);
    if |parts| < 6 then Failure(TooFewFields)
    else match Stoi(parts[0])
      case None => Failure(BadId)
      case Some(id) =>
        var t := NewTask(id, parts[1], parts[2], parts[3], parts[4]);
        Success(if parts[5] == "1" then MarkCompleted(t) else t)
  }

  /** The encoding is the six fields joined with separators. */
  lemma EncodeIsJoin(t: Task)
    ensures Encode(t) == Join(Fields(t))
  {
    var f := Fields(t);
    assert Join([f[0]]) == f[0];
    JoinSnoc([f[0]], f[1]);
    assert [f[0]] + [f[1]] == [f[0], f[1]];
    JoinSnoc([f[0], f[1]], f[2]);
    assert [f[0], f[1]] + [f[2]] == [f[0], f[1], f[2]];
    JoinSnoc([f[0], f[1], f[2]], f[3]);
    assert [f[0], f[1], f[2]] + [f[3]] == [f[0], f[1], f[2], f[3]];
    JoinSnoc([f[0], f[1], f[2], f[3]], f[4]);
    assert [f[0], f[1], f[2], f[3]] + [f[4]] == [f[0], f[1], f[2], f[3], f[4]];
    JoinSnoc([f[0], f[1], f[2], f[3], f[4]], f[5]);
    assert [f[0], f[1], f[2], f[3], f[4]] + [f[5]] == f;
  }

  lemma JoinSnoc(parts: seq<string>, x: string)
    requires |parts| >= 1
    ensures Join(parts + [x]) == Join(parts) + [Sep] + x
  {
    assert (parts + [x])[..|parts|] == parts;
  }

  /**
   * An encoded line is the id text, the four text fields and "1" or "0"
   * separated by exactly five separators, and is never empty.
   */
  lemma EncodeShape(t: Task)
    requires Encodable(t)
    ensures Split(Encode(t)) == Fields(t)
    ensures Seps(Encode(t)) == 5
    ensures Split(Encode(t))[5] == "1" <==> t.completed
    ensures Encode(t) != ""
  {
    EncodeIsJoin(t);
    IntToStringShape(t.id);
    assert SepFree(IntToString(t.id));
    assert SepFree(FlagText(t.completed));
    SplitJoin(Fields(t));
    SplitCount(Encode(t));
  }

  /** Decoding an encoded task gives the task back, when no text field holds a separator. */
  lemma DecodeEncode(t: Task)
    requires Encodable(t)
    ensures Decode(Encode(t)) == Success(t)
  {
    EncodeShape(t);
    StoiOfIntToString(t.id);
  }

  /** Encoding a decoded line gives the line back when the line is exactly six parts in canonical form. */
  lemma EncodeDecode(line: string)
    requires Decode(line).Success?
    requires Fields(Decode(line).value) == Split(line)
    ensures Encode(Decode(line).value) == line
  {
    EncodeIsJoin(Decode(line).value);
    JoinSplit(line);
  }

  /** Fewer than five separators, and only then, is the too-few-fields error. */
  lemma DecodeTooFew(line: string)
    ensures Decode(line) == Failure(TooFewFields) <==> Seps(line) < 5
  {
    SplitCount(line);
  }

  /** Parts after the sixth do not change the decoded task. */
  lemma DecodeIgnoresExtra(line: string, extra: string)
    requires Seps(line) >= 5
    ensures Decode(line + [Sep] + extra) == Decode(line)
  {
    SplitCount(line);
    var a := line + [Sep];
    SplitAppendSep(line);
    SplitPrefix(a, extra);
    var p := Split(line);
    var q := Split(a + extra);
    assert forall k :: 0 <= k < 6 ==> q[k] == p[k];
  }

  /**
   * `deserialize`: the character loop that collects the parts, followed by
   * the rebuilding of the task from the first six of them.
   */
  method Deserialize(line: string) returns (r: Result<Task, DecodeError>)
    ensures r == Decode(line)
  {
    var parts: seq<string> := [];
    var temp: string := "";
    var i := 0;
    while i < |line|
      invariant 0 <= i <= |line|
      invariant parts + [temp] == Split(line[..i])
    {
      assert line[..i + 1][..i] == line[..i];
      if line[i] == Sep {
        parts := parts + [temp];
        temp := "";
      } else {
        temp := temp + [line[i]];
      }
      i := i + 1;
    }
    assert line[..i] == line;
    parts := parts + [temp];
    if |parts| < 6 {
      return Failure(TooFewFields);
    }
    var id := Stoi(parts[0]);
    if id.None? {
      return Failure(BadId);
    }
    var t := NewTask(id.value, parts[1], parts[2], parts[3], parts[4]);
    if parts[5] == "1" {
      t := MarkCompleted(t);
    }
    return Success(t);
  }
}
