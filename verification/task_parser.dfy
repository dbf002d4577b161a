/** `parseTasks`: the tasks of a Markdown note, one per line of the form
    `- [ ] text` or `* [x] text`, each with its zero-based line number, its
    completion state, and the `#pN`, `@start(...)`, `@due(...)` and
    `@recur(...)` decorations read from its text. */
module TaskParser {
  import opened Wrappers
  import opened Text
  import opened Decorations

  datatype Task = Task(
    text: string,
    line: nat,
    done: bool,
    priority: Option<int>,
    start: Option<string>,
    due: Option<string>,
    recur: Option<string>)

  /** What the task pattern captures: the checkbox mark and the remainder. */
  datatype CheckboxMatch = CheckboxMatch(mark: char, rest: string)

  predicate IsBullet(c: char) { c == '-' || c == '*' }

  predicate IsMark(c: char) { c == ' ' || c == 'x' || c == 'X' }

  predicate HasLineTerminator(s: string) {
    exists t :: 0 <= t < |s| && IsLineTerminator(s[t])
  }

  /** The ways `^[-*]\s+\[( |x|X)\]\s+(.*)$` can match `line`: a bullet,
      whitespace up to `k`, the checkbox at `k`, whitespace from `k + 3` up to
      `j`, and from `j` on only characters `.` accepts. */
  predicate CheckboxShape(line: string, k: int, j: int) {
    && 1 < k && k + 3 < j <= |line|
    && IsBullet(line[0])
    && AllSpaces(line[1..k])
    && line[k] == '[' && IsMark(line[k + 1]) && line[k + 2] == ']'
    && AllSpaces(line[k + 3..j])
    && !HasLineTerminator(line[j..])
  }

  /** The match the regular expression engine finds: both whitespace runs
      taken greedily, the remainder captured whole. */
  function MatchCheckbox(line: string): (r: Option<CheckboxMatch>)
    ensures r.Some? ==> IsMark(r.value.mark)
  {
    if |line| == 0 || !IsBullet(line[0]) then None
    else
      var k := SpaceRunEnd(line, 1);
      if k == 1 || k + 3 > |line| || line[k] != '[' || !IsMark(line[k + 1]) || line[k + 2] != ']' then None
      else
        var j := SpaceRunEnd(line, k + 3);
        if j == k + 3 || HasLineTerminator(line[j..]) then None
        else Some(CheckboxMatch(line[k + 1], line[j..]))
  }

  /** The task of a matched line numbered `i`: the text is the trimmed
      remainder, `done` holds for `x` and `X`, and the decorations are read
      from the text. */
  function TaskOf(m: CheckboxMatch, i: nat): (t: Task)
    ensures t.line == i && t.text == Trim(m.rest)
    ensures t.priority.Some? ==> 1 <= t.priority.value <= 7
  {
    var text := Trim(m.rest);
    Task(text, i, Lower(m.mark) == 'x', PriorityTag(text),
         Decoration(text, StartTag), Decoration(text, DueTag), Decoration(text, RecurTag))
  }

  /** The task line `i` yields, if any. */
  function ParseLine(line: string, i: nat): (r: Option<Task>)
    ensures r.Some? <==> MatchCheckbox(line).Some?
    ensures r.Some? ==> r.value.line == i
  {
    match MatchCheckbox(line)
    case None => None
    case Some(m) => Some(TaskOf(m, i))
  }

  /** What each line yields, by line number. */
  function LineParses(lines: seq<string>): (ps: seq<Option<Task>>)
    ensures |ps| == |lines|
    ensures forall i :: 0 <= i < |lines| ==> ps[i] == ParseLine(lines[i], i)
  {
    seq(|lines|, i requires 0 <= i < |lines| => ParseLine(lines[i], i))
  }

  /** The tasks among the first `n` parses, in order. */
  function Collect(ps: seq<Option<Task>>, n: nat): seq<Task>
    requires n <= |ps|
  {
    if n == 0 then []
    else Collect(ps, n - 1) + (if ps[n - 1].Some? then [ps[n - 1].value] else [])
  }

  /** `parseTasks(content)`: splits the note at `'\n'` and collects the task
      of every line that has one, as `TasksOfParses` describes. */
  method ParseTasks(content: string) returns (tasks: seq<Task>)
    ensures var ps := LineParses(Split(content, '\n'));
      tasks == Collect(ps, |ps|) && TasksOfParses(ps, tasks)
  {
    var lines := Split(content, '\n');
    ghost var ps := LineParses(lines);
    tasks := [];
    var i := 0;
    while i < |lines|
      invariant 0 <= i <= |lines|
      invariant tasks == Collect(ps, i)
    {
      var parsed := ParseLine(lines[i], i);
      assert parsed == ps[i];
      if parsed.Some? {
        tasks := tasks + [parsed.value];
      }
      i := i + 1;
    }
    CollectAll(ps);
  }

  // ------------------------------------------------------------------ lemmas

  /** `tasks` are the tasks of the parses `ps`: every task is the parse of
      its own line, the tasks are in strictly increasing line order, and no
      line with a task is missed. */
  predicate TasksOfParses(ps: seq<Option<Task>>, tasks: seq<Task>) {
    && (forall x :: 0 <= x < |tasks| ==> tasks[x].line < |ps| && ps[tasks[x].line] == Some(tasks[x]))
    && (forall x, y :: 0 <= x < y < |tasks| ==> tasks[x].line < tasks[y].line)
    && (forall i :: 0 <= i < |ps| && ps[i].Some? ==> exists x :: 0 <= x < |tasks| && tasks[x].line == i)
  }

  /** The tasks collected from all parses: each is its own line's parse,
      they are in line order, and none is missed. */
  lemma CollectAll(ps: seq<Option<Task>>)
    requires forall i :: 0 <= i < |ps| && ps[i].Some? ==> ps[i].value.line == i
    ensures TasksOfParses(ps, Collect(ps, |ps|))
  {
    CollectSound(ps, |ps|);
    CollectOrdered(ps, |ps|);
    CollectComplete(ps, |ps|);
  }

  /** One more parse adds its task, if any, at the end. */
  lemma CollectStep(ps: seq<Option<Task>>, n: nat)
    requires 0 < n <= |ps|
    ensures var prev, ts := Collect(ps, n - 1), Collect(ps, n);
      && (forall x :: 0 <= x < |prev| ==> ts[x] == prev[x])
      && (if ps[n - 1].Some? then |ts| == |prev| + 1 && ts[|prev|] == ps[n - 1].value
          else ts == prev)
  {
  }

  /** Every task collected from the first `n` parses is the parse of its own
      line, and that line is among the first `n`. */
  lemma {:induction false} CollectSound(ps: seq<Option<Task>>, n: nat)
    requires n <= |ps|
    requires forall i :: 0 <= i < |ps| && ps[i].Some? ==> ps[i].value.line == i
    ensures var ts := Collect(ps, n);
      forall x :: 0 <= x < |ts| ==> ts[x].line < n && ps[ts[x].line] == Some(ts[x])
  {
    if n > 0 {
      CollectSound(ps, n - 1);
      CollectStep(ps, n);
    }
  }

  /** The tasks collected are in strictly increasing line order. */
  lemma {:induction false} CollectOrdered(ps: seq<Option<Task>>, n: nat)
    requires n <= |ps|
    requires forall i :: 0 <= i < |ps| && ps[i].Some? ==> ps[i].value.line == i
    ensures var ts := Collect(ps, n);
      forall x, y :: 0 <= x < y < |ts| ==> ts[x].line < ts[y].line
  {
    if n > 0 {
      CollectOrdered(ps, n - 1);
      CollectSound(ps, n - 1);
      CollectStep(ps, n);
    }
  }

  /** Every line among the first `n` that yields a task contributes one. */
  lemma {:induction false} CollectComplete(ps: seq<Option<Task>>, n: nat)
    requires n <= |ps|
    requires forall i :: 0 <= i < |ps| && ps[i].Some? ==> ps[i].value.line == i
    ensures var ts := Collect(ps, n);
      forall i :: 0 <= i < n && ps[i].Some? ==> exists x :: 0 <= x < |ts| && ts[x].line == i
  {
    if n > 0 {
      CollectComplete(ps, n - 1);
      CollectStep(ps, n);
      var prev := Collect(ps, n - 1);
      var ts := Collect(ps, n);
      forall i | 0 <= i < n && ps[i].Some?
        ensures exists x :: 0 <= x < |ts| && ts[x].line == i
      {
        if i < n - 1 {
          var x :| 0 <= x < |prev| && prev[x].line == i;
          assert ts[x].line == i;
        } else {
          assert ts[|prev|].line == i;
        }
      }
    }
  }

  /** The greedy whitespace run after the checkbox covers the run of any
      other way of matching, and what follows it is still free of line
      terminators. */
  lemma GreedyRunCovers(line: string, k: int, j: int)
    requires CheckboxShape(line, k, j)
    ensures SpaceRunEnd(line, 1) == k
    ensures var g := SpaceRunEnd(line, k + 3);
      && j <= g && AllSpaces(line[j..g]) && !HasLineTerminator(line[g..])
  {
    SpaceRunEndIs(line, 1, k);
    var g := SpaceRunEnd(line, k + 3);
    forall x | k + 3 <= x < j ensures IsSpace(line[x]) {
      assert line[x] == line[k + 3..j][x - (k + 3)];
    }
    assert j <= g;
    assert !HasLineTerminator(line[g..]) by {
      forall t | 0 <= t < |line[g..]| ensures !IsLineTerminator(line[g..][t]) {
        assert line[g..][t] == line[j..][t + (g - j)];
      }
    }
    forall t | 0 <= t < g - j ensures IsSpace(line[j..g][t]) {
      assert line[j..g][t] == line[k + 3..g][t + (j - (k + 3))];
    }
  }

  /** Whitespace in front of a string does not change its `trim`. */
  lemma TrimAfterSpaces(w: string, s: string)
    requires AllSpaces(w)
    ensures Trim(w + s) == Trim(s)
  {
    TrimStartAfterSpaces(w, s);
  }

  /** The remainder a greedy match captures, trimmed, is the trimmed
      remainder of any way the pattern can match. */
  lemma SameTextForEveryShape(line: string, k: int, j: int)
    requires CheckboxShape(line, k, j)
    ensures MatchCheckbox(line).Some?
    ensures MatchCheckbox(line).value.mark == line[k + 1]
    ensures Trim(MatchCheckbox(line).value.rest) == Trim(line[j..])
  {
    GreedyRunCovers(line, k, j);
    var g := SpaceRunEnd(line, k + 3);
    assert MatchCheckbox(line) == Some(CheckboxMatch(line[k + 1], line[g..]));
    assert line[j..] == line[j..g] + line[g..];
    TrimAfterSpaces(line[j..g], line[g..]);
  }

  /** A line yields a task exactly when the pattern can match it in some way. */
  lemma {:induction false} MatchIffShape(line: string)
    ensures MatchCheckbox(line).Some? <==> exists k, j :: CheckboxShape(line, k, j)
  {
    if MatchCheckbox(line).Some? {
      var k := SpaceRunEnd(line, 1);
      var j := SpaceRunEnd(line, k + 3);
      assert CheckboxShape(line, k, j);
    } else if k, j :| CheckboxShape(line, k, j) {
      SameTextForEveryShape(line, k, j);
    }
  }

  /** The text of a task is the trimmed remainder after the checkbox, `done`
      says whether the box is ticked, and the decorations come from the text. */
  lemma TaskFields(line: string, i: nat, k: int, j: int)
    requires CheckboxShape(line, k, j)
    ensures ParseLine(line, i).Some?
    ensures var t := ParseLine(line, i).value;
      && t.text == Trim(line[j..])
      && (t.done <==> line[k + 1] == 'x' || line[k + 1] == 'X')
      && t.priority == PriorityTag(t.text)
      && t.start == Decoration(t.text, StartTag)
      && t.due == Decoration(t.text, DueTag)
      && t.recur == Decoration(t.text, RecurTag)
  {
    SameTextForEveryShape(line, k, j);
  }

  /** A string with no whitespace at either end is its own `trim`. */
  lemma TrimOfTrimmed(s: string)
    requires s == [] || (!IsSpace(s[0]) && !IsSpace(s[|s| - 1]))
    ensures Trim(s) == s
  {
    TrimStartOfTrimmed(s);
    if s != [] {
      assert TrimEnd(s) == s;
    }
  }

  /** A line the plugin writes, `- [ ] text` or `- [x] text`, reads back with
      that text and that state. */
  lemma {:induction false} RenderedLineParses(mark: char, text: string, i: nat)
    requires IsMark(mark)
    requires |text| >= 1 && !IsSpace(text[0]) && !IsSpace(text[|text| - 1])
    requires !HasLineTerminator(text)
    ensures var t := ParseLine("- [" + [mark] + "] " + text, i);
      && t.Some? && t.value.text == text && (t.value.done <==> mark != ' ')
  {
    var line := "- [" + [mark] + "] " + text;
    RenderedLineMatches(mark, text, line);
    TrimOfTrimmed(text);
  }

  lemma RenderedLineMatches(mark: char, text: string, line: string)
    requires IsMark(mark) && |text| >= 1 && !IsSpace(text[0]) && !HasLineTerminator(text)
    requires line == "- [" + [mark] + "] " + text
    ensures MatchCheckbox(line) == Some(CheckboxMatch(mark, text))
  {
    assert line[..6] == "- [" + [mark] + "] ";
    assert line[6..] == text;
    assert line[1..2] == " " && line[5..6] == " ";
    SpaceRunEndIs(line, 1, 2);
    SpaceRunEndIs(line, 5, 6);
  }

  // ------------------------------------------------------------ examples

  /** An open box with nothing after it is a task with empty text. */
  lemma EmptyTaskText()
    ensures ParseLine("- [ ] ", 0) == Some(Task("", 0, false, None, None, None, None))
  {
    assert MatchCheckbox("- [ ] ") == Some(CheckboxMatch(' ', ""));
  }

  /** No whitespace after the box: not a task. */
  lemma NoTextIsNoTask()
    ensures ParseLine("- [ ]", 0) == None
  {
  }

  /** A mark other than a space, `x` or `X`: not a task. */
  lemma OtherMarkIsNoTask()
    ensures ParseLine("- [-] x", 0) == None
  {
    var line := "- [-] x";
    SpaceRunEndIs(line, 1, 2);
    assert line[3] == '-' && !IsMark(line[3]);
  }

  /** An indented item: not a task. */
  lemma IndentedIsNoTask()
    ensures ParseLine("  - [ ] x", 0) == None
  {
    assert !IsBullet("  - [ ] x"[0]);
  }

  /** `#p12` still reads as priority 1: nothing is required after the digit. */
  lemma PriorityWithoutBoundary()
    ensures PriorityTag("call #p12") == Some(1)
  {
    assert PriorityTagAt("call #p12", 5);
    assert IsFirstTag("call #p12", 5, false);
  }
}
