/** `getNextTasks`: for every note that mentions `#projects`, the first task
    that is open and not scheduled for later, with its priority; and the
    `renderTasks` ordering of those results, most urgent first. */
module Selection {
  import opened Wrappers
  import opened Text
  import opened Calendar
  import opened Decorations
  import opened TaskParser
  import opened DateResolver

  /** A Markdown note: its name and its content as `vault.read` returns it. */
  datatype Note = Note(name: string, content: string)

  /** One result: the note, the task's text and its priority. */
  datatype Entry = Entry(note: string, task: string, priority: int)

  const ProjectTag := "#projects"

  /** The tasks `parseTasks` returns for a note's content. */
  function TasksOf(content: string): seq<Task> {
    var ps := LineParses(Split(content, '\n'));
    Collect(ps, |ps|)
  }

  // ------------------------------------------------------------- eligibility

  /** The `find` callback: not done, and either without a start, or with a
      start `parseYMD` cannot resolve, or with one that is not after today
      (compared as `YYYY-MM-DD` strings). */
  predicate Eligible(t: Task, today: Date)
    requires ValidDate(today)
  {
    && !t.done
    && (t.start.None?
        || ParseYMD(t.start.value, today).None?
        || !StrLess(ToLocalYMD(today), ParseYMD(t.start.value, today).value))
  }

  /** `tasks.find(...)`, as an index: the first eligible task at or after
      `from`, or -1. */
  function FirstEligibleFrom(tasks: seq<Task>, today: Date, from: nat): (r: int)
    requires ValidDate(today) && from <= |tasks|
    ensures r == -1 || from <= r < |tasks|
    ensures r >= 0 ==> Eligible(tasks[r], today)
    ensures r >= 0 ==> forall x :: from <= x < r ==> !Eligible(tasks[x], today)
    ensures r < 0 ==> forall x :: from <= x < |tasks| ==> !Eligible(tasks[x], today)
    decreases |tasks| - from
  {
    if from == |tasks| then -1
    else if Eligible(tasks[from], today) then from
    else FirstEligibleFrom(tasks, today, from + 1)
  }

  function FirstEligible(tasks: seq<Task>, today: Date): int
    requires ValidDate(today)
  {
    FirstEligibleFrom(tasks, today, 0)
  }

  /** The task's own whole-word `#pN` if it has one, else the note's
      priority (its first whole-word `#pN`, or 4). */
  function TaskPriority(t: Task, content: string): (r: int)
    ensures 1 <= r <= 7
    ensures HasWholePriorityTag(t.text) ==> r == ExtractPriority(t.text)
    ensures !HasWholePriorityTag(t.text) ==> r == ExtractPriority(content)
  {
    if HasWholePriorityTag(t.text) then ExtractPriority(t.text) else ExtractPriority(content)
  }

  /** What one note contributes to the results. */
  function NextTaskOf(note: Note, today: Date): (r: Option<Entry>)
    requires ValidDate(today)
    ensures r.Some? ==> 1 <= r.value.priority <= 7 && r.value.note == note.name
    ensures r.Some? <==> Contains(note.content, ProjectTag) && FirstEligible(TasksOf(note.content), today) >= 0
    ensures r.Some? ==>
      var tasks := TasksOf(note.content);
      var i := FirstEligible(tasks, today);
      && r.value.task == tasks[i].text
      && r.value.priority == TaskPriority(tasks[i], note.content)
  {
    if !Contains(note.content, ProjectTag) then None
    else
      var tasks := TasksOf(note.content);
      var i := FirstEligible(tasks, today);
      if i < 0 then None
      else Some(Entry(note.name, tasks[i].text, TaskPriority(tasks[i], note.content)))
  }

  /** The results for a list of notes, in note order. */
  function NextTasks(notes: seq<Note>, today: Date): seq<Entry>
    requires ValidDate(today)
  {
    if notes == [] then []
    else
      var last := NextTaskOf(notes[|notes| - 1], today);
      NextTasks(notes[..|notes| - 1], today) + (if last.Some? then [last.value] else [])
  }

  /** `getNextTasks()`, with the notes' contents and today's date given. */
  method GetNextTasks(notes: seq<Note>, today: Date) returns (results: seq<Entry>)
    requires ValidDate(today)
    ensures results == NextTasks(notes, today)
  {
    results := [];
    var i := 0;
    while i < |notes|
      invariant 0 <= i <= |notes|
      invariant results == NextTasks(notes[..i], today)
    {
      NextTasksStep(notes, i, today);
      var content := notes[i].content;
      if Contains(content, ProjectTag) {
        var projectPriority := ExtractPriority(content);
        var tasks := ParseTasks(content);
        var k := FirstEligible(tasks, today);
        if k >= 0 {
          var nextTask := tasks[k];
          var taskPriority := ExtractPriority(nextTask.text);
          if !HasWholePriorityTag(nextTask.text) {
            taskPriority := projectPriority;
          }
          if taskPriority == 0 {
            taskPriority := 4;
          }
          assert NextTaskOf(notes[i], today) == Some(Entry(notes[i].name, nextTask.text, taskPriority));
          results := results + [Entry(notes[i].name, nextTask.text, taskPriority)];
        }
      }
      i := i + 1;
    }
    assert notes[..i] == notes;
  }

  /** The results for one more note are those so far and that note's. */
  lemma NextTasksStep(notes: seq<Note>, i: nat, today: Date)
    requires ValidDate(today) && i < |notes|
    ensures var o := NextTaskOf(notes[i], today);
      NextTasks(notes[..i + 1], today) == NextTasks(notes[..i], today) + (if o.Some? then [o.value] else [])
  {
    assert notes[..i + 1][..i] == notes[..i];
  }

  // ------------------------------------------------------------------ lemmas

  /** There are no more results than notes, each result is what some note
      contributes, and every note's contribution is among them; with
      `NextTaskOf`'s contract, the notes that contribute are exactly the
      `#projects` notes with an eligible task. */
  lemma {:induction false} NextTasksExact(notes: seq<Note>, today: Date)
    requires ValidDate(today)
    ensures var r := NextTasks(notes, today);
      && |r| <= |notes|
      && (forall e :: e in r ==> 1 <= e.priority <= 7)
      && (forall n :: 0 <= n < |notes| && NextTaskOf(notes[n], today).Some? ==>
            NextTaskOf(notes[n], today).value in r)
      && (forall e :: e in r ==> exists n :: 0 <= n < |notes| && NextTaskOf(notes[n], today) == Some(e))
  {
    if notes != [] {
      var init := notes[..|notes| - 1];
      NextTasksExact(init, today);
      forall n | 0 <= n < |notes| - 1 ensures notes[n] == init[n] { }
    }
  }

  /** The results keep the notes' order: the results for two runs of notes
      are the results for the first followed by those for the second. */
  lemma {:induction false} NextTasksAppend(a: seq<Note>, b: seq<Note>, today: Date)
    requires ValidDate(today)
    ensures NextTasks(a + b, today) == NextTasks(a, today) + NextTasks(b, today)
    decreases |b|
  {
    if b != [] {
      var init := b[..|b| - 1];
      NextTasksAppend(a, init, today);
      assert (a + b)[..|a + b| - 1] == a + init;
      assert (a + b)[|a + b| - 1] == b[|b| - 1];
    } else {
      assert a + b == a;
    }
  }

  /** A note without `#projects` contributes nothing, whatever its tasks. */
  lemma UntaggedNote(note: Note, today: Date)
    requires ValidDate(today) && !Contains(note.content, ProjectTag)
    ensures NextTasks([note], today) == []
  {
    assert [note][..0] == [];
  }

  /** The task chosen in a note is open, and every earlier task of the note
      is done or scheduled after today. */
  lemma ChosenTask(note: Note, today: Date)
    requires ValidDate(today) && NextTaskOf(note, today).Some?
    ensures var tasks := TasksOf(note.content);
      var i := FirstEligible(tasks, today);
      && 0 <= i < |tasks| && !tasks[i].done
      && NextTaskOf(note, today).value.task == tasks[i].text
      && forall x :: 0 <= x < i ==>
           (tasks[x].done
            || (tasks[x].start.Some? && ParseYMD(tasks[x].start.value, today).Some?
                && StrLess(ToLocalYMD(today), ParseYMD(tasks[x].start.value, today).value)))
  {
  }

  /** An open task whose start is a date (four-digit year) is eligible
      exactly when that date is not after today. */
  lemma EligibleDatedStart(t: Task, today: Date, d: Date)
    requires ValidDate(today) && FourDigitYear(today) && ValidDate(d) && FourDigitYear(d)
    requires !t.done && t.start.Some? && IsIsoPrefix(t.start.value)
    requires t.start.value[..10] == ToLocalYMD(d)
    ensures Eligible(t, today) <==> !Before(today, d)
  {
    assert ParseYMD(t.start.value, today) == Some(ToLocalYMD(d));
    EligibleResolved(t, today, ToLocalYMD(d));
    YmdOrder(today, d);
  }

  /** An open task whose start resolves is eligible exactly when the resolved
      day does not print after today. */
  lemma EligibleResolved(t: Task, today: Date, x: string)
    requires ValidDate(today) && !t.done && t.start.Some? && ParseYMD(t.start.value, today) == Some(x)
    ensures Eligible(t, today) <==> !StrLess(ToLocalYMD(today), x)
  {
  }

  /** An open task starting `today+Nd` is eligible exactly when N is 0. */
  lemma EligibleRelativeStart(t: Task, today: Date)
    requires ValidDate(today) && FourDigitYear(today)
    requires !t.done && t.start.Some? && RelativeDays(t.start.value).Some?
    requires FourDigitYear(AddDays(today, RelativeDays(t.start.value).value))
    ensures Eligible(t, today) <==> RelativeDays(t.start.value).value == 0
  {
    var s := t.start.value;
    var n := RelativeDays(s).value;
    RelativeStart(s, today);
    EligibleResolved(t, today, ToLocalYMD(AddDays(today, n)));
    LaterPrintsLater(today, n);
  }

  /** A task eligible today stays eligible on every later day: its start is
      either a fixed `YYYY-MM-DD`, which today's printed date only moves
      past, or `today+Nd`, which is eligible only for N = 0, and then on every
      day. The years involved have four digits. */
  lemma EligibleMonotone(t: Task, today: Date, later: Date)
    requires ValidDate(today) && FourDigitYear(today) && ValidDate(later) && FourDigitYear(later)
    requires !Before(later, today)
    requires t.start.Some? && RelativeDays(t.start.value).Some? ==>
               AddDays(today, RelativeDays(t.start.value).value).year <= 9999
    ensures Eligible(t, today) ==> Eligible(t, later)
  {
    if !t.done && t.start.Some? {
      var s := t.start.value;
      if IsIsoPrefix(s) {
        EligibleResolved(t, today, s[..10]);
        EligibleResolved(t, later, s[..10]);
        IsoStartMonotone(s[..10], today, later);
      } else if RelativeDays(s).Some? {
        var n := RelativeDays(s).value;
        EligibleResolved(t, today, ToLocalYMD(AddDays(today, n)));
        EligibleResolved(t, later, ToLocalYMD(AddDays(later, n)));
        RelativeStartMonotone(n, today, later);
      }
    }
  }

  /** A fixed start not after today is not after any later day either. */
  lemma IsoStartMonotone(x: string, today: Date, later: Date)
    requires ValidDate(today) && FourDigitYear(today) && ValidDate(later) && FourDigitYear(later)
    requires !Before(later, today)
    ensures !StrLess(ToLocalYMD(today), x) ==> !StrLess(ToLocalYMD(later), x)
  {
    YmdOrder(later, today);
    if !StrLess(ToLocalYMD(today), x) {
      StrNotLessTrans(ToLocalYMD(later), ToLocalYMD(today), x);
    }
  }

  /** `today+Nd` not after today (so N is 0) is not after any later day. */
  lemma RelativeStartMonotone(n: nat, today: Date, later: Date)
    requires ValidDate(today) && FourDigitYear(today) && ValidDate(later)
    requires AddDays(today, n).year <= 9999
    ensures !StrLess(ToLocalYMD(today), ToLocalYMD(AddDays(today, n)))
            ==> !StrLess(ToLocalYMD(later), ToLocalYMD(AddDays(later, n)))
  {
    if n == 0 {
      assert AddDays(later, n) == later;
      StrLessIrreflexive(ToLocalYMD(later));
    } else {
      RelativeAfterToday(today, n);
    }
  }

  /** A relative start of one day or more that lands in a four-digit year
      prints after today. */
  lemma RelativeAfterToday(today: Date, n: nat)
    requires ValidDate(today) && FourDigitYear(today) && n > 0 && AddDays(today, n).year <= 9999
    ensures StrLess(ToLocalYMD(today), ToLocalYMD(AddDays(today, n)))
  {
    AddDaysLater(today, n);
    LaterPrintsLater(today, n);
  }

  /** The day `n` days on prints after today exactly when `n` is not 0. */
  lemma LaterPrintsLater(today: Date, n: nat)
    requires ValidDate(today) && FourDigitYear(today) && FourDigitYear(AddDays(today, n))
    ensures StrLess(ToLocalYMD(today), ToLocalYMD(AddDays(today, n))) <==> n > 0
  {
    AddDaysOrdinal(today, n);
    YmdOrder(today, AddDays(today, n));
    if n > 0 {
      AddDaysLater(today, n);
    } else {
      assert AddDays(today, n) == today;
    }
  }

  // ----------------------------------------------------------------- sorting

  /** Entries ordered by priority, lowest number first. */
  predicate ByPriority(s: seq<Entry>) {
    forall x, y :: 0 <= x < y < |s| ==> s[x].priority <= s[y].priority
  }

  /** The entries of priority `p`, in order. */
  function WithPriority(s: seq<Entry>, p: int): (r: seq<Entry>)
    ensures |r| <= |s|
  {
    if s == [] then []
    else WithPriority(s[..|s| - 1], p) + (if s[|s| - 1].priority == p then [s[|s| - 1]] else [])
  }

  /** `e` placed after every entry of `s` whose priority is not larger. */
  function Insert(s: seq<Entry>, e: Entry): seq<Entry>
  {
    if s == [] || s[|s| - 1].priority <= e.priority then s + [e]
    else Insert(s[..|s| - 1], e) + [s[|s| - 1]]
  }

  /** `results.sort((a, b) => a.priority - b.priority)`: JavaScript's sort is
      stable, so entries of equal priority keep their order. */
  function SortByPriority(s: seq<Entry>): seq<Entry>
  {
    if s == [] then [] else Insert(SortByPriority(s[..|s| - 1]), s[|s| - 1])
  }

  lemma WithPriorityAppend(s: seq<Entry>, e: Entry, p: int)
    ensures WithPriority(s + [e], p) == WithPriority(s, p) + (if e.priority == p then [e] else [])
  {
    assert (s + [e])[..|s|] == s;
  }

  /** Inserting into a sorted list keeps it sorted and places `e` after all
      entries of its own priority. */
  lemma {:induction false} InsertSorted(s: seq<Entry>, e: Entry)
    requires ByPriority(s)
    ensures |Insert(s, e)| == |s| + 1
    ensures ByPriority(Insert(s, e))
    ensures multiset(Insert(s, e)) == multiset(s) + multiset{e}
    decreases |s|
  {
    if s == [] || s[|s| - 1].priority <= e.priority {
      var r := s + [e];
      forall x, y | 0 <= x < y < |r| ensures r[x].priority <= r[y].priority {
        if y == |s| && x < |s| - 1 {
          assert s[x].priority <= s[|s| - 1].priority;
        }
      }
    } else {
      var init, last := s[..|s| - 1], s[|s| - 1];
      assert s == init + [last];
      SortedPrefix(s);
      InsertSorted(init, e);
      var m := Insert(init, e);
      var r := m + [last];
      forall x, y | 0 <= x < y < |r| ensures r[x].priority <= r[y].priority {
        if y == |m| {
          PrefixBelow(init, e, last, x);
        } else {
          assert r[x] == m[x] && r[y] == m[y];
        }
      }
    }
  }

  /** Inserting `e` adds it at the end of the entries of its priority. */
  lemma {:induction false} InsertFilter(s: seq<Entry>, e: Entry, p: int)
    ensures WithPriority(Insert(s, e), p) == WithPriority(s, p) + (if e.priority == p then [e] else [])
    decreases |s|
  {
    if s == [] || s[|s| - 1].priority <= e.priority {
      assert Insert(s, e) == s + [e];
      WithPriorityAppend(s, e, p);
    } else {
      InsertFilter(s[..|s| - 1], e, p);
      InsertFilterStep(s, e, p);
    }
  }

  /** The step of `InsertFilter` where `e` goes in before the last entry. */
  lemma InsertFilterStep(s: seq<Entry>, e: Entry, p: int)
    requires s != [] && s[|s| - 1].priority > e.priority
    requires var init := s[..|s| - 1];
      WithPriority(Insert(init, e), p) == WithPriority(init, p) + (if e.priority == p then [e] else [])
    ensures WithPriority(Insert(s, e), p) == WithPriority(s, p) + (if e.priority == p then [e] else [])
  {
    var init, last := s[..|s| - 1], s[|s| - 1];
    var m := Insert(init, e);
    assert Insert(s, e) == m + [last];
    var ep := if e.priority == p then [e] else [];
    var lp := if last.priority == p then [last] else [];
    WithPriorityAppend(m, last, p);
    assert WithPriority(Insert(s, e), p) == WithPriority(init, p) + ep + lp;
    assert WithPriority(s, p) == WithPriority(init, p) + lp;
    assert ep == [] || lp == [];
  }

  /** Every entry of `Insert(init, e)` has priority at most `last`'s, when
      `last` followed a sorted `init` and outranks `e`. */
  lemma {:induction false} PrefixBelow(init: seq<Entry>, e: Entry, last: Entry, x: int)
    requires ByPriority(init + [last]) && last.priority > e.priority
    requires multiset(Insert(init, e)) == multiset(init) + multiset{e}
    requires 0 <= x < |Insert(init, e)|
    ensures Insert(init, e)[x].priority <= last.priority
  {
    var m := Insert(init, e);
    assert m[x] in multiset(m);
    if m[x] != e {
      assert m[x] in multiset(init);
      var j :| 0 <= j < |init| && init[j] == m[x];
      assert (init + [last])[j] == init[j] && (init + [last])[|init|] == last;
    }
  }

  lemma SortedPrefix(s: seq<Entry>)
    requires ByPriority(s) && s != []
    ensures ByPriority(s[..|s| - 1])
  {
    var init := s[..|s| - 1];
    forall x, y | 0 <= x < y < |init| ensures init[x].priority <= init[y].priority {
      assert init[x] == s[x] && init[y] == s[y];
    }
  }

  /** The sort orders by priority and keeps exactly the same entries. */
  lemma {:induction false} SortByPriorityCorrect(s: seq<Entry>)
    ensures ByPriority(SortByPriority(s))
    ensures multiset(SortByPriority(s)) == multiset(s)
  {
    if s != [] {
      var init := s[..|s| - 1];
      SortByPriorityCorrect(init);
      InsertSorted(SortByPriority(init), s[|s| - 1]);
      assert s == init + [s[|s| - 1]];
    }
  }

  /** The sort is stable: the entries of each priority keep their order. */
  lemma {:induction false} SortByPriorityStable(s: seq<Entry>, p: int)
    ensures WithPriority(SortByPriority(s), p) == WithPriority(s, p)
  {
    if s != [] {
      SortByPriorityStable(s[..|s| - 1], p);
      SortStep(s, p);
    }
  }

  /** The step of `SortByPriorityStable`: inserting the last entry. */
  lemma SortStep(s: seq<Entry>, p: int)
    requires s != []
    requires WithPriority(SortByPriority(s[..|s| - 1]), p) == WithPriority(s[..|s| - 1], p)
    ensures WithPriority(SortByPriority(s), p) == WithPriority(s, p)
  {
    var init, last := s[..|s| - 1], s[|s| - 1];
    var sorted := SortByPriority(init);
    assert SortByPriority(s) == Insert(sorted, last);
    InsertFilter(sorted, last, p);
  }
}
