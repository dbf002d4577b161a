/** Ticking and unticking tasks in a note. Each of the three rewrites splits
    the note at `'\n'`, rewrites the lines that hold the task (trimmed, they
    start with the checkbox in question, and they contain the task's text)
    and joins the lines again:
    - the plugin's `markTaskUndone` turns `- [x]` back into `- [ ]`;
    - the modal's `markTaskDone` turns `- [ ]` into `- [x]`;
    - the plugin's `markTaskDone` does the same for a task without
      `@recur(...)`. A recurring task stays open instead, and its `@start`
      is moved to the next date its rule gives, or added at the end. */
module Completion {
  import opened Wrappers
  import opened Text
  import opened Calendar
  import opened Decorations
  import opened DateResolver
  import opened RecurrenceRules
  import opened Recurrence
  import opened TaskParser
  import opened JsDates

  const OpenBox := "- [ ]"
  const DoneBox := "- [x]"

  /** `line.trim().startsWith(box) && line.includes(taskText)`. */
  predicate Selected(line: string, box: string, taskText: string) {
    StartsWith(Trim(line), box) && Contains(line, taskText)
  }

  // --------------------------------------------------------------- lines

  /** A line of `markTaskUndone`: `line.replace("- [x]", "- [ ]")` on a
      selected line. The box replaced is the one the line starts with. */
  function UndoneLine(line: string, taskText: string): (r: string)
    ensures Selected(line, DoneBox, taskText) ==>
      (var n := LeadingSpaces(line); n + 5 <= |line| && r == line[..n] + OpenBox + line[n + 5..])
    ensures !Selected(line, DoneBox, taskText) ==> r == line
    ensures '\n' !in line ==> '\n' !in r
  {
    if Selected(line, DoneBox, taskText) then
      BoxFacts();
      MarkerAt(line, DoneBox);
      ReplaceFirstKeepsOut(line, DoneBox, OpenBox, '\n');
      ReplaceFirst(line, DoneBox, OpenBox)
    else line
  }

  /** A line of the modal's `markTaskDone`: `line.replace('- [ ]', '- [x]')`
      on a selected line. The box replaced is the one the line starts with. */
  function ModalDoneLine(line: string, taskText: string): (r: string)
    ensures Selected(line, OpenBox, taskText) ==>
      (var n := LeadingSpaces(line); n + 5 <= |line| && r == line[..n] + DoneBox + line[n + 5..])
    ensures !Selected(line, OpenBox, taskText) ==> r == line
    ensures '\n' !in line ==> '\n' !in r
  {
    if Selected(line, OpenBox, taskText) then
      BoxFacts();
      MarkerAt(line, OpenBox);
      ReplaceFirstKeepsOut(line, OpenBox, DoneBox, '\n');
      ReplaceFirst(line, OpenBox, DoneBox)
    else line
  }

  /** `@start(nextStart)` in place of the line's first start decoration, or
      appended after the line with its trailing whitespace removed. */
  function WithStart(line: string, nextStart: string): (r: string)
    ensures '\n' !in line && '\n' !in nextStart ==> '\n' !in r
  {
    var dec := StartTag + nextStart + ")";
    if Decoration(line, StartTag).Some? then
      ReplaceDecorationKeepsOut(line, StartTag, dec, '\n');
      ReplaceDecoration(line, StartTag, dec)
    else TrimEnd(line) + " " + dec
  }

  /** A line of the plugin's `markTaskDone`, `today` being the day
      `new Date()` reads. */
  function DoneLine(line: string, taskText: string, today: Date): (r: string)
    requires ValidDate(today)
    ensures !Selected(line, OpenBox, taskText) ==> r == line
    ensures '\n' !in line ==> '\n' !in r
  {
    if !Selected(line, OpenBox, taskText) then line
    else match Decoration(line, RecurTag)
      case Some(payload) =>
        (match NextStartOf(payload, line, today)
         case Some(ns) =>
           NextStartText(payload, line, today);
           WithStart(line, ns)
         case None => line)
      case None => ModalDoneLine(line, taskText)
  }

  // --------------------------------------------------------------- notes

  function MapLines(lines: seq<string>, f: string -> string): (r: seq<string>)
    ensures |r| == |lines| && forall i :: 0 <= i < |lines| ==> r[i] == f(lines[i])
  {
    seq(|lines|, i requires 0 <= i < |lines| => f(lines[i]))
  }

  /** `content.split("\n").map(f).join("\n")`. */
  function RewriteLines(content: string, f: string -> string): string {
    Join(MapLines(Split(content, '\n'), f), '\n')
  }

  /** The note `markTaskUndone` writes back. */
  function MarkTaskUndone(content: string, taskText: string): string {
    RewriteLines(content, line => UndoneLine(line, taskText))
  }

  /** The note the modal's `markTaskDone` writes back. */
  function ModalMarkTaskDone(content: string, taskText: string): string {
    RewriteLines(content, line => ModalDoneLine(line, taskText))
  }

  /** The note the plugin's `markTaskDone` writes back. */
  function MarkedDone(content: string, taskText: string, today: Date): string
    requires ValidDate(today)
  {
    RewriteLines(content, line => DoneLine(line, taskText, today))
  }

  /** The callback the plugin's `markTaskDone` maps over the lines: the next
      start of a recurring task is computed with `Date` objects. */
  method RewriteDoneLine(line: string, taskText: string, today: Date) returns (newLine: string)
    requires ValidDate(today)
    ensures newLine == DoneLine(line, taskText, today)
  {
    newLine := line;
    if StartsWith(Trim(line), OpenBox) && Contains(line, taskText) {
      var recurMatch := Decoration(line, RecurTag);
      if recurMatch.Some? {
        var nextStart := ComputeNextStart(recurMatch.value, line, today);
        if nextStart.Some? {
          newLine := WithStart(line, nextStart.value);
        }
      } else {
        newLine := ReplaceFirst(line, OpenBox, DoneBox);
      }
    }
  }

  /** The plugin's `markTaskDone`: the note with every line rewritten. */
  method MarkTaskDone(content: string, taskText: string, today: Date) returns (updated: string)
    requires ValidDate(today)
    ensures updated == MarkedDone(content, taskText, today)
  {
    var lines := Split(content, '\n');
    var newLines: seq<string> := [];
    var i := 0;
    while i < |lines|
      invariant 0 <= i <= |lines|
      invariant newLines == MapLines(lines[..i], line => DoneLine(line, taskText, today))
    {
      var newLine := RewriteDoneLine(lines[i], taskText, today);
      MapLinesSnoc(lines, i, line => DoneLine(line, taskText, today));
      newLines := newLines + [newLine];
      i := i + 1;
    }
    assert lines[..i] == lines;
    updated := Join(newLines, '\n');
  }

  // ------------------------------------------------------- lemmas: notes

  /** Mapping one more line adds its image at the end. */
  lemma MapLinesSnoc(lines: seq<string>, i: nat, f: string -> string)
    requires i < |lines|
    ensures MapLines(lines[..i + 1], f) == MapLines(lines[..i], f) + [f(lines[i])]
  {
  }

  /** A rewrite that keeps lines free of `'\n'` keeps the note's lines: the
      rewritten note splits into the rewritten lines, one for one. */
  lemma RewrittenLines(content: string, f: string -> string)
    requires forall line :: '\n' !in line ==> '\n' !in f(line)
    ensures Split(RewriteLines(content, f), '\n') == MapLines(Split(content, '\n'), f)
  {
    SplitJoin(MapLines(Split(content, '\n'), f), '\n');
  }

  /** `markTaskUndone` keeps the number of lines and rewrites each on its own. */
  lemma UndoneLines(content: string, taskText: string)
    ensures var a, b := Split(content, '\n'), Split(MarkTaskUndone(content, taskText), '\n');
      |b| == |a| && forall i :: 0 <= i < |a| ==> b[i] == UndoneLine(a[i], taskText)
  {
    RewrittenLines(content, line => UndoneLine(line, taskText));
  }

  /** The modal's `markTaskDone` keeps the number of lines and rewrites each
      on its own. */
  lemma ModalDoneLines(content: string, taskText: string)
    ensures var a, b := Split(content, '\n'), Split(ModalMarkTaskDone(content, taskText), '\n');
      |b| == |a| && forall i :: 0 <= i < |a| ==> b[i] == ModalDoneLine(a[i], taskText)
  {
    RewrittenLines(content, line => ModalDoneLine(line, taskText));
  }

  /** The plugin's `markTaskDone` keeps the number of lines and rewrites each
      on its own. */
  lemma DoneLines(content: string, taskText: string, today: Date)
    requires ValidDate(today)
    ensures var a, b := Split(content, '\n'), Split(MarkedDone(content, taskText, today), '\n');
      |b| == |a| && forall i :: 0 <= i < |a| ==> b[i] == DoneLine(a[i], taskText, today)
  {
    RewrittenLines(content, line => DoneLine(line, taskText, today));
  }

  // ------------------------------------------------------- lemmas: lines

  /** Ticking a selected line and then unticking it gives the line back,
      provided the task's text follows the box. */
  lemma DoneThenUndone(line: string, taskText: string)
    requires Selected(line, OpenBox, taskText)
    requires LeadingSpaces(line) + 5 <= |line| && Contains(line[LeadingSpaces(line) + 5..], taskText)
    ensures Selected(ModalDoneLine(line, taskText), DoneBox, taskText)
    ensures UndoneLine(ModalDoneLine(line, taskText), taskText) == line
  {
    BoxFacts();
    MarkerAt(line, OpenBox);
    var n := LeadingSpaces(line);
    var r := ModalDoneLine(line, taskText);
    Swapped(line, n, OpenBox, DoneBox, r);
    ContainsSuffix(line[..n] + DoneBox, line[n + 5..], taskText);
    Reassembled(line, n, r);
  }

  /** Unticking a selected line and then ticking it gives the line back,
      provided the task's text follows the box. */
  lemma UndoneThenDone(line: string, taskText: string)
    requires Selected(line, DoneBox, taskText)
    requires LeadingSpaces(line) + 5 <= |line| && Contains(line[LeadingSpaces(line) + 5..], taskText)
    ensures Selected(UndoneLine(line, taskText), OpenBox, taskText)
    ensures ModalDoneLine(UndoneLine(line, taskText), taskText) == line
  {
    BoxFacts();
    MarkerAt(line, DoneBox);
    var n := LeadingSpaces(line);
    var r := UndoneLine(line, taskText);
    Swapped(line, n, DoneBox, OpenBox, r);
    ContainsSuffix(line[..n] + OpenBox, line[n + 5..], taskText);
    Reassembled(line, n, r);
  }

  /** A task line that is ticked parses as the same task, now done. */
  lemma CompletedTaskParsesDone(line: string, i: nat, taskText: string)
    requires Selected(line, OpenBox, taskText) && ParseLine(line, i).Some?
    ensures !ParseLine(line, i).value.done
    ensures ParseLine(ModalDoneLine(line, taskText), i) == Some(ParseLine(line, i).value.(done := true))
  {
    BoxAtLineStart(line, OpenBox, taskText);
    TickedAtStart(line, taskText);
    MarkSwapParses(line, ModalDoneLine(line, taskText), i, 'x');
  }

  /** A done task line that is unticked parses as the same task, now open. */
  lemma ReopenedTaskParsesOpen(line: string, i: nat, taskText: string)
    requires Selected(line, DoneBox, taskText) && ParseLine(line, i).Some?
    ensures ParseLine(line, i).value.done
    ensures ParseLine(UndoneLine(line, taskText), i) == Some(ParseLine(line, i).value.(done := false))
  {
    BoxAtLineStart(line, DoneBox, taskText);
    UntickedAtStart(line, taskText);
    MarkSwapParses(line, UndoneLine(line, taskText), i, ' ');
  }

  /** Without `@recur(...)` the plugin's `markTaskDone` ticks the line just as
      the modal's does, and a selected line does change. */
  lemma NonRecurringDone(line: string, taskText: string, today: Date)
    requires ValidDate(today) && Decoration(line, RecurTag).None?
    ensures DoneLine(line, taskText, today) == ModalDoneLine(line, taskText)
    ensures Selected(line, OpenBox, taskText) ==> DoneLine(line, taskText, today) != line
  {
    if Selected(line, OpenBox, taskText) {
      TickChanges(line, taskText);
    }
  }

  /** A recurring task whose rule gives a next start stays open, and its start
      decoration then reads that date: the first `@start(...)` is rewritten,
      or, when the line has none, one is appended. (A line with an unclosed
      `@start(` and no complete one is not covered.) */
  lemma RecurringTaskRescheduled(line: string, taskText: string, today: Date, payload: string, next: string)
    requires ValidDate(today) && Selected(line, OpenBox, taskText)
    requires Decoration(line, RecurTag) == Some(payload)
    requires NextStartOf(payload, line, today) == Some(next)
    requires Decoration(line, StartTag).Some? || StartsClosed(line)
    ensures var r := DoneLine(line, taskText, today);
      && StartsWith(Trim(r), OpenBox) && LeadingSpaces(r) == LeadingSpaces(line)
      && Decoration(r, StartTag) == Some(next)
  {
    RecurringDoneLine(line, taskText, today, payload, next);
    OpenBoxAt(line, taskText);
    StartRewritten(line, LeadingSpaces(line), next);
  }

  /** On a selected recurring line with a next start, the line is rewritten
      by `WithStart` with a date that fits inside a decoration. */
  lemma RecurringDoneLine(line: string, taskText: string, today: Date, payload: string, next: string)
    requires ValidDate(today) && Selected(line, OpenBox, taskText)
    requires Decoration(line, RecurTag) == Some(payload)
    requires NextStartOf(payload, line, today) == Some(next)
    ensures DoneLine(line, taskText, today) == WithStart(line, next)
    ensures |next| >= 1 && ')' !in next
  {
    NextStartText(payload, line, today);
  }

  /** Where the open box of a selected line sits. */
  lemma OpenBoxAt(line: string, taskText: string)
    requires Selected(line, OpenBox, taskText)
    ensures var n := LeadingSpaces(line);
      n + 5 <= |line| && AllSpaces(line[..n]) && line[n..n + 5] == OpenBox
  {
    BoxFacts();
    MarkerAt(line, OpenBox);
  }

  /** A recurring task whose rule the code does not recognise is left as it is. */
  lemma UnknownRuleKeepsLine(line: string, taskText: string, today: Date, payload: string)
    requires ValidDate(today)
    requires Decoration(line, RecurTag) == Some(payload) && ParseRule(payload).None?
    ensures DoneLine(line, taskText, today) == line
  {
  }

  // ------------------------------------------------------------- helpers

  /** The box a trimmed line starts with sits right after the leading
      whitespace, and it is the first occurrence of that box in the line. */
  lemma MarkerAt(line: string, box: string)
    requires |box| >= 1 && !IsSpace(box[0]) && StartsWith(Trim(line), box)
    ensures var n := LeadingSpaces(line);
      && n + |box| <= |line| && line[n..n + |box|] == box && AllSpaces(line[..n])
      && IndexOf(line, box) == n
  {
    var n := LeadingSpaces(line);
    var t := Trim(line);
    assert line[n..n + |box|] == t[..|box|];
    forall k | 0 <= k < n ensures !OccursAt(line, box, k) {
      assert IsSpace(line[..n][k]);
    }
    assert OccursAt(line, box, n);
  }

  /** Whitespace, then a box that neither starts nor ends with whitespace:
      the trimmed string starts with the box. */
  lemma BoxAfterSpaces(r: string, n: nat, box: string)
    requires |box| >= 1 && !IsSpace(box[0]) && !IsSpace(box[|box| - 1])
    requires n + |box| <= |r| && AllSpaces(r[..n]) && r[n..n + |box|] == box
    ensures LeadingSpaces(r) == n && StartsWith(Trim(r), box)
  {
    var s := r[n..];
    TrimStartAt(r, n);
    assert s[..|box|] == box;
    TrimEndStartsWith(s, box);
  }

  /** Whitespace up to `n` and none at `n`: `trimStart` keeps from `n` on. */
  lemma TrimStartAt(r: string, n: nat)
    requires n < |r| && AllSpaces(r[..n]) && !IsSpace(r[n])
    ensures TrimStart(r) == r[n..]
  {
    assert r == r[..n] + r[n..];
    TrimStartAfterSpaces(r[..n], r[n..]);
    TrimStartOfTrimmed(r[n..]);
  }

  /** A string that starts with a box ending in a non-space still does so
      after `trimEnd`. */
  lemma TrimEndStartsWith(s: string, box: string)
    requires 1 <= |box| <= |s| && s[..|box|] == box && !IsSpace(box[|box| - 1])
    ensures StartsWith(TrimEnd(s), box)
  {
    var t := TrimEnd(s);
    assert s[|box| - 1] == box[|box| - 1];
    TrimEndKeeps(s, |box| - 1);
    assert t[..|box|] == s[..|box|];
  }

  /** `trimEnd` keeps every character up to the last one that is not whitespace. */
  lemma TrimEndKeeps(s: string, k: nat)
    requires k < |s| && !IsSpace(s[k])
    ensures |TrimEnd(s)| > k
  {
    var t := TrimEnd(s);
    forall j | |t| <= j < |s| ensures IsSpace(s[j]) {
      assert s[j] == s[|t|..][j - |t|];
    }
  }

  /** The two boxes: five characters, differing only in the mark. */
  lemma BoxFacts()
    ensures |OpenBox| == 5 && |DoneBox| == 5 && OpenBox[..3] == DoneBox[..3] == "- ["
    ensures OpenBox[3] == ' ' && DoneBox[3] == 'x' && OpenBox[4] == ']' && DoneBox[4] == ']'
    ensures OpenBox[0] == '-' && DoneBox[0] == '-' && !IsSpace('-') && !IsSpace(']')
    ensures '\n' !in OpenBox && '\n' !in DoneBox && '@' !in OpenBox
  {
  }

  /** The box of a selected line that is a task starts the line. */
  lemma BoxAtLineStart(line: string, box: string, taskText: string)
    requires |box| == 5 && box[0] == '-' && Selected(line, box, taskText) && MatchCheckbox(line).Some?
    ensures LeadingSpaces(line) == 0 && line[..5] == box
  {
    MarkerAt(line, box);
  }

  /** Ticking a line that starts with the open box changes its fourth character. */
  lemma TickedAtStart(line: string, taskText: string)
    requires Selected(line, OpenBox, taskText) && LeadingSpaces(line) == 0 && line[..5] == OpenBox
    ensures line[1] == ' ' && line[2] == '[' && Lower(line[3]) != 'x'
    ensures ModalDoneLine(line, taskText) == line[..3] + ['x'] + line[4..]
  {
    BoxFacts();
    MarkReplaced(line, DoneBox, ModalDoneLine(line, taskText));
  }

  /** Unticking a line that starts with the done box changes its fourth character. */
  lemma UntickedAtStart(line: string, taskText: string)
    requires Selected(line, DoneBox, taskText) && LeadingSpaces(line) == 0 && line[..5] == DoneBox
    ensures line[1] == ' ' && line[2] == '[' && Lower(line[3]) == 'x'
    ensures UndoneLine(line, taskText) == line[..3] + [' '] + line[4..]
  {
    BoxFacts();
    MarkReplaced(line, OpenBox, UndoneLine(line, taskText));
  }

  /** The line with the box at its start exchanged for one with another mark. */
  lemma MarkReplaced(line: string, b: string, r: string)
    requires |line| >= 5 && |b| == 5 && b[..3] == line[..3] && b[4] == line[4]
    requires r == line[..0] + b + line[5..]
    ensures r == line[..3] + [b[3]] + line[4..]
  {
    assert b == line[..3] + [b[3]] + line[4..5];
    assert line[4..] == line[4..5] + line[5..];
  }

  /** Ticking a selected line changes it. */
  lemma TickChanges(line: string, taskText: string)
    requires Selected(line, OpenBox, taskText)
    ensures ModalDoneLine(line, taskText) != line
  {
    BoxFacts();
    MarkerAt(line, OpenBox);
    var n := LeadingSpaces(line);
    var r := ModalDoneLine(line, taskText);
    assert (line[..n] + DoneBox)[n + 3] == 'x';
    assert r[n + 3] == 'x';
    assert line[n..n + 5][3] == ' ';
  }

  /** Writing the next start keeps the box at the front of the line, and the
      start decoration then reads the new date. */
  lemma StartRewritten(line: string, n: nat, next: string)
    requires n + 5 <= |line| && AllSpaces(line[..n]) && line[n..n + 5] == OpenBox
    requires |next| >= 1 && ')' !in next
    requires Decoration(line, StartTag).Some? || StartsClosed(line)
    ensures var r := WithStart(line, next);
      && StartsWith(Trim(r), OpenBox) && LeadingSpaces(r) == n && Decoration(r, StartTag) == Some(next)
  {
    var r := WithStart(line, next);
    if Decoration(line, StartTag).Some? {
      StartReplaced(line, n, next, r);
    } else {
      StartAppended(line, n, next, r);
    }
    OpenBoxKept(line, r, n);
  }

  /** A line that agrees with an open task line up to the end of its box is
      selected as open, with the box at the same place. */
  lemma OpenBoxKept(line: string, r: string, n: nat)
    requires n + 5 <= |line| && AllSpaces(line[..n]) && line[n..n + 5] == OpenBox
    requires n + 5 <= |r| && r[..n + 5] == line[..n + 5]
    ensures StartsWith(Trim(r), OpenBox) && LeadingSpaces(r) == n
  {
    SamePrefix(line, r, n);
    BoxFacts();
    BoxAfterSpaces(r, n, OpenBox);
  }

  lemma StartReplaced(line: string, n: nat, next: string, r: string)
    requires n + 5 <= |line| && AllSpaces(line[..n]) && line[n..n + 5] == OpenBox
    requires |next| >= 1 && ')' !in next
    requires Decoration(line, StartTag).Some?
    requires r == ReplaceDecoration(line, StartTag, StartTag + next + ")")
    ensures n + 5 <= |r| && r[..n + 5] == line[..n + 5] && Decoration(r, StartTag) == Some(next)
  {
    StartTagWellFormed();
    ReplacedDecorationReadsBack(line, StartTag, next);
    ReplacedKeepsBox(line, n, StartTag + next + ")", r);
  }

  /** Every `@start(` on the line is followed somewhere by a `)`. */
  predicate StartsClosed(line: string) {
    forall i :: 0 <= i <= |line| && TagOccursAt(line, StartTag, i) ==> IndexOfChar(line, ')', i + |StartTag|) >= 0
  }

  /** Without a start decoration, a closed `@start(` can only be the empty
      `@start()`. */
  lemma ClosedStartsEmpty(line: string)
    requires Decoration(line, StartTag).None? && StartsClosed(line)
    ensures OnlyEmptyTags(line, StartTag)
  {
    forall i | TagOccursAt(line, StartTag, i)
      ensures i + |StartTag| < |line| && line[i + |StartTag|] == ')'
    {
      assert !DecorationAt(line, StartTag, i);
    }
  }

  lemma StartAppended(line: string, n: nat, next: string, r: string)
    requires n + 5 <= |line| && line[n..n + 5] == OpenBox
    requires |next| >= 1 && ')' !in next
    requires Decoration(line, StartTag).None? && StartsClosed(line)
    requires r == TrimEnd(line) + " " + (StartTag + next + ")")
    ensures n + 5 <= |r| && r[..n + 5] == line[..n + 5] && Decoration(r, StartTag) == Some(next)
  {
    AppendedKeepsBox(line, n, StartTag + next + ")", r);
    ClosedStartsEmpty(line);
    AppendedStart(line, TrimEnd(line), next, r);
  }

  /** Appending after the trimmed line keeps the box and what precedes it. */
  lemma AppendedKeepsBox(line: string, n: nat, dec: string, r: string)
    requires n + 5 <= |line| && line[n..n + 5] == OpenBox && r == TrimEnd(line) + " " + dec
    ensures n + 5 <= |r| && r[..n + 5] == line[..n + 5]
  {
    BoxFacts();
    assert line[n + 4] == line[n..n + 5][4];
    var t := TrimEnd(line);
    TrimEndPrefix(line, n + 5);
    assert r[..n + 5] == t[..n + 5];
  }

  /** Trimming the end keeps every character up to a non-space one. */
  lemma {:induction false} TrimEndPrefix(s: string, m: nat)
    requires 1 <= m <= |s| && !IsSpace(s[m - 1])
    ensures m <= |TrimEnd(s)| && TrimEnd(s)[..m] == s[..m]
  {
    if IsSpace(s[|s| - 1]) {
      var s' := s[..|s| - 1];
      assert s'[m - 1] == s[m - 1];
      TrimEndPrefix(s', m);
      assert s'[..m] == s[..m];
    }
  }

  /** Two strings that agree up to the end of the box agree on the whitespace
      before it and on the box. */
  lemma SamePrefix(line: string, r: string, n: nat)
    requires n + 5 <= |line| && AllSpaces(line[..n]) && line[n..n + 5] == OpenBox
    requires n + 5 <= |r| && r[..n + 5] == line[..n + 5]
    ensures AllSpaces(r[..n]) && r[n..n + 5] == OpenBox
  {
    assert r[..n] == r[..n + 5][..n] && line[..n] == line[..n + 5][..n];
    assert r[n..n + 5] == r[..n + 5][n..] && line[n..n + 5] == line[..n + 5][n..];
  }

  lemma ReplacedKeepsBox(line: string, n: nat, dec: string, r: string)
    requires n + 5 <= |line| && AllSpaces(line[..n]) && line[n..n + 5] == OpenBox
    requires Decoration(line, StartTag).Some? && r == ReplaceDecoration(line, StartTag, dec)
    ensures n + 5 <= |r| && r[..n + 5] == line[..n + 5]
  {
    DecorationAfterBox(line, n);
    ReplacedFront(line, StartTag, dec, n + 5);
  }

  /** Replacing a decoration keeps everything before it. */
  lemma ReplacedFront(s: string, tag: string, rep: string, m: nat)
    requires Decoration(s, tag).Some? && m <= FindDecoration(s, tag, 0)
    ensures var r := ReplaceDecoration(s, tag, rep); m <= |r| && r[..m] == s[..m]
  {
    var r := ReplaceDecoration(s, tag, rep);
    var i := FindDecoration(s, tag, 0);
    var j := IndexOfChar(s, ')', i + |tag|);
    assert r == s[..i] + rep + s[j + 1..];
    assert r[..m] == s[..i][..m];
  }

  lemma AppendedStart(line: string, p: string, next: string, r: string)
    requires |next| >= 1 && ')' !in next
    requires OnlyEmptyTags(line, StartTag)
    requires p == TrimEnd(line) && r == p + " " + (StartTag + next + ")")
    ensures Decoration(r, StartTag) == Some(next)
  {
    StartTagWellFormed();
    EmptyTagsInTrimmed(line);
    AppendedDecorationReadsBack(p, StartTag, next);
  }

  /** The line with the box at `n` exchanged, and what it is selected as. */
  lemma Swapped(line: string, n: nat, a: string, b: string, r: string)
    requires |a| == |b| == 5 && !IsSpace(b[0]) && !IsSpace(b[4])
    requires n + 5 <= |line| && AllSpaces(line[..n]) && r == line[..n] + b + line[n + 5..]
    ensures LeadingSpaces(r) == n && StartsWith(Trim(r), b)
    ensures r[..n] == line[..n] && r[n + 5..] == line[n + 5..]
  {
    assert r[..n] == line[..n];
    assert r[n..n + 5] == b;
    BoxAfterSpaces(r, n, b);
  }

  /** A line put back together around its box. */
  lemma Reassembled(line: string, n: nat, r: string)
    requires n + 5 <= |line| && n + 5 <= |r| && r[..n] == line[..n] && r[n + 5..] == line[n + 5..]
    ensures r[..n] + line[n..n + 5] + r[n + 5..] == line
  {
    assert line == line[..n] + line[n..n + 5] + line[n + 5..];
  }

  /** Text found in the tail of a string is found in the string. */
  lemma ContainsSuffix(a: string, b: string, p: string)
    requires Contains(b, p)
    ensures Contains(a + b, p)
  {
    var k := IndexOf(b, p);
    assert (a + b)[|a| + k..|a| + k + |p|] == b[k..k + |p|];
    assert OccursAt(a + b, p, |a| + k);
  }

  /** Replacing text by text without `c` brings no `c` in. */
  lemma ReplaceFirstKeepsOut(s: string, p: string, rep: string, c: char)
    ensures c !in s && c !in rep ==> c !in ReplaceFirst(s, p, rep)
  {
    var i := IndexOf(s, p);
    if i >= 0 && c !in s {
      assert c !in s[..i] && c !in s[i + |p|..];
    }
  }

  lemma ReplaceDecorationKeepsOut(s: string, tag: string, rep: string, c: char)
    ensures c !in s && c !in rep ==> c !in ReplaceDecoration(s, tag, rep)
  {
    var i := FindDecoration(s, tag, 0);
    if i >= 0 && c !in s {
      var j := IndexOfChar(s, ')', i + |tag|);
      assert ReplaceDecoration(s, tag, rep) == ReplaceMatch(s, tag, rep, i) == s[..i] + rep + s[j + 1..];
      assert c !in s[..i] && c !in s[j + 1..];
    }
  }

  /** Trimming the end keeps every empty `@start()`, closing `)` included. */
  lemma EmptyTagsInTrimmed(line: string)
    requires OnlyEmptyTags(line, StartTag)
    ensures OnlyEmptyTags(TrimEnd(line), StartTag)
  {
    var p := TrimEnd(line);
    var L := |StartTag|;
    forall i | TagOccursAt(p, StartTag, i) ensures i + L < |p| && p[i + L] == ')' {
      assert p[i..i + L] == line[i..i + L];
      assert TagOccursAt(line, StartTag, i);
      TrimEndPrefix(line, i + L + 1);
      assert p[i + L] == p[..i + L + 1][i + L];
    }
  }

  /** The first start decoration lies after the box the line starts with. */
  lemma DecorationAfterBox(line: string, n: nat)
    requires n + 5 <= |line| && AllSpaces(line[..n]) && line[n..n + 5] == OpenBox
    requires Decoration(line, StartTag).Some?
    ensures FindDecoration(line, StartTag, 0) >= n + 5
  {
    var i := FindDecoration(line, StartTag, 0);
    assert Lower(line[i..i + |StartTag|][0]) == Lower(StartTag[0]);
    NoAtInFront(line, n);
  }

  /** Neither the whitespace before the box nor the box holds an `@`. */
  lemma NoAtInFront(line: string, n: nat)
    requires n + 5 <= |line| && AllSpaces(line[..n]) && line[n..n + 5] == OpenBox
    ensures forall k :: 0 <= k < n + 5 ==> line[k] != '@'
  {
    BoxFacts();
    forall k | 0 <= k < n + 5 ensures line[k] != '@' {
      if k < n {
        assert IsSpace(line[..n][k]);
      } else {
        assert line[k] == OpenBox[k - n];
      }
    }
  }

  /** The characters a printed date can hold: digits, `-` and those of `NaN`. */
  predicate StampChars(s: string) {
    forall i :: 0 <= i < |s| ==> IsDigit(s[i]) || s[i] == '-' || s[i] == 'N' || s[i] == 'a'
  }

  lemma NumTextChars(x: Num)
    ensures StampChars(NumText(x)) && StampChars(PadStart2(NumText(x)))
  {
    if x.Int? && x.v < 0 {
      assert NumText(x) == "-" + NatToString(-x.v);
    }
  }

  /** A printed stamp is non-empty and holds only digits, `-`, `N` and `a`. */
  lemma StampTextChars(s: Stamp)
    ensures |StampText(s)| >= 1 && StampChars(StampText(s))
  {
    NumTextChars(s.year);
    NumTextChars(s.month);
    NumTextChars(s.day);
  }

  /** A printed next start is non-empty and holds neither `)` nor `'\n'`. */
  lemma NextStartText(payload: string, line: string, today: Date)
    requires ValidDate(today)
    ensures var r := NextStartOf(payload, line, today);
      r.Some? ==> |r.value| >= 1 && ')' !in r.value && '\n' !in r.value
  {
    var r := NextStartOf(payload, line, today);
    if r.Some? {
      var rule := ParseRule(payload).value;
      var s := NextStamp(rule, Anchor(line, today)).value;
      assert r.value == StampText(s);
      StampTextChars(s);
      NotInStamp(StampText(s));
    }
  }

  lemma NotInStamp(t: string)
    requires StampChars(t)
    ensures ')' !in t && '\n' !in t
  {
  }

  /** Exchanging the mark in a task line's box changes only `done`. */
  lemma MarkSwapParses(line: string, r: string, i: nat, m: char)
    requires ParseLine(line, i).Some? && IsMark(m)
    requires |line| >= 5 && line[1] == ' ' && line[2] == '[' && r == line[..3] + [m] + line[4..]
    ensures ParseLine(line, i).value.done <==> Lower(line[3]) == 'x'
    ensures ParseLine(r, i) == Some(ParseLine(line, i).value.(done := Lower(m) == 'x'))
  {
    var mt := MatchCheckbox(line).value;
    MarkSwapMatch(line, r, m);
    assert ParseLine(r, i) == Some(TaskOf(CheckboxMatch(m, mt.rest), i));
  }

  lemma MarkSwapMatch(line: string, r: string, m: char)
    requires MatchCheckbox(line).Some? && IsMark(m)
    requires |line| >= 5 && line[1] == ' ' && line[2] == '[' && r == line[..3] + [m] + line[4..]
    ensures MatchCheckbox(line).value.mark == line[3]
    ensures MatchCheckbox(r) == Some(CheckboxMatch(m, MatchCheckbox(line).value.rest))
  {
    SwapSlices(line, r, m);
    SpaceRunEndIs(line, 1, 2);
    SpaceRunEndIs(r, 1, 2);
    var j := SpaceRunEnd(line, 5);
    SameTail(line, r, 5, j);
    SpaceRunEndIs(r, 5, j);
  }

  /** Where a line with its mark replaced agrees with the line. */
  lemma SwapSlices(line: string, r: string, m: char)
    requires |line| >= 5 && line[1] == ' ' && line[2] == '[' && r == line[..3] + [m] + line[4..]
    ensures |r| == |line| && r[0] == line[0] && r[1] == ' ' && r[2] == '[' && r[3] == m && r[4] == line[4]
    ensures line[1..2] == [' '] && r[1..2] == [' '] && r[5..] == line[5..]
  {
  }

  /** Strings that agree from `k` on agree on every piece from there. */
  lemma SameTail(a: string, b: string, k: nat, j: nat)
    requires |a| == |b| && k <= j <= |a| && a[k..] == b[k..]
    ensures a[k..j] == b[k..j] && a[j..] == b[j..]
  {
    assert a[k..j] == a[k..][..j - k] && b[k..j] == b[k..][..j - k];
    assert a[j..] == a[k..][j - k..] && b[j..] == b[k..][j - k..];
  }
}
