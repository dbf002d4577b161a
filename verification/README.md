# projectGTD task engine in Dafny

This project models the task logic of projectGTD, an Obsidian plugin. The
plugin shows, for every note tagged `#projects`, the next task worth doing. It
lets the user tick tasks off, and it reschedules recurring tasks. The
model covers:

- **Task parsing** (`parseTasks`). A task is a line `- [ ] text` or `* [x] text`.
  The parser reads its text, its line number, whether it is done, and the
  `#pN`, `@start(...)`, `@due(...)` and `@recur(...)` decorations of its text.
- **Next-task selection** (`getNextTasks`). For every `#projects` note, the
  first task that is open and whose `@start` date is not after today. The
  `@start` date is read as `YYYY-MM-DD` or `today+Nd` and compared as a string.
  The task's priority comes from its own whole-word `#pN`, else from the note's,
  else it is 4.
- **Ordering** (`renderTasks`). The results sorted by priority, lowest number
  first. Equal priorities keep their order.
- **Completion** (the plugin's `markTaskDone`, its `markTaskUndone` and the
  modal's `markTaskDone`).
  - Ticking a task without `@recur` turns `- [ ]` into `- [x]`; unticking does
    the reverse.
  - A recurring task stays open. Its `@start` is moved to the next date its
    rule gives, or a new `@start` is appended.
  - The next date is computed with JavaScript `Date` objects. They are
    modelled as a class whose setters change the date in place, including
    day and month overflow, Invalid Date and NaN.
  - The rules are an interval (`3d`, `2w`, `1m`, `1y`),
    `monthly, day=N|last`, `yearly, month=M, day=N|last`, and a list of weekday
    names.

Modules, one per file:

- `Wrappers`: `Option`.
- `Text`: JavaScript string operations: `\s`, `trim`, `split`/`join`, `indexOf`,
  `replace`, number printing, string `<`.
- `Calendar`: proleptic Gregorian dates, day numbers, weekdays, and the `MakeDay`
  normalisation `Date` applies to out-of-range fields.
- `JsDates`: the `Date` object.
- `Decorations`: the decoration patterns.
- `TaskParser`, `DateResolver`, `RecurrenceRules`, `Recurrence`, `Selection`,
  `Completion`.

The model follows the code where the code's behaviour is surprising:

- **Interval months and years overflow.** Adding months or years goes through
  `setMonth`/`setFullYear`, which do not clamp. So `2024-01-31` plus `1m` is
  `2024-03-02`.
- **The `last` test is case-sensitive.** The rule patterns ignore case, but
  `=== 'last'` does not. So `day=LAST` parses, and then gives a `NaN` day.
- **A start that `Date` cannot read.** It makes the interval, monthly and
  yearly rules write `NaN` fields into `@start`. The weekday rule then writes
  nothing.
- **A payload that is no rule leaves the line unchanged.** The task is not
  ticked.
- **Fixed settings.** The project tag `#projects`, the priority range `#p1`–`#p7`
  and the default priority 4 are fixed. The plugin has no mode that shows every
  eligible task, and it does not remove duplicates.

## Model

| member | source | states |
|---|---|---|
| Text.Trim | src/taskUtils.ts:25 | `trim()` removes exactly the whitespace at both ends: the result is a middle slice of the input, what is cut off is whitespace, and the result neither starts nor ends with whitespace |
| Text.TrimEnd | src/main.ts:276 | `trimEnd()` keeps a prefix of the line, drops only whitespace, and leaves none at the end |
| Text.JoinSplit | src/main.ts:108-117 | joining the pieces of `split("\n")` with `"\n"` gives the note back, so a rewrite that changes no line changes nothing |
| Text.SplitJoin | src/main.ts:288 | splitting lines joined with `"\n"` gives those lines back when none contains `"\n"`, so the written note has exactly the rewritten lines |
| Text.StrLessDigits | src/main.ts:87 | two digit strings of the same length compare as strings exactly as their values compare |
| Text.NatToString | src/main.ts:183 | a number prints as decimal digits that read back as the number; four-digit years print as four characters |
| Text.PadStart2 | src/main.ts:183 | `padStart(2, '0')` gives at least two characters and ends with the original text |
| Calendar.AddDaysOrdinal | src/main.ts:178 | moving a valid date by n days gives a valid date whose day number is exactly n more |
| Calendar.OrdinalOrder | src/main.ts:87 | calendar order of valid dates is the order of their day numbers, and equal day numbers mean equal dates |
| Calendar.AddDaysLater | src/main.ts:257-261 | moving a date forward by a positive number of days gives a later date |
| Calendar.MakeDateShift | src/main.ts:68 | `setDate(getDate() + n)` lands exactly n days later, across month and year ends |
| Calendar.MakeDateOfFields | src/main.ts:173 | a `Date` built from a valid date's own fields is that date |
| Calendar.MakeDateRollover | src/main.ts:180 | a month index past 11 moves into later years; a day past the month's length rolls into the following month |
| Calendar.MakeDateDayZero | src/main.ts:204 | `new Date(y, m, 0)` is the last day of the month before index m: December 31 of the previous year for m = 0 |
| Calendar.WeekdayAddDays | src/main.ts:252 | the weekday n days later is the weekday moved by n, modulo 7 |
| JsDates.JsDate.Of | src/main.ts:168-174 | a `Date` holding the given day, or Invalid Date |
| JsDates.JsDate.FromFields | src/main.ts:204 | `new Date(y, m, d)`: Invalid Date if a field is NaN; otherwise the normalised date, with years 0 to 99 read as 1900 to 1999 |
| JsDates.JsDate.SetDate | src/main.ts:178 | the date becomes day d of its month, normalised; NaN or an Invalid Date gives Invalid Date |
| JsDates.JsDate.SetMonth | src/main.ts:180 | the date moves to month index m with the same day, normalised (overflowing, not clamping); NaN or an Invalid Date gives Invalid Date |
| JsDates.JsDate.SetFullYear | src/main.ts:181 | the date moves to year y, normalised; an Invalid Date first becomes 1970-01-01; NaN gives Invalid Date |
| Decorations.PriorityTag | src/taskUtils.ts:29-38 | no priority exactly when no `#pN` with N in 1 to 7 occurs (either case of `p`); otherwise the digit of the first occurrence, even in `#p12` |
| Decorations.FindPriorityTag | src/taskUtils.ts:29 | the first position at or after `from` where a priority tag starts, or -1 when there is none |
| Decorations.ExtractPriority | src/main.ts:46-50 | 1 to 7; the digit of the first `#pN` followed by a word boundary; 4 when there is none |
| Decorations.Decoration | src/taskUtils.ts:30-32 | none exactly when no `@tag(` is followed by a non-empty run up to `)`; otherwise that non-empty run, which holds no `)` |
| Decorations.FirstDecorationFound | src/taskUtils.ts:30-32 | when a decoration starts at `i` and none starts earlier, the match found is at `i` and the payload read is the text from after `@tag(` up to the first `)` |
| Decorations.FindDecoration | src/taskUtils.ts:30-32 | the first position at or after `from` where a decoration starts, or -1 when there is none |
| Decorations.ReplacedDecorationReadsBack | src/main.ts:273-274 | after the first `@start(...)` is replaced by `@start(text)`, the line's start decoration reads `text` |
| Decorations.AppendedDecorationReadsBack | src/main.ts:275-276 | after `@start(text)` is appended to a line whose every `@start(` is the empty `@start()` (or that has none), the line's start decoration reads `text` |
| TaskParser.MatchIffShape | src/taskUtils.ts:14 | the matcher succeeds exactly when `^[-*]\s+\[( \|x\|X)\]\s+(.*)$` can match the line in some way |
| TaskParser.GreedyRunCovers | src/taskUtils.ts:14 | the greedy whitespace runs cover those of any other match, and what follows has no line terminator |
| TaskParser.SameTextForEveryShape | src/taskUtils.ts:14-25 | every way of matching gives the same mark and the same trimmed text |
| TaskParser.TaskOf | src/taskUtils.ts:25-41 | the task has the line number and the trimmed remainder as its text; a priority is in 1 to 7 |
| TaskParser.ParseLine | src/taskUtils.ts:23-24 | a line yields a task exactly when it matches the pattern, and the task has that line's number |
| TaskParser.TaskFields | src/taskUtils.ts:23-41 | the text is the trimmed remainder; the task is done exactly for `x` or `X`; priority, start, due and recur come from the text |
| TaskParser.ParseTasks | src/taskUtils.ts:11-46 | the method returns the tasks of the split lines in line order: each is its own line's parse, none is missed |
| TaskParser.CollectAll | src/taskUtils.ts:22-45 | the collected tasks are sound (each is its line's parse), strictly ordered by line, and complete |
| TaskParser.CollectSound | src/taskUtils.ts:22-44 | every collected task is the parse of the line it names |
| TaskParser.CollectOrdered | src/taskUtils.ts:22-44 | collected tasks are in strictly increasing line order |
| TaskParser.CollectComplete | src/taskUtils.ts:22-44 | every line with a task contributes one |
| TaskParser.RenderedLineParses | src/taskUtils.ts:14-26 | a line `- [m] text` with trimmed text parses back with that text, done exactly when m is not a space |
| TaskParser.EmptyTaskText | src/taskUtils.ts:14 | `- [ ] ` is a task with empty text |
| TaskParser.NoTextIsNoTask | src/taskUtils.ts:14 | `- [ ]` without whitespace after the box is not a task |
| TaskParser.OtherMarkIsNoTask | src/taskUtils.ts:14 | `- [-] x` is not a task |
| TaskParser.IndentedIsNoTask | src/taskUtils.ts:14 | an indented item is not a task |
| TaskParser.PriorityWithoutBoundary | src/taskUtils.ts:17 | `#p12` gives priority 1: the parser's pattern needs no word boundary |
| DateResolver.IsoDate | src/main.ts:171-174 | a `YYYY-MM-DD` start gives a valid date exactly when the month is 1 to 12 and the day 1 to 31; otherwise Invalid Date |
| DateResolver.IsoDateOfFields | src/main.ts:173 | such a start is the date the fields give, with day overflow rolled into the next month |
| DateResolver.IsoDateOfYmd | src/main.ts:169-174 | a printed date read back as an anchor is the same date |
| DateResolver.RelativeDays | src/main.ts:65 | a number exactly when the text is `today+`, one or more digits and `d` (letters in any case); the number is the value of those digits |
| DateResolver.RelativeDaysExample | src/main.ts:65 | `Today+3D` gives 3 |
| DateResolver.DaysAfterText | src/main.ts:66-69 | the text is today moved by n days, printed as `toLocalYMD` prints it |
| DateResolver.ParseYMD | src/main.ts:59-72 | all three cases: a start beginning `YYYY-MM-DD` resolves to those ten characters; otherwise `today+Nd` resolves to the day N days after today, printed; anything else, the empty text included, resolves to nothing |
| DateResolver.RelativeStart | src/main.ts:62-70 | a `today+Nd` text is never an ISO prefix, so it always resolves to the date N days after today, printed |
| DateResolver.PaddedTwoDigits | src/main.ts:54 | a month or day below 100 prints as two digits that read back as the number |
| DateResolver.YearDigits | src/main.ts:54 | a four-digit year prints as four digits that read back as the year |
| DateResolver.YmdShape | src/main.ts:53-55 | a printed date is `YYYY-MM-DD` whose fields read back as the date's year, month and day |
| DateResolver.PrintedLayout | src/main.ts:53-55 | the printed date is ten characters, the fields at fixed places separated by `-` |
| DateResolver.YmdFieldsOrder | src/main.ts:87 | two such texts compare as strings exactly as their (year, month, day) triples compare, and are equal exactly when the triples are |
| DateResolver.YmdOrder | src/main.ts:87 | for four-digit years, comparing printed dates as strings is calendar order, and printing is injective |
| RecurrenceRules.ParseInterval | src/main.ts:161 | an interval has a count that the digits before the last character spell, and a unit that the last letter names in either case |
| RecurrenceRules.DaySpecOf | src/main.ts:203 | the day is "last day of month" exactly for lower-case `last` |
| RecurrenceRules.ParseMonthly | src/main.ts:162 | a payload in the monthly form gives a monthly rule |
| RecurrenceRules.MonthIndex | src/main.ts:225-226 | `monthNames.indexOf`: -1 exactly when the name is not a month's; otherwise the position of that name |
| RecurrenceRules.IndexIn | src/main.ts:226 | the first position of the string in the list, or -1 when it is absent |
| RecurrenceRules.MonthToken | src/main.ts:220-227 | a month exactly for one or two digits or three letters: the digits' value, or the lower-cased name's position plus one (0 for an unknown name) |
| RecurrenceRules.ParseYearly | src/main.ts:163 | a payload in the yearly form gives a yearly rule with a month from 0 to 99 |
| RecurrenceRules.YearlyReadsBack | src/main.ts:163 | `yearly, month=T, day=N` reads back as the month token's value and day N, for every token and every N |
| RecurrenceRules.YearlyNumberReadsBack | src/main.ts:220-222 | a month given as a number below 100 reads back as that number |
| RecurrenceRules.YearlyNameReadsBack | src/main.ts:223-226 | a month given by one of the twelve names reads back as its number, January being 1 |
| RecurrenceRules.MonthNameToken | src/main.ts:225-226 | each month name is a month token whose value is its position plus one |
| RecurrenceRules.WeekdayNumbers | src/main.ts:238-239 | fails exactly when some name is not a weekday; otherwise one number 0 to 6 per name, in order, Sunday being 0 |
| RecurrenceRules.ParseWeekly | src/main.ts:164 | a rule exactly when every comma-separated piece is a weekday name; then one number 0 to 6 per piece, in order, each that piece's weekday |
| RecurrenceRules.ParseRule | src/main.ts:161-164 | a weekly rule read from a payload has one or more weekday numbers, each 0 to 6 |
| RecurrenceRules.FormsExclusive | src/main.ts:161-164 | at most one of the four patterns matches a payload, so the order the code tries them in is irrelevant |
| RecurrenceRules.IntervalReadsBack | src/main.ts:161 | a count followed by a unit letter reads back as that interval |
| RecurrenceRules.MonthlyReadsBack | src/main.ts:162 | `monthly, day=N` reads back as day N |
| RecurrenceRules.IntervalExample | src/main.ts:161 | `2W` is every two weeks |
| RecurrenceRules.MonthlyExample | src/main.ts:162 | `monthly, day=last` is the last day of the month |
| RecurrenceRules.UpperLastIsNaN | src/main.ts:203-206 | `LAST` matches the pattern but gives the day NaN |
| RecurrenceRules.WeeklyExample | src/main.ts:238-239 | `mon,WED,fri` is Monday, Wednesday and Friday |
| RecurrenceRules.UnknownRule | src/main.ts:161-164 | `every day` is no rule |
| Recurrence.Anchor | src/main.ts:168-175 | today when the line has no `@start(...)` or its payload does not start `YYYY-MM-DD`; otherwise `new Date` of that prefix (possibly the Invalid Date) |
| Recurrence.RelativeStartAnchorsToday | src/main.ts:168-175 | a `today+Nd` start anchors the rule at today, not at the day it names |
| Recurrence.Advanced | src/main.ts:176-182 | advancing an interval keeps a valid anchor valid and an Invalid Date invalid |
| Recurrence.Offset | src/main.ts:256-257 | the distance to a weekday is 1 to 7 days and lands on that weekday |
| Recurrence.SoonestStep | src/main.ts:258-259 | each step of the weekday loop keeps the smallest distance seen so far |
| Recurrence.NextStamp | src/main.ts:166-267 | only a weekday rule can give no date |
| Recurrence.NextStartOf | src/main.ts:159-268 | a payload that is no rule gives no next start |
| Recurrence.StartDate | src/main.ts:168-175 | the `Date` object holds the anchor: the `@start` date read as ISO, or today |
| Recurrence.MonthEnd | src/main.ts:204 | the length of the month `new Date(y, m, 0).getDate()` gives |
| Recurrence.DaysAfter | src/main.ts:260-261 | a copy of the start date moved by `diff` days |
| Recurrence.SoonestWeekday | src/main.ts:249-264 | the loop finds the smallest distance to a listed weekday and the date that far from the start; no date for an Invalid Date |
| Recurrence.IntervalNext | src/main.ts:166-183 | the printed date the interval rule gives from the start date, computed with the setters in place |
| Recurrence.MonthlyNext | src/main.ts:184-208 | the printed date the monthly rule gives from the start date |
| Recurrence.YearlyNext | src/main.ts:209-234 | the printed date the yearly rule gives from the start date |
| Recurrence.WeeklyNext | src/main.ts:235-267 | the printed date the weekday rule gives, or none |
| Recurrence.ComputeNextStart | src/main.ts:159-268 | the next start the rule of the payload gives from the line's anchor, as the specification function states |
| Recurrence.AnchorOfPrintedStart | src/main.ts:169-174 | a `@start` holding a printed valid date anchors at exactly that date |
| Recurrence.InvalidAnchor | src/main.ts:168-267 | from Invalid Date, intervals and monthly rules give `NaN` fields, yearly rules keep only the month, and weekday rules give nothing |
| Recurrence.InvalidText | src/main.ts:183 | an invalid result prints as `NaN-NaN-NaN` |
| Recurrence.IntervalDays | src/main.ts:178-179 | `Nd` moves the anchor N days and `Nw` moves it 7N days |
| Recurrence.IntervalMonths | src/main.ts:180 | `Nm` moves to the month N later, and a day past that month's end rolls into the following month |
| Recurrence.MonthOverflowExample | src/main.ts:180 | 2024-01-31 plus `1m` is 2024-03-02 |
| Recurrence.IntervalYears | src/main.ts:181 | `Ny` keeps month and day, except that February 29 becomes March 1 in a common year |
| Recurrence.MonthLengthIs | src/main.ts:204 | outside the years 0 to 99, `new Date(y, m, 0).getDate()` is the length of month m |
| Recurrence.MonthlyNextDate | src/main.ts:194-208 | the next start is in the month after the anchor, on day N clamped to that month's length or on its last day, and is later than the anchor |
| Recurrence.MonthlyExamples | src/main.ts:203-206 | day 31 after 2024-01-31 is 2024-02-29; `last` after 2024-02-15 is 2024-03-31 |
| Recurrence.MonthlyDayZero | src/main.ts:206 | `day=0` writes day `00` of the following month |
| Recurrence.YearlyNextDate | src/main.ts:219-234 | the next start is in the year after the anchor, on the rule's month and day clamped to its length, and is later than the anchor |
| Recurrence.YearlyLeapExample | src/main.ts:219-234 | February 29 yearly from 2024-02-29 is 2025-02-28 |
| Recurrence.SoonestOffsetIs | src/main.ts:249-264 | the smallest distance is 1 to 7, reached by a listed weekday, and no larger than the distance to any listed weekday |
| Recurrence.OffsetUnique | src/main.ts:256-257 | the distance to a weekday is the only distance from 1 to 7 that lands on it |
| Recurrence.OffsetLands | src/main.ts:256-261 | moving by the distance to a weekday lands on that weekday |
| Recurrence.WeeklyNextDate | src/main.ts:235-267 | the next start is 1 to 7 days after the anchor, on a listed weekday, and no earlier day after the anchor is on one |
| Recurrence.SkippedDay | src/main.ts:256-259 | no day strictly between the anchor and the next start is on a listed weekday |
| Recurrence.WeeklyExample | src/main.ts:235-267 | Monday, Wednesday and Friday from Wednesday 2024-01-31 is Friday 2024-02-02 |
| Selection.FirstEligibleFrom | src/main.ts:83-90 | `find`: the first eligible task at or after `from`, every task before it ineligible; -1 when none is eligible |
| Selection.TaskPriority | src/main.ts:94-98 | 1 to 7; the task's own whole-word `#pN` when it has one, else the note's priority |
| Selection.NextTaskOf | src/main.ts:76-101 | a note contributes exactly when it mentions `#projects` and has an eligible task; the entry is for itself, with the first eligible task's text and that task's priority (its own tag, else the note's) |
| Selection.GetNextTasks | src/main.ts:39-104 | the loop over the notes returns what the specification function gives |
| Selection.NextTasksStep | src/main.ts:74-101 | one more note appends at most its own entry |
| Selection.NextTasksExact | src/main.ts:74-103 | at most one entry per note, priorities 1 to 7, every note's next task is present, and every entry is some note's next task |
| Selection.NextTasksAppend | src/main.ts:74-103 | the results keep the notes' order: two runs of notes give the first run's results followed by the second's |
| Selection.UntaggedNote | src/main.ts:76 | a note without `#projects` contributes nothing |
| Selection.ChosenTask | src/main.ts:83-90 | the entry is the first open task whose start is not later than today; every earlier task is done or starts after today |
| Selection.EligibleResolved | src/main.ts:85-88 | an open task whose start resolves is eligible exactly when today does not print before the resolved text |
| Selection.EligibleDatedStart | src/main.ts:85-88 | an open task starting on a printed date is eligible exactly when that date is not after today |
| Selection.EligibleRelativeStart | src/main.ts:65-70 | an open task starting `today+Nd` is eligible exactly when N is 0 |
| Selection.EligibleMonotone | src/main.ts:83-90 | a task eligible today is eligible on every later day |
| Selection.LaterPrintsLater | src/main.ts:87 | today moved by n days prints after today exactly when n is positive |
| Selection.InsertSorted | src/main.ts:409 | inserting into a sorted list keeps it sorted and adds exactly that entry |
| Selection.InsertFilter | src/main.ts:409 | inserting keeps the order among entries of each priority, the new entry last among its equals |
| Selection.SortByPriorityCorrect | src/main.ts:409 | the sorted results are ordered by priority and are a permutation of the results |
| Selection.SortByPriorityStable | src/main.ts:409 | entries of equal priority keep their relative order |
| Completion.OpenBoxAt | src/main.ts:155 | a selected line is whitespace, then `- [ ]` |
| Completion.UndoneLine | src/main.ts:110-115 | a selected line gets `- [ ]` in place of the `- [x]` that starts it; any other line is unchanged |
| Completion.ModalDoneLine | src/main.ts:354-359 | a selected line gets `- [x]` in place of the `- [ ]` that starts it; any other line is unchanged |
| Completion.DoneLine | src/main.ts:154-286 | a line that is not selected stays as it is, and no line gains a line break |
| Completion.RewriteDoneLine | src/main.ts:154-286 | the callback computes the line the specification gives, the next start from `Date` objects |
| Completion.MarkTaskDone | src/main.ts:146-290 | the loop rewrites the note as the specification gives |
| Completion.RewrittenLines | src/main.ts:108-117 | a line-by-line rewrite that adds no line breaks leaves the line count and changes only the lines it maps |
| Completion.UndoneLines | src/main.ts:106-119 | `markTaskUndone` keeps the line count and rewrites each line independently |
| Completion.ModalDoneLines | src/main.ts:349-363 | the modal's `markTaskDone` keeps the line count and rewrites each line independently |
| Completion.DoneLines | src/main.ts:146-290 | `markTaskDone` keeps the line count and rewrites each line independently |
| Completion.TickChanges | src/main.ts:354-357 | ticking changes every selected line |
| Completion.DoneThenUndone | src/main.ts:354-359 | unticking a ticked line gives the original line |
| Completion.UndoneThenDone | src/main.ts:110-115 | ticking an unticked line gives the original line |
| Completion.CompletedTaskParsesDone | src/main.ts:354-359 | after ticking, the line parses as the same task, now done |
| Completion.ReopenedTaskParsesOpen | src/main.ts:110-115 | after unticking, the line parses as the same task, now open |
| Completion.NonRecurringDone | src/main.ts:280-283 | a task without `@recur` is ticked exactly as the modal ticks it, and the line changes |
| Completion.RecurringDoneLine | src/main.ts:269-279 | a recurring task with a next start gets that `@start`, replaced or appended; the date is non-empty and holds no `)` |
| Completion.RecurringTaskRescheduled | src/main.ts:269-279 | for a line with a start decoration, or whose every `@start(` is later followed by `)` (the empty `@start()` included), the rescheduled line still starts with `- [ ]` at the same indentation, and its start decoration reads the next start |
| Completion.UnknownRuleKeepsLine | src/main.ts:157-279 | a task whose `@recur` is no rule keeps its line unchanged, unticked |
| Completion.NextStartText | src/main.ts:183 | a next start is non-empty and holds no `)` and no line break |
| Completion.StartRewritten | src/main.ts:272-278 | writing `@start(next)` keeps the open box and its indentation, and the start decoration reads `next` |

## Left out

- Obsidian itself is not modelled: views, the modal, ribbon and commands, `openFileInMain`, `Notice` and `console.log`.
- Vault I/O is not modelled. `getMarkdownFiles`, `vault.read` and `vault.modify` become a list of notes (name and content) and the content each rewrite returns.
- `new Date()` becomes the parameter `today`, a calendar day.
- Time of day and time zones are not modelled. `new Date("YYYY-MM-DD")` is UTC midnight, read back in local time; west of UTC that is the day before. The model reads the calendar date as written.
- JavaScript number limits are not modelled: integers are unbounded, and the `Date` range limit (±8.64e15 ms) and `parseInt` precision on very long digit strings are ignored.
- `renderTasks`' `Array.prototype.sort` is a library call. It is modelled by its specification: a stable sort by priority, written as insertion.
- The no-op `line.replace("- [ ]", "- [ ]")` of `markTaskDone` is left out. It returns the line unchanged.
- src/settings.ts and the plugin's settings are not part of this model. The code does not read them.
- DateResolver.YmdOrder: holds only for years 1000 to 9999. Other years print with a different number of digits, and string order then differs from date order.
- Selection.EligibleDatedStart: holds only for years 1000 to 9999, for the same reason.
- Selection.EligibleRelativeStart: holds only for years 1000 to 9999, for the same reason.
- Selection.EligibleMonotone: holds only for years 1000 to 9999, for the same reason. This includes the day a `today+Nd` start resolves to. When that day is in year 10000 or later, the string comparison can make such a task eligible on one day and not on the next.
- Recurrence.AnchorOfPrintedStart: holds only for years 1000 to 9999, for the same reason.
- DateResolver.IsoDateOfYmd: holds only for years 1000 to 9999, for the same reason.
- Recurrence.MonthlyNextDate: stated for anchors from year 100 on and day numbers of 1 or more. Years 0 to 99 are moved into the 1900s by the `Date` constructor, and day 0 is covered by Recurrence.MonthlyDayZero.
- Recurrence.YearlyNextDate: stated for anchors from year 99 on, months 1 to 12 and day numbers of 1 or more, for the same reason.
- Completion.RecurringTaskRescheduled: does not cover a line holding a `@start(` that never closes. Such a line gets a second `@start(...)` appended after the broken one. A line whose only `@start` is the empty `@start()` is covered: the new decoration is appended and is the one that reads back.
- Completion.DoneThenUndone: assumes the task's text occurs after the checkbox. Otherwise `includes` can match text that the tick changes.
- Completion.UndoneThenDone: assumes the task's text occurs after the checkbox, for the same reason.
- RecurrenceRules.ParseMonthly: states the shape of the result, not the grammar. The grammar is pinned by RecurrenceRules.MonthlyReadsBack, RecurrenceRules.FormsExclusive and the examples.
- RecurrenceRules.ParseYearly: states the shape of the result, not the grammar. The month token is pinned by RecurrenceRules.MonthToken's contract, and the grammar by RecurrenceRules.YearlyReadsBack and RecurrenceRules.FormsExclusive.
- RecurrenceRules.ParseRule: states the weekly shape only. Each form's grammar is pinned by its own contract or reads-back lemma, and RecurrenceRules.FormsExclusive makes the order the forms are tried in irrelevant.
