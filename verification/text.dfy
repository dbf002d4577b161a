/** The JavaScript string operations the plugin's code relies on, on
    `string = seq<char>`: the `\s` character class and `trim`, `split('\n')`
    and `join('\n')`, `indexOf`/`includes`/`startsWith`, `replace` with a
    string pattern, `parseInt` of a digit string, number printing with
    `padStart(2, '0')`, and the relational operators on strings. */
module Text {

  /** The characters matched by `\s` in a JavaScript regular expression and
      removed by `trim`, `trimStart` and `trimEnd`: the WhiteSpace and
      LineTerminator code points. */
  predicate IsSpace(c: char) {
    c == ' ' || c == '\t' || c == '\n' || c == '\r' || c == '\U{B}' || c == '\U{C}'
    || c == '\U{A0}' || c == '\U{1680}' || ('\U{2000}' <= c <= '\U{200A}')
    || c == '\U{2028}' || c == '\U{2029}' || c == '\U{202F}' || c == '\U{205F}'
    || c == '\U{3000}' || c == '\U{FEFF}'
  }

  /** The characters that `.` does not match in a pattern without the `s` flag. */
  predicate IsLineTerminator(c: char) {
    c == '\n' || c == '\r' || c == '\U{2028}' || c == '\U{2029}'
  }

  predicate IsDigit(c: char) { '0' <= c <= '9' }

  predicate IsAsciiLetter(c: char) { 'a' <= c <= 'z' || 'A' <= c <= 'Z' }

  /** `\w`: the characters that count as word characters for `\b`. */
  predicate IsWordChar(c: char) { IsDigit(c) || IsAsciiLetter(c) || c == '_' }

  /** Case folding of a pattern with the `i` flag and without the `u` flag:
      no character outside ASCII folds onto an ASCII one, so only the ASCII
      letters are affected. Also `toLowerCase` on the ASCII strings the code
      applies it to. */
  function Lower(c: char): char {
    if 'A' <= c <= 'Z' then (c as int + 32) as char else c
  }

  function ToLower(s: string): string {
    seq(|s|, i requires 0 <= i < |s| => Lower(s[i]))
  }

  predicate SameIgnoringCase(a: string, b: string) {
    |a| == |b| && forall i :: 0 <= i < |a| ==> Lower(a[i]) == Lower(b[i])
  }

  predicate AllSpaces(s: string) {
    forall i :: 0 <= i < |s| ==> IsSpace(s[i])
  }

  // ---------------------------------------------------------------- trimming

  /** `trimStart`: the suffix left after dropping the longest all-space prefix. */
  function TrimStart(s: string): (r: string)
    ensures |r| <= |s| && r == s[|s| - |r|..]
    ensures AllSpaces(s[..|s| - |r|])
    ensures r == [] || !IsSpace(r[0])
  {
    if s != [] && IsSpace(s[0]) then
      var r := TrimStart(s[1..]);
      assert s[1..][|s| - 1 - |r|..] == s[|s| - |r|..];
      assert forall k :: 1 <= k < |s| - |r| ==> s[k] == s[1..][..|s| - 1 - |r|][k - 1];
      r
    else s
  }

  /** `trimEnd`: the prefix left after dropping the longest all-space suffix. */
  function TrimEnd(s: string): (r: string)
    ensures |r| <= |s| && r == s[..|r|]
    ensures AllSpaces(s[|r|..])
    ensures r == [] || !IsSpace(r[|r| - 1])
  {
    if s != [] && IsSpace(s[|s| - 1]) then TrimEnd(s[..|s| - 1]) else s
  }

  /** The number of leading whitespace characters of `s`. */
  function LeadingSpaces(s: string): nat
  {
    |s| - |TrimStart(s)|
  }

  /** `trim`: the slice of `s` between its leading and its trailing run of
      whitespace, which neither starts nor ends with whitespace. */
  function Trim(s: string): (r: string)
    ensures LeadingSpaces(s) + |r| <= |s|
    ensures r == s[LeadingSpaces(s)..LeadingSpaces(s) + |r|]
    ensures AllSpaces(s[..LeadingSpaces(s)]) && AllSpaces(s[LeadingSpaces(s) + |r|..])
    ensures r == [] || (!IsSpace(r[0]) && !IsSpace(r[|r| - 1]))
  {
    var t := TrimStart(s);
    var r := TrimEnd(t);
    var n := |s| - |t|;
    assert t == s[n..];
    assert r == s[n..n + |r|];
    assert s[n + |r|..] == t[|r|..];
    r
  }

  /** Dropping whitespace in front of a string does not change what `trimStart` gives. */
  lemma {:induction false} TrimStartAfterSpaces(w: string, s: string)
    requires AllSpaces(w)
    ensures TrimStart(w + s) == TrimStart(s)
  {
    if w != [] {
      var ws := w + s;
      assert ws[0] == w[0];
      assert IsSpace(ws[0]);
      assert ws[1..] == w[1..] + s;
      assert TrimStart(ws) == TrimStart(ws[1..]);
      TrimStartAfterSpaces(w[1..], s);
    } else {
      assert w + s == s;
    }
  }

  /** A string that does not start with whitespace is its own `trimStart`. */
  lemma TrimStartOfTrimmed(s: string)
    requires s == [] || !IsSpace(s[0])
    ensures TrimStart(s) == s
  {
  }

  /** The end of the run of whitespace that starts at `k`: what a greedy `\s*`
      consumes there. */
  function SpaceRunEnd(s: string, k: nat): (r: nat)
    requires k <= |s|
    ensures k <= r <= |s| && AllSpaces(s[k..r]) && (r == |s| || !IsSpace(s[r]))
    decreases |s| - k
  {
    if k < |s| && IsSpace(s[k]) then SpaceRunEnd(s, k + 1) else k
  }

  /** A whitespace run that ends at a non-space (or at the end) is the greedy run. */
  lemma SpaceRunEndIs(s: string, k: nat, r: nat)
    requires k <= r <= |s| && AllSpaces(s[k..r]) && (r == |s| || !IsSpace(s[r]))
    ensures SpaceRunEnd(s, k) == r
  {
    var e := SpaceRunEnd(s, k);
    assert forall i :: k <= i < r ==> s[i] == s[k..r][i - k];
    assert forall i :: k <= i < e ==> s[i] == s[k..e][i - k];
  }

  // ------------------------------------------------------- searching strings

  predicate OccursAt(s: string, p: string, i: int) {
    0 <= i && i + |p| <= |s| && s[i..i + |p|] == p
  }

  /** `s.indexOf(p, from)`: the leftmost occurrence of `p` at or after `from`, or -1. */
  function IndexOfFrom(s: string, p: string, from: nat): (r: int)
    requires from <= |s|
    ensures r == -1 || (from <= r && OccursAt(s, p, r))
    ensures r >= 0 ==> forall k :: from <= k < r ==> !OccursAt(s, p, k)
    ensures r < 0 ==> forall k :: from <= k ==> !OccursAt(s, p, k)
    decreases |s| - from
  {
    if OccursAt(s, p, from) then from
    else if from == |s| then -1
    else IndexOfFrom(s, p, from + 1)
  }

  function IndexOf(s: string, p: string): int {
    IndexOfFrom(s, p, 0)
  }

  /** `s.includes(p)`. */
  predicate Contains(s: string, p: string) {
    IndexOf(s, p) >= 0
  }

  /** `s.startsWith(p)`. */
  predicate StartsWith(s: string, p: string) {
    OccursAt(s, p, 0)
  }

  /** `s.replace(p, rep)` for a string pattern and a replacement without `$`:
      only the leftmost occurrence is replaced. */
  function ReplaceFirst(s: string, p: string, rep: string): string {
    var i := IndexOf(s, p);
    if i < 0 then s else s[..i] + rep + s[i + |p|..]
  }

  /** The index of the first `c` at or after `from`, or -1. */
  function IndexOfChar(s: string, c: char, from: nat): (r: int)
    requires from <= |s|
    ensures r == -1 || from <= r < |s|
    ensures r >= 0 ==> s[r] == c && forall k :: from <= k < r ==> s[k] != c
    ensures r < 0 ==> forall k :: from <= k < |s| ==> s[k] != c
    decreases |s| - from
  {
    if from == |s| then -1
    else if s[from] == c then from
    else IndexOfChar(s, c, from + 1)
  }

  // ------------------------------------------------------ splitting, joining

  /** `s.split(sep)` for a one-character separator: at least one piece, none
      containing the separator. */
  function Split(s: string, sep: char): (parts: seq<string>)
    ensures |parts| >= 1
    ensures forall k :: 0 <= k < |parts| ==> sep !in parts[k]
    decreases |s|
  {
    var i := IndexOfChar(s, sep, 0);
    if i < 0 then [s] else [s[..i]] + Split(s[i + 1..], sep)
  }

  /** `parts.join(sep)`. */
  function Join(parts: seq<string>, sep: char): string
  {
    if |parts| == 0 then ""
    else if |parts| == 1 then parts[0]
    else parts[0] + [sep] + Join(parts[1..], sep)
  }

  /** Joining the pieces of a split gives the original text back. */
  lemma {:induction false} JoinSplit(s: string, sep: char)
    ensures Join(Split(s, sep), sep) == s
    decreases |s|
  {
    var i := IndexOfChar(s, sep, 0);
    if i >= 0 {
      var tail := Split(s[i + 1..], sep);
      var parts := Split(s, sep);
      assert parts == [s[..i]] + tail;
      assert parts[1..] == tail;
      assert Join(parts, sep) == s[..i] + [sep] + Join(tail, sep);
      JoinSplit(s[i + 1..], sep);
      assert s == s[..i] + [sep] + s[i + 1..];
    }
  }

  /** Splitting a join of separator-free pieces gives the pieces back. */
  lemma {:induction false} SplitJoin(parts: seq<string>, sep: char)
    requires |parts| >= 1
    requires forall k :: 0 <= k < |parts| ==> sep !in parts[k]
    ensures Split(Join(parts, sep), sep) == parts
  {
    if |parts| > 1 {
      var head := parts[0];
      var rest := Join(parts[1..], sep);
      var s := head + [sep] + rest;
      assert Join(parts, sep) == s;
      FirstSeparator(head, sep, rest);
      assert s[..|head|] == head;
      assert s[|head| + 1..] == rest;
      SplitJoin(parts[1..], sep);
      assert parts == [head] + parts[1..];
    } else {
      assert IndexOfChar(parts[0], sep, 0) < 0;
    }
  }

  lemma FirstSeparator(head: string, sep: char, rest: string)
    requires sep !in head
    ensures IndexOfChar(head + [sep] + rest, sep, 0) == |head|
  {
    var s := head + [sep] + rest;
    assert s[|head|] == sep;
    forall k | 0 <= k < |head| ensures s[k] != sep {
      assert s[k] == head[k];
    }
  }

  // ----------------------------------------------------------------- numbers

  predicate AllDigits(s: string) {
    forall i :: 0 <= i < |s| ==> IsDigit(s[i])
  }

  function DigitValue(c: char): int
  {
    c as int - '0' as int
  }

  function DigitChar(d: int): char
    requires 0 <= d < 10
  {
    ('0' as int + d) as char
  }

  /** `parseInt(s, 10)` of a string of decimal digits. */
  function DigitsValue(s: string): nat
    requires AllDigits(s)
  {
    if s == [] then 0 else 10 * DigitsValue(s[..|s| - 1]) + DigitValue(s[|s| - 1])
  }

  /** The decimal digits of a natural number, as `String(n)` prints it. */
  function NatToString(n: nat): (s: string)
    ensures |s| >= 1 && AllDigits(s) && DigitsValue(s) == n
    ensures n < 10 ==> |s| == 1
    ensures 10 <= n < 100 ==> |s| == 2
    ensures 1000 <= n < 10000 ==> |s| == 4
  {
    if n < 10 then [DigitChar(n)]
    else
      var s := NatToString(n / 10) + [DigitChar(n % 10)];
      assert s[..|s| - 1] == NatToString(n / 10);
      s
  }

  /** `String(n)` of an integer: a minus sign in front of a negative number. */
  function IntToString(n: int): string
  {
    if n < 0 then "-" + NatToString(-n) else NatToString(n)
  }

  /** `s.padStart(2, '0')`. */
  function PadStart2(s: string): (r: string)
    ensures |r| == if |s| < 2 then 2 else |s|
    ensures r[|r| - |s|..] == s
  {
    if |s| == 0 then "00" else if |s| == 1 then "0" + s else s
  }

  /** Equal-length digit strings with the same value are the same string. */
  lemma {:induction false} DigitsValueInjective(a: string, b: string)
    requires AllDigits(a) && AllDigits(b) && |a| == |b|
    requires DigitsValue(a) == DigitsValue(b)
    ensures a == b
  {
    if a != [] {
      var n := |a| - 1;
      DigitsValueInjective(a[..n], b[..n]);
      assert a == a[..n] + [a[n]] && b == b[..n] + [b[n]];
    }
  }

  // ------------------------------------------------- comparing two strings

  /** JavaScript's `a < b` on strings: lexicographic, a proper prefix first.
      (Code points are compared; for the ASCII strings the plugin compares this
      is the same as JavaScript's comparison of UTF-16 code units.) */
  predicate StrLess(a: string, b: string)
    decreases |a|
  {
    if b == [] then false
    else if a == [] then true
    else if a[0] != b[0] then a[0] < b[0]
    else StrLess(a[1..], b[1..])
  }

  /** No string is before itself. */
  lemma {:induction false} StrLessIrreflexive(a: string)
    ensures !StrLess(a, a)
    decreases |a|
  {
    if a != [] {
      StrLessIrreflexive(a[1..]);
    }
  }

  /** "Not before" is transitive: string order is a total order. */
  lemma {:induction false} StrNotLessTrans(a: string, b: string, c: string)
    requires !StrLess(a, b) && !StrLess(b, c)
    ensures !StrLess(a, c)
    decreases |a|
  {
    if a != [] && b != [] && c != [] && a[0] == c[0] {
      StrNotLessTrans(a[1..], b[1..], c[1..]);
    }
  }

  /** Comparing two concatenations with equal-length heads: the heads decide
      unless they are equal. */
  lemma {:induction false} StrLessConcat(x: string, y: string, x': string, y': string)
    requires |x| == |x'|
    ensures StrLess(x + y, x' + y') == if x == x' then StrLess(y, y') else StrLess(x, x')
  {
    if x != [] {
      assert (x + y)[1..] == x[1..] + y;
      assert (x' + y')[1..] == x'[1..] + y';
      StrLessConcat(x[1..], y, x'[1..], y');
      if x[0] == x'[0] && x[1..] == x'[1..] {
        assert x == x';
      }
    } else {
      assert x + y == y && x' + y' == y';
    }
  }

  /** Comparing a string with an extension of itself. */
  lemma {:induction false} StrLessAppend(x: string, c: char, x': string, c': char)
    requires |x| == |x'|
    ensures StrLess(x + [c], x' + [c']) == if x == x' then c < c' else StrLess(x, x')
  {
    StrLessConcat(x, [c], x', [c']);
  }

  /** On digit strings of the same length, string order is numeric order. */
  lemma {:induction false} StrLessDigits(a: string, b: string)
    requires AllDigits(a) && AllDigits(b) && |a| == |b|
    ensures StrLess(a, b) <==> DigitsValue(a) < DigitsValue(b)
  {
    if a != [] {
      var n := |a| - 1;
      assert a == a[..n] + [a[n]] && b == b[..n] + [b[n]];
      StrLessAppend(a[..n], a[n], b[..n], b[n]);
      StrLessDigits(a[..n], b[..n]);
      if a[..n] != b[..n] {
        if DigitsValue(a[..n]) == DigitsValue(b[..n]) {
          DigitsValueInjective(a[..n], b[..n]);
        }
      }
    }
  }
}
