/** The inline decorations of a task line, matched the way the plugin's
    regular expressions match them: the priority tag `#pN` (with and without a
    word boundary after the digit) and the parenthesised `@start(...)`,
    `@due(...)` and `@recur(...)` decorations, each search returning the
    leftmost match or nothing. */
module Decorations {
  import opened Wrappers
  import opened Text

  const StartTag := "@start("
  const DueTag := "@due("
  const RecurTag := "@recur("

  // ------------------------------------------------------------ priority tags

  /** `#p` (the letter in either case) and a digit 1..7 at `i`: where
      `/#p([1-7])/i` matches. */
  predicate PriorityTagAt(s: string, i: int) {
    0 <= i && i + 3 <= |s| && s[i] == '#' && Lower(s[i + 1]) == 'p' && '1' <= s[i + 2] <= '7'
  }

  /** The same followed by a word boundary: where `/#p([1-7])\b/i` matches. */
  predicate WholePriorityTagAt(s: string, i: int) {
    PriorityTagAt(s, i) && (i + 3 == |s| || !IsWordChar(s[i + 3]))
  }

  predicate TagAt(s: string, i: int, whole: bool) {
    if whole then WholePriorityTagAt(s, i) else PriorityTagAt(s, i)
  }

  /** A tag at `i` with none further left. */
  predicate IsFirstTag(s: string, i: int, whole: bool) {
    TagAt(s, i, whole) && forall j :: 0 <= j < i ==> !TagAt(s, j, whole)
  }

  /** The leftmost tag position at or after `from`, or -1. */
  function FindPriorityTag(s: string, whole: bool, from: nat): (r: int)
    requires from <= |s|
    ensures r == -1 || (from <= r && TagAt(s, r, whole))
    ensures r >= 0 ==> forall j :: from <= j < r ==> !TagAt(s, j, whole)
    ensures r < 0 ==> forall j :: from <= j ==> !TagAt(s, j, whole)
    decreases |s| - from
  {
    if TagAt(s, from, whole) then from
    else if from == |s| then -1
    else FindPriorityTag(s, whole, from + 1)
  }

  /** The `priority` of a parsed task: the digit of the first `#pN`, with
      nothing required after the digit (so `#p12` gives 1); absent when the
      text holds no such tag. */
  function PriorityTag(text: string): (r: Option<int>)
    ensures r.None? <==> forall i :: !PriorityTagAt(text, i)
    ensures r.Some? ==> 1 <= r.value <= 7
    ensures forall i :: IsFirstTag(text, i, false) ==> r == Some(DigitValue(text[i + 2]))
  {
    var i := FindPriorityTag(text, false, 0);
    if i < 0 then
      assert forall j :: !PriorityTagAt(text, j) by {
        forall j ensures !PriorityTagAt(text, j) {
          if 0 <= j { assert !TagAt(text, j, false); }
        }
      }
      None
    else Some(DigitValue(text[i + 2]))
  }

  /** `s.match(/#p[1-7]\b/i)` succeeds. */
  predicate HasWholePriorityTag(s: string) {
    FindPriorityTag(s, true, 0) >= 0
  }

  /** `extractPriority`: the digit of the first whole-word `#pN`, else 4. */
  function ExtractPriority(s: string): (r: int)
    ensures 1 <= r <= 7
    ensures HasWholePriorityTag(s) <==> exists i :: WholePriorityTagAt(s, i)
    ensures !HasWholePriorityTag(s) ==> r == 4
    ensures forall i :: IsFirstTag(s, i, true) ==> r == DigitValue(s[i + 2])
  {
    var i := FindPriorityTag(s, true, 0);
    if i < 0 then
      assert forall j :: !WholePriorityTagAt(s, j) by {
        forall j ensures !WholePriorityTagAt(s, j) {
          if 0 <= j { assert !TagAt(s, j, true); }
        }
      }
      4
    else
      assert TagAt(s, i, true);
      DigitValue(s[i + 2])
  }

  // ------------------------------------------- parenthesised decorations

  /** The tag text (letters in either case) at `i`. */
  predicate TagOccursAt(s: string, tag: string, i: int) {
    0 <= i && i + |tag| <= |s| && SameIgnoringCase(s[i..i + |tag|], tag)
  }

  /** Where `/@tag\(([^)]+)\)/i` matches: the tag, then at least one
      character before the next `)`. */
  predicate DecorationAt(s: string, tag: string, i: int) {
    TagOccursAt(s, tag, i) && IndexOfChar(s, ')', i + |tag|) > i + |tag|
  }

  /** Every `@tag(` in `s` is closed at once, as in the empty `@tag()`, so
      none of them is a decoration. */
  predicate OnlyEmptyTags(s: string, tag: string) {
    forall i :: 0 <= i <= |s| && TagOccursAt(s, tag, i) ==> i + |tag| < |s| && s[i + |tag|] == ')'
  }

  predicate IsFirstDecoration(s: string, tag: string, i: int) {
    DecorationAt(s, tag, i) && forall j :: 0 <= j < i ==> !DecorationAt(s, tag, j)
  }

  /** The leftmost match position at or after `from`, or -1. */
  function FindDecoration(s: string, tag: string, from: nat): (r: int)
    requires from <= |s|
    ensures r == -1 || (from <= r && DecorationAt(s, tag, r))
    ensures r >= 0 ==> forall j :: from <= j < r ==> !DecorationAt(s, tag, j)
    ensures r < 0 ==> forall j :: from <= j ==> !DecorationAt(s, tag, j)
    decreases |s| - from
  {
    if DecorationAt(s, tag, from) then from
    else if from == |s| then -1
    else FindDecoration(s, tag, from + 1)
  }

  /** The captured payload of the first match: the non-empty text between the
      first `@tag(` that has one and the next `)`; absent when nothing matches. */
  function Decoration(s: string, tag: string): (r: Option<string>)
    ensures r.None? <==> forall i :: !DecorationAt(s, tag, i)
    ensures r.Some? ==> |r.value| >= 1 && ')' !in r.value
  {
    var i := FindDecoration(s, tag, 0);
    if i < 0 then None
    else
      var b, j := i + |tag|, IndexOfChar(s, ')', i + |tag|);
      assert forall k | b <= k < j :: s[b..j][k - b] == s[k];
      Some(s[b..j])
  }

  /** `s.replace(/@tag\(([^)]+)\)/i, rep)`: the whole first match, tag,
      payload and `)`, becomes `rep`; without a match `s` is unchanged. */
  function ReplaceDecoration(s: string, tag: string, rep: string): string {
    var i := FindDecoration(s, tag, 0);
    if i < 0 then s else ReplaceMatch(s, tag, rep, i)
  }

  /** `s` with the match at `i`, up to and including its `)`, replaced by `rep`. */
  function ReplaceMatch(s: string, tag: string, rep: string, i: nat): string
    requires i + |tag| <= |s| && IndexOfChar(s, ')', i + |tag|) >= 0
  {
    s[..i] + rep + s[IndexOfChar(s, ')', i + |tag|) + 1..]
  }

  // ---------------------------------------------- reading a decoration back

  /** A tag like `@start(`: an `@` and then lower-case letters and `(`. */
  predicate WellFormedTag(tag: string) {
    |tag| >= 1 && tag[0] == '@'
    && forall k :: 1 <= k < |tag| ==> ('a' <= tag[k] <= 'z' || tag[k] == '(')
  }

  lemma StartTagWellFormed()
    ensures WellFormedTag(StartTag) && WellFormedTag(DueTag) && WellFormedTag(RecurTag)
  {
  }

  /** The first `)` at or after `from` is at `r`. */
  lemma IndexOfCharIs(s: string, c: char, from: nat, r: nat)
    requires from <= r < |s| && s[r] == c
    requires forall k :: from <= k < r ==> s[k] != c
    ensures IndexOfChar(s, c, from) == r
  {
  }

  /** A well-formed tag cannot start again inside itself. */
  lemma TagNoSelfOverlap(s: string, tag: string, i: int, i': int)
    requires WellFormedTag(tag)
    requires 0 <= i' < i < i' + |tag| <= |s|
    requires s[i] == '@'
    ensures !TagOccursAt(s, tag, i')
  {
    if TagOccursAt(s, tag, i') {
      assert false;
    }
  }

  /** A decoration spelled out at `i` matches there, and its payload ends at
      the `)` that closes it. */
  lemma DecorationBuiltAt(n: string, tag: string, text: string, i: nat)
    requires WellFormedTag(tag) && ')' !in text && |text| >= 1
    requires i + |tag| + |text| < |n|
    requires n[i..i + |tag| + |text| + 1] == tag + text + ")"
    ensures n[i] == '@' && DecorationAt(n, tag, i)
    ensures IndexOfChar(n, ')', i + |tag|) == i + |tag| + |text|
    ensures n[i + |tag|..i + |tag| + |text|] == text
  {
    var b, e := i + |tag|, i + |tag| + |text|;
    BuiltPieces(n, tag, text, i);
    assert n[i] == n[i..b][0];
    assert SameIgnoringCase(n[i..b], tag);
    NoCloseBetween(n, b, e);
    IndexOfCharIs(n, ')', b, e);
  }

  /** The three pieces of a decoration spelled out at `i`. */
  lemma BuiltPieces(n: string, tag: string, text: string, i: nat)
    requires i + |tag| + |text| < |n|
    requires n[i..i + |tag| + |text| + 1] == tag + text + ")"
    ensures n[i..i + |tag|] == tag && n[i + |tag|..i + |tag| + |text|] == text
    ensures n[i + |tag| + |text|] == ')'
  {
    var b, e := i + |tag|, i + |tag| + |text|;
    var m := n[i..e + 1];
    var tt := tag + text;
    assert m[..|tt|] == tt;
    assert tt[..|tag|] == tag && tt[|tag|..] == text;
    assert n[i..b] == m[..|tag|];
    assert n[b..e] == m[|tag|..|tt|] == tt[|tag|..];
    assert n[e] == m[|tt|];
  }

  /** A slice without `)` has no `)` at any of its positions. */
  lemma NoCloseBetween(n: string, b: nat, e: nat)
    requires b <= e <= |n| && ')' !in n[b..e]
    ensures forall k :: b <= k < e ==> n[k] != ')'
  {
    forall k | b <= k < e ensures n[k] != ')' {
      assert n[k] == n[b..e][k - b];
    }
  }

  /** The middle piece of a three-piece concatenation. */
  lemma Middle(a: string, m: string, z: string)
    ensures (a + m + z)[..|a|] == a && (a + m + z)[|a|..|a| + |m|] == m
  {
  }

  /** After the first match is replaced by `tag + text + ")"`, the decoration
      reads back as `text`: this is how a rewritten `@start(...)` is found by
      the next parse. */
  lemma {:induction false} ReplacedDecorationReadsBack(s: string, tag: string, text: string)
    requires WellFormedTag(tag) && |text| >= 1 && ')' !in text
    requires Decoration(s, tag).Some?
    ensures Decoration(ReplaceDecoration(s, tag, tag + text + ")"), tag) == Some(text)
  {
    var i, j := FirstMatch(s, tag);
    ReplaceAt(s, tag, tag + text + ")", i, j);
    SplicedReadsBack(s, tag, text, i, j, s[..i] + (tag + text + ")") + s[j + 1..]);
  }

  /** What the replacement does once the first match is located. */
  lemma ReplaceAt(s: string, tag: string, rep: string, i: nat, j: nat)
    requires FindDecoration(s, tag, 0) == i
    requires i + |tag| < j < |s| && j == IndexOfChar(s, ')', i + |tag|)
    ensures ReplaceDecoration(s, tag, rep) == s[..i] + rep + s[j + 1..]
  {
    assert ReplaceDecoration(s, tag, rep) == ReplaceMatch(s, tag, rep, i);
  }

  /** The decoration of the spliced text is the spliced payload. */
  lemma SplicedReadsBack(s: string, tag: string, text: string, i: nat, j: nat, n: string)
    requires WellFormedTag(tag) && |text| >= 1 && ')' !in text
    requires IsFirstDecoration(s, tag, i) && s[i] == '@'
    requires i + |tag| < j < |s| && s[j] == ')'
    requires n == s[..i] + (tag + text + ")") + s[j + 1..]
    ensures Decoration(n, tag) == Some(text)
  {
    SplicedMatch(s, tag, text, i, j, n);
    ReadBack(n, tag, text, i);
  }

  lemma SplicedMatch(s: string, tag: string, text: string, i: nat, j: nat, n: string)
    requires WellFormedTag(tag) && |text| >= 1 && ')' !in text
    requires IsFirstDecoration(s, tag, i) && s[i] == '@'
    requires i + |tag| < j < |s| && s[j] == ')'
    requires n == s[..i] + (tag + text + ")") + s[j + 1..]
    ensures IsFirstDecoration(n, tag, i)
    ensures IndexOfChar(n, ')', i + |tag|) == i + |tag| + |text|
    ensures n[i + |tag|..i + |tag| + |text|] == text
  {
    Middle(s[..i], tag + text + ")", s[j + 1..]);
    DecorationBuiltAt(n, tag, text, i);
    EarlierStaysUnmatched(s, n, tag, i, j);
  }

  /** The payload after the leftmost match is what the decoration reads. */
  lemma ReadBack(n: string, tag: string, text: string, i: nat)
    requires IsFirstDecoration(n, tag, i)
    requires IndexOfChar(n, ')', i + |tag|) == i + |tag| + |text|
    requires n[i + |tag|..i + |tag| + |text|] == text
    ensures Decoration(n, tag) == Some(text)
  {
    FirstDecorationFound(n, tag, i);
  }

  /** Where the first match of `s` starts and where its `)` is. */
  lemma FirstMatch(s: string, tag: string) returns (i: nat, j: nat)
    requires WellFormedTag(tag) && Decoration(s, tag).Some?
    ensures IsFirstDecoration(s, tag, i) && s[i] == '@'
    ensures i + |tag| < j < |s| && j == IndexOfChar(s, ')', i + |tag|) && s[j] == ')'
    ensures FindDecoration(s, tag, 0) == i
  {
    i := FindDecoration(s, tag, 0);
    j := IndexOfChar(s, ')', i + |tag|);
    assert Lower(s[i..i + |tag|][0]) == Lower(tag[0]);
  }

  /** The payload read is the one after the leftmost match. */
  lemma FirstDecorationFound(s: string, tag: string, i: int)
    requires IsFirstDecoration(s, tag, i)
    ensures FindDecoration(s, tag, 0) == i
    ensures Decoration(s, tag) == Some(s[i + |tag|..IndexOfChar(s, ')', i + |tag|)])
  {
    var r := FindDecoration(s, tag, 0);
    assert r == i;
  }

  /** Positions left of the first match of `s` do not match in `n`, where `n`
      keeps the text before the match and starts a tag where it started. */
  lemma EarlierStaysUnmatched(s: string, n: string, tag: string, i: nat, j: nat)
    requires WellFormedTag(tag)
    requires i < |s| && i < |n|
    requires n[..i] == s[..i] && s[i] == '@' && n[i] == '@'
    requires forall i' :: 0 <= i' < i ==> !DecorationAt(s, tag, i')
    requires i <= j < |s| && s[j] == ')'
    ensures forall i' :: 0 <= i' < i ==> !DecorationAt(n, tag, i')
  {
    var L := |tag|;
    forall i' | 0 <= i' < i ensures !DecorationAt(n, tag, i') {
      if i' + L <= i {
        assert n[i'..i' + L] == s[i'..i' + L] by {
          assert n[i'..i' + L] == n[..i][i'..i' + L];
          assert s[i'..i' + L] == s[..i][i'..i' + L];
        }
        if TagOccursAt(s, tag, i') {
          assert !DecorationAt(s, tag, i');
          assert IndexOfChar(s, ')', i' + L) == i' + L;
          assert i' + L != i;
          assert n[i' + L] == n[..i][i' + L];
          IndexOfCharIs(n, ')', i' + L, i' + L);
        }
      } else if i' + L <= |n| {
        TagNoSelfOverlap(n, tag, i, i');
      }
    }
  }

  /** A decoration appended after a space to a text whose every tag
      occurrence is the empty `@tag()` (or that has none) reads back as the
      appended payload. */
  lemma {:induction false} AppendedDecorationReadsBack(p: string, tag: string, text: string)
    requires WellFormedTag(tag) && |text| >= 1 && ')' !in text
    requires OnlyEmptyTags(p, tag)
    ensures Decoration(p + " " + (tag + text + ")"), tag) == Some(text)
  {
    var n := p + " " + (tag + text + ")");
    AppendedMatch(p, tag, text, n);
    ReadBack(n, tag, text, |p| + 1);
  }

  lemma AppendedMatch(p: string, tag: string, text: string, n: string)
    requires WellFormedTag(tag) && |text| >= 1 && ')' !in text
    requires OnlyEmptyTags(p, tag)
    requires n == p + " " + (tag + text + ")")
    ensures IsFirstDecoration(n, tag, |p| + 1)
    ensures IndexOfChar(n, ')', |p| + 1 + |tag|) == |p| + 1 + |tag| + |text|
    ensures n[|p| + 1 + |tag|..|p| + 1 + |tag| + |text|] == text
  {
    var L, i, m := |tag|, |p| + 1, tag + text + ")";
    assert n[..i] == p + " " && n[i..i + |m|] == m;
    assert n[..|p|] == p && n[|p|] == ' ' by {
      assert n[..|p|] == n[..i][..|p|];
      assert n[|p|] == n[..i][|p|];
    }
    DecorationBuiltAt(n, tag, text, i);
    forall i' | 0 <= i' < i ensures !DecorationAt(n, tag, i') {
      NoDecorationBefore(p, tag, text, n, i');
    }
  }

  /** No decoration of the extended line starts inside `p` or on the space. */
  lemma NoDecorationBefore(p: string, tag: string, text: string, n: string, i': int)
    requires WellFormedTag(tag) && OnlyEmptyTags(p, tag)
    requires n == p + " " + (tag + text + ")")
    requires 0 <= i' <= |p|
    ensures !DecorationAt(n, tag, i')
  {
    var L := |tag|;
    assert n[..|p|] == p && n[|p|] == ' ';
    if i' + L <= |p| {
      assert n[i'..i' + L] == p[i'..i' + L] by {
        assert n[i'..i' + L] == n[..|p|][i'..i' + L];
      }
      if TagOccursAt(n, tag, i') {
        assert TagOccursAt(p, tag, i');
        assert n[i' + L] == n[..|p|][i' + L] == ')';
        IndexOfCharIs(n, ')', i' + L, i' + L);
      }
    } else if i' + L <= |n| {
      var k := |p| - i';
      assert n[i'..i' + L][k] == n[|p|] == ' ';
      assert Lower(n[i'..i' + L][k]) != Lower(tag[k]);
    }
  }
}
