/** The two bold patterns of the report formatter and `_strip_markdown`,
    written as predicates on strings. In Python's `re`, `.` matches any
    character except a newline, and that is how `.` is read here. */
module Markdown {
  import opened Wrappers

  predicate NoNewline(s: string) {
    forall i :: 0 <= i < |s| ==> s[i] != '\n'
  }

  /** The two-character marker `**` starts at index `k` of `s`. */
  predicate MarkerAt(s: string, k: int) {
    0 <= k && k + 1 < |s| && s[k] == '*' && s[k + 1] == '*'
  }

  predicate HasMarker(s: string) {
    exists k :: 0 <= k < |s| && MarkerAt(s, k)
  }

  /** `(.+?)\*\*` with the group starting at `start` can stop at `k`: the
      group `s[start..k]` is non-empty and newline-free and `**` follows it. */
  predicate IsClose(s: string, start: nat, k: nat) {
    start < k && MarkerAt(s, k) && NoNewline(s[start..k])
  }

  lemma NewlineBlocks(s: string, start: nat, p: nat)
    requires start <= p < |s| && s[p] == '\n'
    ensures forall j :: p < j ==> !IsClose(s, start, j)
  {
    forall j | p < j && MarkerAt(s, j) ensures !NoNewline(s[start..j]) {
      assert s[start..j][p - start] == '\n';
    }
  }

  function CloseFrom(s: string, start: nat, k: nat): (m: Option<nat>)
    requires start < k <= |s| && NoNewline(s[start..k])
    ensures m.Some? ==> k <= m.value && IsClose(s, start, m.value)
    ensures m.Some? ==> forall j :: k <= j < m.value ==> !IsClose(s, start, j)
    ensures m.None? ==> forall j :: k <= j ==> !IsClose(s, start, j)
    decreases |s| - k
  {
    if k + 1 >= |s| then None
    else if s[k] == '*' && s[k + 1] == '*' then Some(k)
    else if s[k] == '\n' then NewlineBlocks(s, start, k); None
    else
      assert s[start..k + 1] == s[start..k] + [s[k]];
      CloseFrom(s, start, k + 1)
  }

  /** The lazy group `(.+?)\*\*` starting at `start`: the first index at
      which it can stop, or None when it cannot stop anywhere. */
  function LazyClose(s: string, start: nat): (m: Option<nat>)
    ensures m.Some? ==> IsClose(s, start, m.value)
    ensures m.Some? ==> forall j: nat :: j < m.value ==> !IsClose(s, start, j)
    ensures m.None? <==> forall j :: !IsClose(s, start, j)
  {
    if start < |s| && s[start] != '\n' then
      CloseFrom(s, start, start + 1)
    else if start < |s| then
      NewlineBlocks(s, start, start); None
    else None
  }

  // ---------------------------------------------------------------------
  // Heading pattern: re.fullmatch(r"\*\*(.+)\*\*", s)

  predicate IsHeadingForm(s: string) {
    |s| >= 5 && MarkerAt(s, 0) && MarkerAt(s, |s| - 2) && NoNewline(s[2..|s| - 2])
  }

  /** Group 1 of the heading match. */
  function HeadingText(s: string): string
    requires IsHeadingForm(s)
  {
    s[2..|s| - 2]
  }

  // ---------------------------------------------------------------------
  // Label pattern: re.match(r"\*\*(.+?)\*\*(.*)$", s)

  /** `(.*)$` accepts `r`: `$` matches at the very end or before a final newline. */
  predicate EndOk(r: string) {
    NoNewline(r) || (|r| > 0 && r[|r| - 1] == '\n' && NoNewline(r[..|r| - 1]))
  }

  /** Group 2 of the label match, for a rest that `(.*)$` accepts. */
  function EndGroup(r: string): string
    requires EndOk(r)
  {
    if NoNewline(r) then r else r[..|r| - 1]
  }

  /** The label pattern matches `s` with group 1 equal to `s[2..k]`. */
  predicate IsLabelSplit(s: string, k: nat) {
    MarkerAt(s, 0) && IsClose(s, 2, k) && EndOk(s[k + 2..])
  }

  lemma NonFinalNewline(r: string) returns (i: nat)
    requires !EndOk(r)
    ensures i + 1 < |r| && r[i] == '\n'
  {
    if |r| > 0 && r[|r| - 1] == '\n' {
      i :| 0 <= i < |r| - 1 && r[..|r| - 1][i] == '\n';
    } else {
      i :| 0 <= i < |r| && r[i] == '\n';
    }
  }

  /** When the rest after the first close fails `(.*)$`, backtracking to a
      later close fails too: the offending newline stays in the rest. */
  lemma NoLaterSplit(s: string, k: nat)
    requires IsClose(s, 2, k) && !EndOk(s[k + 2..])
    ensures forall j :: k < j ==> !IsLabelSplit(s, j)
  {
    var i := NonFinalNewline(s[k + 2..]);
    var p := k + 2 + i;
    assert s[p] == '\n' && p + 1 < |s|;
    NewlineBlocks(s, 2, p);
    forall j | k < j && IsClose(s, 2, j) ensures !EndOk(s[j + 2..]) {
      assert j + 2 <= p;
      var r := s[j + 2..];
      assert r[p - (j + 2)] == '\n';
      assert p - (j + 2) < |r| - 1;
      assert r[..|r| - 1][p - (j + 2)] == '\n';
    }
  }

  /** The label match: the split index `k` that the regex engine settles on,
      that is, the first at which the whole pattern succeeds. */
  function LabelMatch(s: string): (m: Option<nat>)
    ensures m.Some? ==> IsLabelSplit(s, m.value)
    ensures m.Some? ==> forall j: nat :: j < m.value ==> !IsLabelSplit(s, j)
    ensures m.None? <==> forall j :: !IsLabelSplit(s, j)
  {
    if MarkerAt(s, 0) then
      match LazyClose(s, 2)
      case Some(k) =>
        if EndOk(s[k + 2..]) then assert IsLabelSplit(s, k); Some(k)
        else NoLaterSplit(s, k); None
      case None => None
    else None
  }

  /** The first split of the label pattern is the one `LabelMatch` returns. */
  lemma LabelMatchFirst(s: string, k: nat)
    requires IsLabelSplit(s, k) && forall j: nat :: j < k ==> !IsLabelSplit(s, j)
    ensures LabelMatch(s) == Some(k)
  {
    var m := LabelMatch(s);
    assert m.Some?;
    assert IsLabelSplit(s, m.value);
    assert m.value >= k;
    assert m.value <= k;
  }

  // ---------------------------------------------------------------------
  // _strip_markdown: bold_pattern.sub(lambda m: m.group(1), text)

  /** Scan left to right; where a lazy `**X**` starts, emit X and resume
      after its closing marker, otherwise emit the character and move on. */
  function StripMarkdown(s: string): string
    decreases |s|
  {
    if s == [] then []
    else if MarkerAt(s, 0) && LazyClose(s, 2).Some? then
      var k := LazyClose(s, 2).value;
      s[2..k] + StripMarkdown(s[k + 2..])
    else [s[0]] + StripMarkdown(s[1..])
  }

  /** A match starts at the front: the shortest `**X**` is replaced by X. */
  lemma StripMarkdownSpan(s: string, k: nat)
    requires MarkerAt(s, 0) && IsClose(s, 2, k)
    requires forall j: nat :: j < k ==> !IsClose(s, 2, j)
    ensures StripMarkdown(s) == s[2..k] + StripMarkdown(s[k + 2..])
  {
  }

  /** No match starts at the front: the first character is kept as it is. */
  lemma StripMarkdownLiteral(s: string)
    requires s != []
    requires MarkerAt(s, 0) ==> forall j :: !IsClose(s, 2, j)
    ensures StripMarkdown(s) == [s[0]] + StripMarkdown(s[1..])
  {
  }

  /** Text containing no `**` passes through unchanged. */
  lemma {:induction false} StripMarkdownPlain(s: string)
    requires !HasMarker(s)
    ensures StripMarkdown(s) == s
    decreases |s|
  {
    if s != [] {
      assert !MarkerAt(s, 0);
      assert !HasMarker(s[1..]) by {
        forall j | MarkerAt(s[1..], j) ensures MarkerAt(s, j + 1) { }
      }
      StripMarkdownPlain(s[1..]);
      assert s == [s[0]] + s[1..];
    }
  }

  /** `s` with every `*` deleted. */
  function Unstarred(s: string): string
    decreases |s|
  {
    if s == [] then [] else (if s[0] == '*' then [] else [s[0]]) + Unstarred(s[1..])
  }

  lemma {:induction false} UnstarredAppend(a: string, b: string)
    ensures Unstarred(a + b) == Unstarred(a) + Unstarred(b)
    decreases |a|
  {
    if a != [] {
      assert (a + b)[0] == a[0] && (a + b)[1..] == a[1..] + b;
      UnstarredAppend(a[1..], b);
    } else {
      assert a + b == b;
    }
  }

  /** Deleting `*` from `**X**t` gives the same as deleting it from X and t. */
  lemma UnstarredSpan(s: string, k: nat)
    requires MarkerAt(s, 0) && 2 <= k && MarkerAt(s, k)
    ensures Unstarred(s) == Unstarred(s[2..k]) + Unstarred(s[k + 2..])
  {
    assert s[1..][1..] == s[2..];
    assert Unstarred(s) == Unstarred(s[2..]);
    assert s[2..] == s[2..k] + s[k..];
    UnstarredAppend(s[2..k], s[k..]);
    assert s[k..][1..][1..] == s[k + 2..];
    assert Unstarred(s[k..]) == Unstarred(s[k + 2..]);
  }

  /** Each replacement deletes exactly the four `*` of its two markers, and
      nothing else is touched: the output is the input with some `*`
      removed, four at a time, so it is never longer than the input. */
  lemma {:induction false} StripMarkdownRemovesMarkers(s: string)
    ensures Unstarred(StripMarkdown(s)) == Unstarred(s)
    ensures |StripMarkdown(s)| <= |s|
    ensures (|s| - |StripMarkdown(s)|) % 4 == 0
    decreases |s|
  {
    if s == [] {
    } else if MarkerAt(s, 0) && LazyClose(s, 2).Some? {
      var k := LazyClose(s, 2).value;
      var t := s[k + 2..];
      StripMarkdownRemovesMarkers(t);
      UnstarredSpan(s, k);
      UnstarredAppend(s[2..k], StripMarkdown(t));
    } else {
      StripMarkdownRemovesMarkers(s[1..]);
      UnstarredAppend([s[0]], StripMarkdown(s[1..]));
    }
  }

  /** Non-empty text never strips to nothing. */
  lemma StripMarkdownNonEmpty(s: string)
    requires s != []
    ensures StripMarkdown(s) != []
  {
  }
}
