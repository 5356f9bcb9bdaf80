/** Python's built-in `str` operations that `parse_program` relies on:
    `str.find`, `str.split(sep)`, `str.startswith`, `str.strip()` and the
    `str.isspace` character class that `strip` uses. Strings are `seq<char>`. */
module PyStr {

  /** `sep` occurs in `s` starting at index `j`. */
  predicate OccursAt(s: string, sep: string, j: nat) {
    j + |sep| <= |s| && s[j..j + |sep|] == sep
  }

  /** Python's `s.find(sep)`: the lowest index at which `sep` occurs, or -1. */
  function Find(s: string, sep: string): (i: int)
    ensures -1 <= i
    ensures i >= 0 ==> OccursAt(s, sep, i)
    ensures i >= 0 ==> forall j: nat :: j < i ==> !OccursAt(s, sep, j)
    ensures i == -1 ==> forall j: nat :: !OccursAt(s, sep, j)
    decreases |s|
  {
    if |s| < |sep| then
      -1
    else if s[..|sep|] == sep then
      assert s[0..|sep|] == s[..|sep|];
      0
    else
      var k := Find(s[1..], sep);
      if k == -1 then
        NoneInTail(s, sep);
        -1
      else
        FirstInTail(s, sep, k);
        k + 1
  }

  /** `sep` occurs in `s` one place after an index exactly when it occurs
      there in `s[1..]`. */
  lemma OccursShift(s: string, sep: string, j: nat)
    requires 0 < |s|
    ensures OccursAt(s, sep, j + 1) == OccursAt(s[1..], sep, j)
  {
    if j + 1 + |sep| <= |s| {
      SliceOfSuffix(s, 1, j, |sep|);
    }
  }

  /** When `sep` does not start `s` and does not occur in `s[1..]`, it does
      not occur in `s`. */
  lemma NoneInTail(s: string, sep: string)
    requires |sep| <= |s| && s[..|sep|] != sep
    requires forall j: nat :: !OccursAt(s[1..], sep, j)
    ensures forall j: nat :: !OccursAt(s, sep, j)
  {
    assert s[0..|sep|] == s[..|sep|];
    forall j: nat ensures !OccursAt(s, sep, j) {
      if j > 0 {
        OccursShift(s, sep, j - 1);
      }
    }
  }

  /** When `sep` does not start `s` and first occurs in `s[1..]` at `k`, it
      first occurs in `s` at `k + 1`. */
  lemma FirstInTail(s: string, sep: string, k: nat)
    requires |sep| <= |s| && s[..|sep|] != sep
    requires OccursAt(s[1..], sep, k)
    requires forall j: nat :: j < k ==> !OccursAt(s[1..], sep, j)
    ensures OccursAt(s, sep, k + 1)
    ensures forall j: nat :: j < k + 1 ==> !OccursAt(s, sep, j)
  {
    assert s[0..|sep|] == s[..|sep|];
    OccursShift(s, sep, k);
    forall j: nat | j < k + 1 ensures !OccursAt(s, sep, j) {
      if j > 0 {
        OccursShift(s, sep, j - 1);
      }
    }
  }

  /** A window of the suffix `s[i..]` is the window of `s` `i` places later. */
  lemma SliceOfSuffix(s: string, i: nat, j: nat, n: nat)
    requires i + j + n <= |s|
    ensures s[i..][j..j + n] == s[i + j..i + j + n]
  {
  }

  /** A window inside the prefix `s[..i]` is the same window of `s`. */
  lemma SliceOfPrefix(s: string, i: nat, j: nat, n: nat)
    requires j + n <= i <= |s|
    ensures s[..i][j..j + n] == s[j..j + n]
  {
  }

  /** Python's `s.split(sep)` for a non-empty separator: the pieces between
      the non-overlapping occurrences of `sep`, scanned left to right. */
  function Split(s: string, sep: string): (parts: seq<string>)
    requires |sep| > 0
    ensures |parts| >= 1
    decreases |s|
  {
    var i := Find(s, sep);
    if i < 0 then [s]
    else [s[..i]] + Split(s[i + |sep|..], sep)
  }

  /** Python's `sep.join(parts)`; the inverse of `Split`. */
  function Join(parts: seq<string>, sep: string): string {
    if |parts| == 0 then ""
    else if |parts| == 1 then parts[0]
    else parts[0] + sep + Join(parts[1..], sep)
  }

  /** Joining the pieces with the separator gives back the original string. */
  lemma {:induction false} SplitJoin(s: string, sep: string)
    requires |sep| > 0
    ensures Join(Split(s, sep), sep) == s
    decreases |s|
  {
    var i := Find(s, sep);
    if i < 0 {
      assert Split(s, sep) == [s];
    } else {
      var rest := s[i + |sep|..];
      var tail := Split(rest, sep);
      calc {
        Join(Split(s, sep), sep);
        { assert Split(s, sep) == [s[..i]] + tail; }
        Join([s[..i]] + tail, sep);
        { JoinCons(s[..i], tail, sep); }
        s[..i] + sep + Join(tail, sep);
        { SplitJoin(rest, sep); }
        s[..i] + sep + rest;
        { SliceAround(s, i, sep); }
        s;
      }
    }
  }

  /** A string is the text before an occurrence, the occurrence, and the text after it. */
  lemma SliceAround(s: string, i: nat, sep: string)
    requires i + |sep| <= |s| && s[i..i + |sep|] == sep
    ensures s == s[..i] + sep + s[i + |sep|..]
  {
  }

  /** Joining a list with a head joins the head onto the rest with `sep`. */
  lemma JoinCons(a: string, tail: seq<string>, sep: string)
    requires |tail| >= 1
    ensures Join([a] + tail, sep) == a + sep + Join(tail, sep)
  {
    var parts := [a] + tail;
    assert parts[0] == a && parts[1..] == tail;
  }

  /** No piece of a split contains the separator. */
  lemma {:induction false} SplitPiecesHaveNoSeparator(s: string, sep: string, k: nat)
    requires |sep| > 0
    requires k < |Split(s, sep)|
    ensures Find(Split(s, sep)[k], sep) == -1
    decreases |s|
  {
    var i := Find(s, sep);
    if i >= 0 {
      assert Split(s, sep) == [s[..i]] + Split(s[i + |sep|..], sep);
      if k == 0 {
        NoSeparatorBefore(s, sep, i);
      } else {
        SplitPiecesHaveNoSeparator(s[i + |sep|..], sep, k - 1);
      }
    }
  }

  /** The text before the first occurrence of the separator holds none. */
  lemma NoSeparatorBefore(s: string, sep: string, i: nat)
    requires |sep| > 0 && i <= |s|
    requires forall j: nat :: j < i ==> !OccursAt(s, sep, j)
    ensures Find(s[..i], sep) == -1
  {
    forall j: nat ensures !OccursAt(s[..i], sep, j) {
      if j + |sep| <= i {
        SliceOfPrefix(s, i, j, |sep|);
        assert !OccursAt(s, sep, j);
      }
    }
  }

  /** A string in which the separator does not occur splits into itself alone. */
  lemma SplitWithoutSeparator(s: string, sep: string)
    requires |sep| > 0
    requires forall j: nat :: !OccursAt(s, sep, j)
    ensures Split(s, sep) == [s]
  {
  }

  /** When the first occurrence of the separator in `s` starts right after
      its prefix `a`, the split yields `a` followed by the split of the rest. */
  lemma SplitAtFirst(s: string, a: string, sep: string, rest: string)
    requires |sep| > 0 && s == a + sep + rest
    requires forall j: nat :: j < |a| ==> !OccursAt(s, sep, j)
    ensures Split(s, sep) == [a] + Split(rest, sep)
  {
    assert s[|a|..|a| + |sep|] == sep;
    assert OccursAt(s, sep, |a|);
    var i := Find(s, sep);
    assert i == |a|;
    assert s[..i] == a;
    assert s[i + |sep|..] == rest;
  }

  /** Python's `s.startswith(prefix)`. */
  predicate StartsWith(s: string, prefix: string) {
    |prefix| <= |s| && s[..|prefix|] == prefix
  }

  /** Python's `c.isspace()` for one character: the characters whose Unicode
      bidirectional class is WS, B or S, or whose category is Zs. */
  predicate IsSpace(c: char) {
    ('\t' <= c <= '\r') || ('\U{1C}' <= c <= '\U{1F}') || c == ' '
    || c == '\U{85}' || c == '\U{A0}' || c == '\U{1680}'
    || ('\U{2000}' <= c <= '\U{200A}') || c == '\U{2028}' || c == '\U{2029}'
    || c == '\U{202F}' || c == '\U{205F}' || c == '\U{3000}'
  }

  /** Every character of `s` is whitespace. */
  predicate AllSpace(s: string) {
    forall k :: 0 <= k < |s| ==> IsSpace(s[k])
  }

  /** Every character of `s` from index `lo` up to `hi` is whitespace. */
  predicate SpaceBetween(s: string, lo: int, hi: int) {
    forall k :: lo <= k < hi && 0 <= k < |s| ==> IsSpace(s[k])
  }

  /** Leading whitespace of `s[1..]` after a whitespace `s[0]` is leading
      whitespace of `s`. */
  lemma SpaceBetweenFront(s: string, n: nat)
    requires 0 < |s| && IsSpace(s[0]) && SpaceBetween(s[1..], 0, n)
    ensures SpaceBetween(s, 0, n + 1)
  {
    forall k | 0 < k < n + 1 && k < |s| ensures IsSpace(s[k]) {
      assert s[k] == s[1..][k - 1];
    }
  }

  /** Trailing whitespace of `s` without its last character, followed by a
      whitespace last character, is trailing whitespace of `s`. */
  lemma SpaceBetweenBack(s: string, m: nat)
    requires 0 < |s| && IsSpace(s[|s| - 1]) && SpaceBetween(s[..|s| - 1], m, |s| - 1)
    ensures SpaceBetween(s, m, |s|)
  {
    forall k | m <= k < |s| - 1 ensures IsSpace(s[k]) {
      assert s[k] == s[..|s| - 1][k];
    }
  }

  /** `s` neither begins nor ends with whitespace. */
  predicate Trimmed(s: string) {
    s == [] || (!IsSpace(s[0]) && !IsSpace(s[|s| - 1]))
  }

  /** Python's `s.lstrip()`: `s` without its leading whitespace. */
  function LStrip(s: string): (r: string)
    ensures |r| <= |s| && r == s[|s| - |r|..]
    ensures SpaceBetween(s, 0, |s| - |r|)
    ensures r == [] || !IsSpace(r[0])
  {
    if |s| > 0 && IsSpace(s[0]) then
      var r := LStrip(s[1..]);
      SpaceBetweenFront(s, |s| - 1 - |r|);
      r
    else s
  }

  /** Python's `s.rstrip()`: `s` without its trailing whitespace. */
  function RStrip(s: string): (r: string)
    ensures |r| <= |s| && r == s[..|r|]
    ensures SpaceBetween(s, |r|, |s|)
    ensures r == [] || !IsSpace(r[|r| - 1])
  {
    if |s| > 0 && IsSpace(s[|s| - 1]) then
      var r := RStrip(s[..|s| - 1]);
      SpaceBetweenBack(s, |r|);
      r
    else s
  }

  /** `r` is the window `s[i..j]` of `s`, and everything outside it is whitespace. */
  predicate WindowOf(s: string, i: nat, j: nat, r: string) {
    i <= j <= |s| && r == s[i..j] && SpaceBetween(s, 0, i) && SpaceBetween(s, j, |s|)
  }

  /** Python's `s.strip()`: `s` without its leading and trailing whitespace. */
  function Strip(s: string): (r: string)
    ensures Trimmed(r)
    ensures exists i: nat, j: nat :: WindowOf(s, i, j, r)
  {
    StripFacts(s);
    RStrip(LStrip(s))
  }

  /** What `Strip` promises, for the composition it computes. */
  lemma StripFacts(s: string)
    ensures Trimmed(RStrip(LStrip(s)))
    ensures exists i: nat, j: nat :: WindowOf(s, i, j, RStrip(LStrip(s)))
  {
    var l := LStrip(s);
    StripWindow(s, l, RStrip(l), |s| - |l|);
  }

  /** A window cut from a suffix `l` of `s`, with whitespace before `l` and
      after the window inside `l`, is a window of `s`; when `l` does not
      start with whitespace and the window does not end with it, the window
      is trimmed. */
  lemma StripWindow(s: string, l: string, r: string, i: nat)
    requires i <= |s| && l == s[i..] && |r| <= |l| && r == l[..|r|]
    requires SpaceBetween(s, 0, i) && SpaceBetween(l, |r|, |l|)
    requires l == [] || !IsSpace(l[0])
    requires r == [] || !IsSpace(r[|r| - 1])
    ensures Trimmed(r) && exists i: nat, j: nat :: WindowOf(s, i, j, r)
  {
    forall k | i + |r| <= k < |s| ensures IsSpace(s[k]) {
      assert s[k] == l[k - i];
    }
    assert WindowOf(s, i, i + |r|, r);
    if r != [] {
      assert r[0] == l[0];
    }
  }

  /** Stripping a string that is already trimmed leaves it unchanged. */
  lemma StripTrimmed(s: string)
    requires Trimmed(s)
    ensures Strip(s) == s
  {
  }

  /** Stripping twice is stripping once. */
  lemma StripIdempotent(s: string)
    ensures Strip(Strip(s)) == Strip(s)
  {
    StripTrimmed(Strip(s));
  }

  /** Whitespace padding around a trimmed string is exactly what `strip` removes. */
  lemma {:induction false} StripPadded(pre: string, x: string, post: string)
    requires AllSpace(pre) && AllSpace(post) && Trimmed(x)
    ensures Strip(pre + x + post) == x
  {
    var s := pre + x + post;
    if x == [] {
      assert s == pre + post;
      LStripPadded(s, []);
      assert s + [] == s;
    } else {
      assert s == pre + (x + post);
      LStripPadded(pre, x + post);
      RStripPadded(x, post);
    }
  }

  /** Leading whitespace before a string that does not start with it is
      exactly what `lstrip` removes. */
  lemma {:induction false} LStripPadded(pre: string, y: string)
    requires AllSpace(pre) && (y == [] || !IsSpace(y[0]))
    ensures LStrip(pre + y) == y
    decreases |pre|
  {
    if |pre| > 0 {
      assert (pre + y)[1..] == pre[1..] + y;
      LStripPadded(pre[1..], y);
    } else {
      assert pre + y == y;
    }
  }

  /** Trailing whitespace after a string that does not end with it is
      exactly what `rstrip` removes. */
  lemma {:induction false} RStripPadded(y: string, post: string)
    requires AllSpace(post) && (y == [] || !IsSpace(y[|y| - 1]))
    ensures RStrip(y + post) == y
    decreases |post|
  {
    if |post| > 0 {
      assert (y + post)[..|y + post| - 1] == y + post[..|post| - 1];
      RStripPadded(y, post[..|post| - 1]);
    } else {
      assert y + post == y;
    }
  }
}
