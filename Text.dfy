/**
 * The handful of Python string operations the proxy pipeline relies on:
 * `str.strip()`, `str.split(sep)`, `int(text)` and `str(n)` (the `{port}`
 * of an f-string), each written out over `seq<char>`.
 */
module Text {
  import opened Wrappers

  // ---------------------------------------------------------------------
  // Whitespace and strip()
  // ---------------------------------------------------------------------

  /** Python's `str.isspace()` on the ASCII range. */
  predicate IsSpace(c: char) {
    c == ' ' || c == '\t' || c == '\n' || c == '\r' || c == '\U{000B}' || c == '\U{000C}'
    || ('\U{001C}' <= c <= '\U{001F}')
  }

  predicate AllSpace(s: string) {
    forall i :: 0 <= i < |s| ==> IsSpace(s[i])
  }

  /** No whitespace at either end: the shape of whatever `strip()` returns. */
  predicate Trimmed(s: string) {
    s == [] || (!IsSpace(s[0]) && !IsSpace(s[|s| - 1]))
  }

  /** `s.lstrip()`: drops the whitespace at the front. */
  function StripLeft(s: string): (r: string)
    ensures |r| <= |s|
    ensures r == [] || !IsSpace(r[0])
  {
    if s != [] && IsSpace(s[0]) then StripLeft(s[1..]) else s
  }

  /** `s.rstrip()`: drops the whitespace at the back. */
  function StripRight(s: string): (r: string)
    ensures |r| <= |s|
    ensures r != [] ==> r[0] == s[0]
    ensures r == [] || !IsSpace(r[|r| - 1])
  {
    if s != [] && IsSpace(s[|s| - 1]) then StripRight(s[..|s| - 1]) else s
  }

  /** `s.strip()`: the infix left once whitespace is removed from both ends. */
  function Strip(s: string): (r: string)
    ensures Trimmed(r) && |r| <= |s|
  {
    StripRight(StripLeft(s))
  }

  lemma AllSpaceAppend(a: string, b: string)
    requires AllSpace(a) && AllSpace(b)
    ensures AllSpace(a + b)
  {
    assert forall i :: 0 <= i < |a + b| ==> (a + b)[i] == if i < |a| then a[i] else b[i - |a|];
  }

  lemma {:induction false} StripLeftPadded(pre: string, m: string)
    requires AllSpace(pre)
    requires m == [] || !IsSpace(m[0])
    ensures StripLeft(pre + m) == m
    decreases |pre|
  {
    if pre != [] {
      assert (pre + m)[1..] == pre[1..] + m;
      StripLeftPadded(pre[1..], m);
    }
  }

  lemma {:induction false} StripRightPadded(m: string, post: string)
    requires AllSpace(post)
    requires m == [] || !IsSpace(m[|m| - 1])
    ensures StripRight(m + post) == m
    decreases |post|
  {
    if post != [] {
      assert (m + post)[..|m + post| - 1] == m + post[..|post| - 1];
      StripRightPadded(m, post[..|post| - 1]);
    } else {
      assert m + post == m;
    }
  }

  /** strip() removes exactly the surrounding whitespace and nothing else. */
  lemma StripPadded(pre: string, m: string, post: string)
    requires AllSpace(pre) && AllSpace(post) && Trimmed(m)
    ensures Strip(pre + m + post) == m
  {
    if m == [] {
      assert pre + m + post == pre + post;
      AllSpaceAppend(pre, post);
      StripLeftPadded(pre + post, []);
      assert pre + post + [] == pre + post;
    } else {
      assert pre + m + post == pre + (m + post);
      StripLeftPadded(pre, m + post);
      StripRightPadded(m, post);
    }
  }

  /** A trimmed string is its own strip(); so strip() is idempotent. */
  lemma StripTrimmed(s: string)
    requires Trimmed(s)
    ensures Strip(s) == s
  {
    StripPadded([], s, []);
    assert [] + s + [] == s;
  }

  // ---------------------------------------------------------------------
  // split(sep)
  // ---------------------------------------------------------------------

  /** `sep` occurs in `s` starting at position `k`. */
  predicate OccursAt(s: string, sep: string, k: int) {
    0 <= k && k + |sep| <= |s| && s[k..k + |sep|] == sep
  }

  /** Position of the first occurrence of `sep` at or after `from`; |s| when there is none. */
  function FindFrom(s: string, sep: string, from: nat): (k: nat)
    requires sep != [] && from <= |s|
    ensures from <= k <= |s|
    ensures k < |s| ==> OccursAt(s, sep, k)
    decreases |s| - from
  {
    if from == |s| then |s|
    else if OccursAt(s, sep, from) then from
    else FindFrom(s, sep, from + 1)
  }

  /** Nothing before the position FindFrom returns is an occurrence. */
  lemma {:induction false} FindFromFirst(s: string, sep: string, from: nat)
    requires sep != [] && from <= |s|
    ensures var k := FindFrom(s, sep, from);
      forall j :: from <= j < (if k == |s| then |s| + 1 else k) ==> !OccursAt(s, sep, j)
    decreases |s| - from
  {
    if from < |s| && !OccursAt(s, sep, from) {
      FindFromFirst(s, sep, from + 1);
    }
  }

  /**
   * Python's `s.split(sep)` for a non-empty separator: the pieces between
   * successive left-most, non-overlapping occurrences of `sep`.
   */
  function Split(s: string, sep: string): (parts: seq<string>)
    requires sep != []
    ensures |parts| >= 1
    decreases |s|
  {
    var k := FindFrom(s, sep, 0);
    if k == |s| then [s] else [s[..k]] + Split(s[k + |sep|..], sep)
  }

  /** Python's `sep.join(parts)`. */
  function Join(parts: seq<string>, sep: string): string
    decreases |parts|
  {
    if |parts| == 0 then ""
    else if |parts| == 1 then parts[0]
    else parts[0] + sep + Join(parts[1..], sep)
  }

  /** Joining the pieces of a split with the same separator gives back the text. */
  lemma {:induction false} JoinSplit(s: string, sep: string)
    requires sep != []
    ensures Join(Split(s, sep), sep) == s
    decreases |s|
  {
    var k := FindFrom(s, sep, 0);
    if k < |s| {
      var rest := s[k + |sep|..];
      var tail := Split(rest, sep);
      JoinSplit(rest, sep);
      assert Split(s, sep) == [s[..k]] + tail;
      assert Join([s[..k]] + tail, sep) == s[..k] + sep + Join(tail, sep) by {
        assert ([s[..k]] + tail)[1..] == tail;
      }
      assert s[k..k + |sep|] == sep;
      assert s == s[..k] + s[k..k + |sep|] + rest;
    }
  }

  lemma OccursAtChar(s: string, c: char, j: int)
    ensures OccursAt(s, [c], j) <==> 0 <= j < |s| && s[j] == c
  {
    if 0 <= j < |s| {
      assert s[j..j + 1] == [s[j]];
    }
  }

  /** Number of occurrences of the character `c` in `s`. */
  function CountChar(s: string, c: char): nat
    decreases |s|
  {
    if s == [] then 0 else CountChar(s[..|s| - 1], c) + (if s[|s| - 1] == c then 1 else 0)
  }

  lemma {:induction false} CountCharAppend(a: string, b: string, c: char)
    ensures CountChar(a + b, c) == CountChar(a, c) + CountChar(b, c)
    decreases |b|
  {
    if b == [] {
      assert a + b == a;
    } else {
      assert (a + b)[..|a + b| - 1] == a + b[..|b| - 1];
      CountCharAppend(a, b[..|b| - 1], c);
    }
  }

  lemma {:induction false} CountCharZero(s: string, c: char)
    ensures CountChar(s, c) == 0 <==> c !in s
    decreases |s|
  {
    if s != [] {
      CountCharZero(s[..|s| - 1], c);
      assert s == s[..|s| - 1] + [s[|s| - 1]];
    }
  }

  /** The first occurrence of a one-character separator is the first index holding it. */
  lemma FindChar(s: string, c: char)
    ensures var k := FindFrom(s, [c], 0);
      (k < |s| ==> s[k] == c) && (forall j :: 0 <= j < k ==> s[j] != c) && (k == |s| ==> c !in s)
  {
    var k := FindFrom(s, [c], 0);
    FindFromFirst(s, [c], 0);
    OccursAtChar(s, c, k);
    forall j | 0 <= j < k ensures s[j] != c {
      OccursAtChar(s, c, j);
    }
    if k == |s| {
      forall j | 0 <= j < |s| ensures s[j] != c {
        OccursAtChar(s, c, j);
      }
    }
  }

  /**
   * Splitting on one character: no piece contains it, and there is one
   * piece more than there are occurrences (so exactly two pieces iff the
   * character occurs exactly once).
   */
  lemma {:induction false} SplitChar(s: string, c: char)
    ensures forall p :: p in Split(s, [c]) ==> c !in p
    ensures |Split(s, [c])| == CountChar(s, c) + 1
    decreases |s|
  {
    var k := FindFrom(s, [c], 0);
    FindChar(s, c);
    if k == |s| {
      CountCharZero(s, c);
    } else {
      var rest := s[k + 1..];
      SplitChar(rest, c);
      assert s == s[..k] + [c] + rest;
      CountCharAppend(s[..k] + [c], rest, c);
      CountCharAppend(s[..k], [c], c);
      CountCharZero(s[..k], c);
      assert CountChar([c], c) == CountChar([], c) + 1 by { assert [c][..0] == []; }
    }
  }

  /** A text without the separator character splits into itself alone. */
  lemma SplitAbsent(s: string, c: char)
    requires c !in s
    ensures Split(s, [c]) == [s]
  {
    FindChar(s, c);
  }

  /** Splitting `a c b` where `a` lacks `c` cuts right after `a`. */
  lemma SplitAfter(a: string, c: char, b: string)
    requires c !in a
    ensures Split(a + [c] + b, [c]) == [a] + Split(b, [c])
  {
    var s := a + [c] + b;
    FindChar(s, c);
    var k := FindFrom(s, [c], 0);
    assert s[|a|] == c;
    assert forall j :: 0 <= j < |a| ==> s[j] == a[j];
    assert k == |a|;
    assert s[..k] == a;
    assert s[k + 1..] == b;
  }

  /** Every occurrence of a separator starts with its first character. */
  lemma OccursAtHead(s: string, sep: string)
    requires sep != []
    ensures forall j :: OccursAt(s, sep, j) ==> j < |s| && s[j] == sep[0]
  {
    forall j | OccursAt(s, sep, j) ensures j < |s| && s[j] == sep[0] {
      assert s[j..j + |sep|][0] == s[j];
    }
  }

  /** A text free of the separator's first character splits into itself alone. */
  lemma SplitAbsentLead(s: string, sep: string)
    requires sep != [] && sep[0] !in s
    ensures Split(s, sep) == [s]
  {
    OccursAtHead(s, sep);
    assert forall j :: 0 <= j < |s| ==> s[j] != sep[0];
  }

  /** Splitting `a sep b` where `a` lacks the separator's first character cuts right after `a`. */
  lemma SplitAfterLead(a: string, sep: string, b: string)
    requires sep != [] && sep[0] !in a
    ensures Split(a + sep + b, sep) == [a] + Split(b, sep)
  {
    var s := a + sep + b;
    var k := FindFrom(s, sep, 0);
    FindFromFirst(s, sep, 0);
    OccursAtHead(s, sep);
    assert s[|a|..|a| + |sep|] == sep;
    assert OccursAt(s, sep, |a|);
    assert k <= |a| < |s|;
    assert s[k] == sep[0];
    assert forall j :: 0 <= j < |a| ==> s[j] == a[j] != sep[0];
    assert k == |a|;
    assert s[..k] == a;
    assert s[k + |sep|..] == b;
  }

  /** Splitting a join on a separator whose first character no piece contains gives the pieces back. */
  lemma {:induction false} SplitJoin(parts: seq<string>, sep: string)
    requires |parts| >= 1 && sep != []
    requires forall p :: p in parts ==> sep[0] !in p
    ensures Split(Join(parts, sep), sep) == parts
    decreases |parts|
  {
    if |parts| == 1 {
      SplitAbsentLead(parts[0], sep);
    } else {
      assert parts[1] in parts;
      assert forall p :: p in parts[1..] ==> p in parts;
      SplitJoin(parts[1..], sep);
      assert parts[0] in parts;
      SplitAfterLead(parts[0], sep, Join(parts[1..], sep));
      assert parts == [parts[0]] + parts[1..];
    }
  }

  // ---------------------------------------------------------------------
  // int(text) and str(n)
  // ---------------------------------------------------------------------

  predicate IsDigit(c: char) {
    '0' <= c <= '9'
  }

  predicate AllDigits(s: string) {
    forall i :: 0 <= i < |s| ==> IsDigit(s[i])
  }

  function DigitValue(c: char): nat
    requires IsDigit(c)
  {
    (c as int) - ('0' as int)
  }

  function DigitChar(d: nat): (c: char)
    requires d < 10
    ensures IsDigit(c) && DigitValue(c) == d
  {
    (('0' as int) + d) as char
  }

  /** The decimal value of a string of digits (leading zeros allowed, as int() allows them). */
  function DigitsValue(s: string): nat
    requires AllDigits(s)
    decreases |s|
  {
    if s == [] then 0 else DigitsValue(s[..|s| - 1]) * 10 + DigitValue(s[|s| - 1])
  }

  /**
   * Python's `int(text)` in base 10: surrounding whitespace is ignored, an
   * optional sign is followed by at least one digit; anything else raises,
   * which is `None` here.
   */
  function ParseInt(text: string): (r: Option<int>)
  {
    ParseStripped(Strip(text))
  }

  /** int() once the surrounding whitespace is gone. */
  function ParseStripped(t: string): (r: Option<int>)
  {
    if |t| >= 2 && (t[0] == '+' || t[0] == '-') && AllDigits(t[1..]) then
      var v: int := DigitsValue(t[1..]);
      Some(if t[0] == '-' then -v else v)
    else if |t| >= 1 && AllDigits(t) then
      Some(DigitsValue(t))
    else
      None
  }

  /** Decimal digits of a natural number, without leading zeros. */
  function NatToString(n: nat): (r: string)
    ensures |r| >= 1 && AllDigits(r) && DigitsValue(r) == n
    ensures r[0] == '0' ==> n == 0
    decreases n
  {
    if n < 10 then [DigitChar(n)]
    else
      var init := NatToString(n / 10);
      var r := init + [DigitChar(n % 10)];
      assert r[..|r| - 1] == init;
      r
  }

  /** Python's `str(n)` (the `{port}` in an f-string): a minus sign, then the digits. */
  function IntToString(n: int): (r: string)
    ensures |r| >= 1
    ensures forall i :: 0 <= i < |r| ==> IsDigit(r[i]) || (i == 0 && r[i] == '-')
    ensures r[|r| - 1] != ' ' && IsDigit(r[|r| - 1])
  {
    if n < 0 then "-" + NatToString(-n) else NatToString(n)
  }

  lemma {:induction false} ParseDigits(d: string)
    requires |d| >= 1 && AllDigits(d)
    ensures ParseInt(d) == Some(DigitsValue(d))
  {
    assert !IsSpace(d[0]) && !IsSpace(d[|d| - 1]);
    StripTrimmed(d);
    assert d[0] != '+' && d[0] != '-';
  }

  lemma ParseStrippedNegative(s: string)
    requires |s| >= 2 && s[0] == '-' && AllDigits(s[1..])
    ensures ParseStripped(s) == Some(-(DigitsValue(s[1..]) as int))
  {
  }

  lemma ParseIntTrimmed(s: string)
    requires Trimmed(s)
    ensures ParseInt(s) == ParseStripped(s)
  {
    StripTrimmed(s);
  }

  lemma {:induction false} ParseNegativeDigits(d: string)
    requires |d| >= 1 && AllDigits(d)
    ensures ParseInt("-" + d) == Some(-(DigitsValue(d) as int))
  {
    var s := "-" + d;
    assert Trimmed(s) by {
      assert s[|s| - 1] == d[|d| - 1];
    }
    ParseIntTrimmed(s);
    assert s[1..] == d;
    ParseStrippedNegative(s);
  }

  /** Reading back what str() writes gives the same integer: int(str(n)) == n. */
  lemma ParseIntToString(n: int)
    ensures ParseInt(IntToString(n)) == Some(n)
  {
    if n < 0 {
      ParseNegativeDigits(NatToString(-n));
    } else {
      ParseDigits(NatToString(n));
    }
  }

  /** int() ignores whitespace around the number it reads. */
  lemma ParseIntPadded(pre: string, t: string, post: string)
    requires AllSpace(pre) && AllSpace(post) && Trimmed(t)
    ensures ParseInt(pre + t + post) == ParseInt(t)
  {
    StripPadded(pre, t, post);
    StripTrimmed(t);
  }
}
