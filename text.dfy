/** Python 2 string built-ins that the spike counter relies on: whitespace,
    `str.strip`, `str.endswith`, `str(n)` for counts and `<` on strings. */
module Text {

  datatype Option<+T> = None | Some(value: T)

  /** `str.isspace` on one byte in Python 2: space, tab, newline, vertical tab,
      form feed and carriage return. */
  predicate IsWhitespace(c: char) {
    c == ' ' || c == '\t' || c == '\n' || c == '\r' || c == 11 as char || c == 12 as char
  }

  /** `s.strip()`: whitespace removed from both ends. */
  function Strip(s: string): string
    decreases |s|
  {
    if s != [] && IsWhitespace(s[0]) then Strip(s[1..])
    else if s != [] && IsWhitespace(s[|s| - 1]) then Strip(s[..|s| - 1])
    else s
  }

  /** The stripped string neither starts nor ends with whitespace. */
  lemma {:induction false} StripEnds(s: string)
    ensures var r := Strip(s); r == [] || (!IsWhitespace(r[0]) && !IsWhitespace(r[|r| - 1]))
    decreases |s|
  {
    if s != [] && IsWhitespace(s[0]) {
      StripEnds(s[1..]);
    } else if s != [] && IsWhitespace(s[|s| - 1]) {
      StripEnds(s[..|s| - 1]);
    }
  }

  /** `s` with whitespace only outside `s[i..j]`. */
  predicate TrimmedTo(s: string, i: nat, j: nat)
  {
    && i <= j <= |s|
    && (forall k :: 0 <= k < i ==> IsWhitespace(s[k]))
    && (forall k :: j <= k < |s| ==> IsWhitespace(s[k]))
  }

  /** The stripped string is the slice of `s` between its leading and its
      trailing whitespace: only whitespace was cut off. */
  lemma {:induction false} StripSlice(s: string)
    ensures exists i: nat, j: nat :: TrimmedTo(s, i, j) && Strip(s) == s[i..j]
    decreases |s|
  {
    if s != [] && IsWhitespace(s[0]) {
      StripSlice(s[1..]);
      var i: nat, j: nat :| TrimmedTo(s[1..], i, j) && Strip(s[1..]) == s[1..][i..j];
      TrimmedFront(s, i, j);
    } else if s != [] && IsWhitespace(s[|s| - 1]) {
      var t := s[..|s| - 1];
      StripSlice(t);
      var i: nat, j: nat :| TrimmedTo(t, i, j) && Strip(t) == t[i..j];
      TrimmedBack(s, i, j);
    } else {
      assert TrimmedTo(s, 0, |s|) && Strip(s) == s[0..|s|];
    }
  }

  lemma TrimmedFront(s: string, i: nat, j: nat)
    requires s != [] && IsWhitespace(s[0]) && TrimmedTo(s[1..], i, j)
    ensures TrimmedTo(s, i + 1, j + 1) && s[1..][i..j] == s[i + 1..j + 1]
  {
    forall k | 0 < k < i + 1 ensures IsWhitespace(s[k]) {
      assert s[k] == s[1..][k - 1];
    }
    forall k | j + 1 <= k < |s| ensures IsWhitespace(s[k]) {
      assert s[k] == s[1..][k - 1];
    }
  }

  lemma TrimmedBack(s: string, i: nat, j: nat)
    requires s != [] && IsWhitespace(s[|s| - 1]) && TrimmedTo(s[..|s| - 1], i, j)
    ensures TrimmedTo(s, i, j) && s[..|s| - 1][i..j] == s[i..j]
  {
  }

  /** `s.endswith(suffix)`. */
  predicate EndsWith(s: string, suffix: string) {
    |suffix| <= |s| && s[|s| - |suffix|..] == suffix
  }

  /** Python's `a < b` on strings: the first differing character decides, and a
      proper prefix comes first. */
  predicate LexLess(a: string, b: string) {
    if a == [] then b != []
    else if b == [] then false
    else if a[0] != b[0] then a[0] < b[0]
    else LexLess(a[1..], b[1..])
  }

  lemma {:induction false} LexLessIrreflexive(a: string)
    ensures !LexLess(a, a)
  {
    if a != [] {
      LexLessIrreflexive(a[1..]);
    }
  }

  lemma {:induction false} LexLessTransitive(a: string, b: string, c: string)
    requires LexLess(a, b) && LexLess(b, c)
    ensures LexLess(a, c)
  {
    if a != [] && b != [] && c != [] && a[0] == b[0] && b[0] == c[0] {
      LexLessTransitive(a[1..], b[1..], c[1..]);
    }
  }

  lemma {:induction false} LexLessTotal(a: string, b: string)
    requires a != b
    ensures LexLess(a, b) || LexLess(b, a)
  {
    if a != [] && b != [] && a[0] == b[0] {
      assert a == [a[0]] + a[1..] && b == [b[0]] + b[1..];
      LexLessTotal(a[1..], b[1..]);
    }
  }

  function DigitChar(d: nat): char
    requires d < 10
  {
    ('0' as int + d) as char
  }

  /** `str(n)` for a non-negative count: its decimal digits, without leading zeros. */
  function NatToString(n: nat): (s: string)
    ensures 1 <= |s|
    ensures forall i :: 0 <= i < |s| ==> '0' <= s[i] <= '9'
    ensures 1 < |s| ==> s[0] != '0'
  {
    if n < 10 then [DigitChar(n)] else NatToString(n / 10) + [DigitChar(n % 10)]
  }

  /** The number a string of decimal digits denotes, as `int(s)` reads it. */
  function DigitsValue(s: string): nat
    requires forall i :: 0 <= i < |s| ==> '0' <= s[i] <= '9'
  {
    if s == [] then 0 else DigitsValue(s[..|s| - 1]) * 10 + (s[|s| - 1] as int - '0' as int)
  }

  /** Reading the written count back gives the count. */
  lemma {:induction false} NatToStringValue(n: nat)
    ensures DigitsValue(NatToString(n)) == n
  {
    if n >= 10 {
      NatToStringValue(n / 10);
      var s := NatToString(n);
      assert s[..|s| - 1] == NatToString(n / 10);
    }
  }

  /** Extending a slice by the element after it. */
  lemma SliceSnoc<T>(s: seq<T>, a: nat, i: nat)
    requires a <= i < |s|
    ensures s[a..i] + [s[i]] == s[a..i + 1]
  {
  }

  lemma TakeSnoc<T>(s: seq<T>, i: nat)
    requires i < |s|
    ensures s[..i] + [s[i]] == s[..i + 1]
  {
  }
}
