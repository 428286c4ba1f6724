/** The few Python string built-ins the core relies on: `str.strip()`,
    `str.split(",")`, `sep.join(...)`, decimal rendering of integers and
    the `{n:04d}` zero-padded format. Strings are sequences of characters. */
module Strings {

  /** Python's `str.isspace()` for one character: the characters that a
      bare `strip()` removes. */
  predicate IsSpace(c: char) {
    c == ' ' || c == '\t' || c == '\n' || c == '\r' || c == '\U{0B}' || c == '\U{0C}'
    || ('\U{1C}' <= c <= '\U{1F}') || c == '\U{85}' || c == '\U{A0}' || c == '\U{1680}'
    || ('\U{2000}' <= c <= '\U{200A}') || c == '\U{2028}' || c == '\U{2029}'
    || c == '\U{202F}' || c == '\U{205F}' || c == '\U{3000}'
  }

  /** No whitespace at either end: what `strip()` returns. */
  predicate Trimmed(s: string) {
    s == [] || (!IsSpace(s[0]) && !IsSpace(s[|s| - 1]))
  }

  /** Drops leading whitespace. */
  function StripLeft(s: string): (r: string)
    ensures |r| <= |s|
  {
    if |s| > 0 && IsSpace(s[0]) then StripLeft(s[1..]) else s
  }

  /** The result of `StripLeft` is a suffix of its input, everything dropped
      is whitespace and the result does not start with whitespace. */
  lemma {:induction false} StripLeftSpec(s: string)
    ensures StripLeft(s) == s[|s| - |StripLeft(s)|..]
    ensures forall k | 0 <= k < |s| - |StripLeft(s)| :: IsSpace(s[k])
    ensures StripLeft(s) == [] || !IsSpace(StripLeft(s)[0])
    decreases |s|
  {
    if |s| > 0 && IsSpace(s[0]) {
      StripLeftSpec(s[1..]);
    }
  }

  /** Drops trailing whitespace. */
  function StripRight(s: string): (r: string)
    ensures |r| <= |s|
  {
    if |s| > 0 && IsSpace(s[|s| - 1]) then StripRight(s[..|s| - 1]) else s
  }

  /** The result of `StripRight` is a prefix of its input, everything
      dropped is whitespace and the result does not end with whitespace. */
  lemma {:induction false} StripRightSpec(s: string)
    ensures StripRight(s) == s[..|StripRight(s)|]
    ensures forall k | |StripRight(s)| <= k < |s| :: IsSpace(s[k])
    ensures StripRight(s) == [] || !IsSpace(StripRight(s)[|StripRight(s)| - 1])
    decreases |s|
  {
    if |s| > 0 && IsSpace(s[|s| - 1]) {
      StripRightSpec(s[..|s| - 1]);
    }
  }

  /** Python's `s.strip()`. */
  function Strip(s: string): (r: string)
    ensures |r| <= |s|
  {
    StripRight(StripLeft(s))
  }

  /** `strip()` returns a contiguous piece of its input with no whitespace
      at either end, and only whitespace was cut off. */
  lemma StripSpec(s: string)
    ensures Trimmed(Strip(s))
    ensures exists i, j | 0 <= i <= j <= |s| ::
              (Strip(s) == s[i..j]
               && (forall k | 0 <= k < i :: IsSpace(s[k]))
               && (forall k | j <= k < |s| :: IsSpace(s[k])))
  {
    var l := StripLeft(s);
    var r := StripRight(l);
    StripLeftSpec(s);
    StripRightSpec(l);
    var i := |s| - |l|;
    assert r == s[i..i + |r|];
    if r != [] {
      assert r[0] == l[0];
    }
  }

  lemma StripTrimmed(s: string)
    requires Trimmed(s)
    ensures Strip(s) == s
  {
  }

  /** One leading blank in front of a trimmed name is exactly what `strip()`
      takes away again. */
  lemma StripSpaced(s: string)
    requires Trimmed(s)
    ensures Strip([' '] + s) == s
  {
    assert ([' '] + s)[1..] == s;
    assert StripLeft([' '] + s) == StripLeft(s) == s;
  }

  /** Python's `sep.join(parts)`. */
  function Join(parts: seq<string>, sep: string): (r: string)
    ensures |parts| == 1 ==> r == parts[0]
  {
    if |parts| == 0 then []
    else if |parts| == 1 then parts[0]
    else parts[0] + sep + Join(parts[1..], sep)
  }

  /** Python's `s.split(sep)` for a one-character separator. */
  function Split(s: string, sep: char): (parts: seq<string>)
    ensures |parts| >= 1
  {
    if s == [] then [[]]
    else
      var rest := Split(s[1..], sep);
      if s[0] == sep then [[]] + rest
      else [[s[0]] + rest[0]] + rest[1..]
  }

  /** What `split` promises: no part holds the separator, and joining the
      parts back with it gives the input. */
  lemma {:induction false} SplitSpec(s: string, sep: char)
    ensures forall k | 0 <= k < |Split(s, sep)| :: sep !in Split(s, sep)[k]
    ensures Join(Split(s, sep), [sep]) == s
    decreases |s|
  {
    if s != [] {
      var rest := Split(s[1..], sep);
      SplitSpec(s[1..], sep);
      if s[0] == sep {
        assert s == [sep] + s[1..];
      } else {
        var parts := [[s[0]] + rest[0]] + rest[1..];
        assert parts[1..] == rest[1..];
      }
    }
  }

  /** Splitting at the first separator. */
  lemma {:induction false} SplitAtFirst(a: string, sep: char, t: string)
    requires sep !in a
    ensures Split(a + [sep] + t, sep) == [a] + Split(t, sep)
    decreases |a|
  {
    if a == [] {
      assert a + [sep] + t == [sep] + t;
      assert ([sep] + t)[1..] == t;
    } else {
      var s := a + [sep] + t;
      assert s[1..] == a[1..] + [sep] + t;
      SplitAtFirst(a[1..], sep, t);
      assert [a[0]] + a[1..] == a;
    }
  }

  /** A string without the separator splits into itself alone. */
  lemma {:induction false} SplitNoSeparator(a: string, sep: char)
    requires sep !in a
    ensures Split(a, sep) == [a]
    decreases |a|
  {
    if a != [] {
      SplitNoSeparator(a[1..], sep);
      assert [a[0]] + a[1..] == a;
    }
  }

  /** `split` undoes `join`: the parts are recovered exactly whenever none
      of them holds the separator. */
  lemma {:induction false} SplitJoin(parts: seq<string>, sep: char)
    requires |parts| >= 1
    requires forall k | 0 <= k < |parts| :: sep !in parts[k]
    ensures Split(Join(parts, [sep]), sep) == parts
    decreases |parts|
  {
    if |parts| == 1 {
      SplitNoSeparator(parts[0], sep);
    } else {
      SplitJoin(parts[1..], sep);
      SplitAtFirst(parts[0], sep, Join(parts[1..], [sep]));
      assert [parts[0]] + parts[1..] == parts;
    }
  }

  /** Joining with ", " is joining with "," after putting a blank in front
      of every part but the first. */
  function Spaced(parts: seq<string>): (r: seq<string>)
    ensures |r| == |parts|
    ensures |parts| > 0 ==> r[0] == parts[0]
    ensures forall k | 0 < k < |parts| :: r[k] == [' '] + parts[k]
  {
    seq(|parts|, k requires 0 <= k < |parts| => if k == 0 then parts[0] else [' '] + parts[k])
  }

  lemma {:induction false} JoinSpaced(parts: seq<string>)
    ensures Join(parts, ", ") == Join(Spaced(parts), ",")
    decreases |parts|
  {
    if |parts| > 1 {
      var sp := Spaced(parts);
      var tail := Spaced(parts[1..]);
      JoinSpaced(parts[1..]);
      assert sp[1..] == [[' '] + tail[0]] + tail[1..];
      var rest := if |parts| > 2 then "," + Join(tail[1..], ",") else [];
      assert Join(tail, ",") == tail[0] + rest;
      assert Join(sp[1..], ",") == [' '] + tail[0] + rest;
      calc {
        Join(parts, ", ");
        parts[0] + ", " + Join(tail, ",");
        parts[0] + ", " + (tail[0] + rest);
        { assert ", " == "," + " "; }
        parts[0] + "," + ([' '] + tail[0] + rest);
        Join(sp, ",");
      }
    }
  }


  // Decimal rendering of integers

  predicate IsDigit(c: char) {
    '0' <= c <= '9'
  }

  function DigitChar(d: nat): (c: char)
    requires d < 10
    ensures IsDigit(c)
  {
    (48 + d) as char
  }

  function DigitValue(c: char): (d: nat)
    requires IsDigit(c)
    ensures d < 10 && DigitChar(d) == c
  {
    c as int - 48
  }

  predicate AllDigits(s: string) {
    forall k | 0 <= k < |s| :: IsDigit(s[k])
  }

  /** The number a string of decimal digits denotes (leading zeros allowed). */
  function DigitsValue(s: string): nat
    requires AllDigits(s)
  {
    if s == [] then 0 else DigitsValue(s[..|s| - 1]) * 10 + DigitValue(s[|s| - 1])
  }

  /** Python's `str(n)` for a natural number: decimal digits, no leading zero. */
  function NatStr(n: nat): (s: string)
    ensures |s| >= 1 && AllDigits(s)
    ensures s[0] == '0' ==> n == 0
  {
    if n < 10 then [DigitChar(n)] else NatStr(n / 10) + [DigitChar(n % 10)]
  }

  /** Python's `str(i)` (and `f"{i}"`) for any integer. */
  function IntStr(i: int): (s: string)
    ensures |s| >= 1
    ensures i >= 0 <==> IsDigit(s[0])
  {
    if i < 0 then "-" + NatStr(-i) else NatStr(i)
  }

  /** Reading the rendering back gives the number. */
  lemma {:induction false} NatStrRoundTrip(n: nat)
    ensures DigitsValue(NatStr(n)) == n
    decreases n
  {
    if n >= 10 {
      NatStrRoundTrip(n / 10);
      var s := NatStr(n);
      assert s[..|s| - 1] == NatStr(n / 10);
    }
  }

  lemma NatStrInjective(m: nat, n: nat)
    requires NatStr(m) == NatStr(n)
    ensures m == n
  {
    NatStrRoundTrip(m);
    NatStrRoundTrip(n);
  }

  function Pow10(k: nat): (p: nat)
    ensures p >= 1
  {
    if k == 0 then 1 else 10 * Pow10(k - 1)
  }

  /** A number below 10^k has at most k digits. */
  lemma {:induction false} NatStrLength(n: nat, k: nat)
    requires k >= 1 && n < Pow10(k)
    ensures |NatStr(n)| <= k
    decreases n
  {
    if n >= 10 {
      NatStrLength(n / 10, k - 1);
    }
  }

  function Zeros(k: nat): (z: string)
    ensures |z| == k && forall j | 0 <= j < k :: z[j] == '0'
  {
    seq(k, _ => '0')
  }

  /** Leading zeros do not change the value of a digit string. */
  lemma {:induction false} LeadingZeroValue(s: string)
    requires AllDigits(s)
    ensures DigitsValue(['0'] + s) == DigitsValue(s)
    decreases |s|
  {
    if s != [] {
      var t := ['0'] + s;
      assert t[..|t| - 1] == ['0'] + s[..|s| - 1];
      LeadingZeroValue(s[..|s| - 1]);
    }
  }

  lemma {:induction false} LeadingZerosValue(k: nat, s: string)
    requires AllDigits(s)
    ensures AllDigits(Zeros(k) + s) && DigitsValue(Zeros(k) + s) == DigitsValue(s)
    decreases k
  {
    if k == 0 {
      assert Zeros(k) + s == s;
    } else {
      LeadingZerosValue(k - 1, s);
      assert Zeros(k) + s == ['0'] + (Zeros(k - 1) + s);
      LeadingZeroValue(Zeros(k - 1) + s);
    }
  }

  /** Python's `f"{n:0{width}d}"` for a natural number: at least `width`
      characters, all digits, never shorter than the plain rendering, and
      reading it back gives `n`. */
  function ZeroPadded(n: nat, width: nat): (s: string)
    ensures AllDigits(s) && DigitsValue(s) == n
    ensures |s| == if |NatStr(n)| < width then width else |NatStr(n)|
  {
    var digits := NatStr(n);
    var pad := if |digits| < width then width - |digits| else 0;
    LeadingZerosValue(pad, digits);
    NatStrRoundTrip(n);
    Zeros(pad) + digits
  }

  // Substrings

  /** `t in s` for Python strings. */
  predicate Contains(s: string, t: string) {
    exists i, j | 0 <= i <= j <= |s| :: s[i..j] == t
  }

  lemma ContainsSelf(s: string)
    ensures Contains(s, s)
  {
    assert s[0..|s|] == s;
  }

  lemma ContainsLeft(a: string, b: string, t: string)
    requires Contains(a, t)
    ensures Contains(a + b, t)
  {
    var i, j :| 0 <= i <= j <= |a| && a[i..j] == t;
    assert (a + b)[i..j] == t;
  }

  lemma ContainsRight(a: string, b: string, t: string)
    requires Contains(b, t)
    ensures Contains(a + b, t)
  {
    var i, j :| 0 <= i <= j <= |b| && b[i..j] == t;
    assert (a + b)[|a| + i..|a| + j] == t;
  }

  /** A string is contained in any string that ends with it. */
  lemma ContainsAtEnd(a: string, t: string)
    ensures Contains(a + t, t)
  {
    ContainsSelf(t);
    ContainsRight(a, t, t);
  }

  /** Each of four parts is contained in the four joined by a separator. */
  lemma ContainsEachOfFour(a: string, b: string, c: string, d: string, sep: string)
    ensures Contains(a + sep + b + sep + c + sep + d, a)
    ensures Contains(a + sep + b + sep + c + sep + d, b)
    ensures Contains(a + sep + b + sep + c + sep + d, c)
    ensures Contains(a + sep + b + sep + c + sep + d, d)
  {
    var p2 := a + sep;
    var p4 := p2 + b + sep;
    var p6 := p4 + c + sep;
    ContainsSelf(a);
    ContainsLeft(a, sep, a);
    ContainsAtEnd(p2, b);
    ContainsLeft(p2, b, a);
    ContainsLeft(p2 + b, sep, a);
    ContainsLeft(p2 + b, sep, b);
    ContainsAtEnd(p4, c);
    ContainsLeft(p4, c, a);
    ContainsLeft(p4, c, b);
    ContainsLeft(p4 + c, sep, a);
    ContainsLeft(p4 + c, sep, b);
    ContainsLeft(p4 + c, sep, c);
    ContainsAtEnd(p6, d);
    ContainsLeft(p6, d, a);
    ContainsLeft(p6, d, b);
    ContainsLeft(p6, d, c);
  }
}
