/**
 * The string operations the components use, over `string` = `seq<char>`:
 * keeping the digits of a string (`s.replace(/\D/g, '')`), printing a number
 * (`String(n)`), `padStart(2, '0')`, ASCII `toLowerCase`, `includes` and
 * `split` with a one-character separator.
 */
module Text {

  predicate IsDigit(c: char) {
    '0' <= c <= '9'
  }

  predicate AllDigits(s: string) {
    forall i :: 0 <= i < |s| ==> IsDigit(s[i])
  }

  /** The decimal digits of `s`, in order: JavaScript's `s.replace(/\D/g, '')`. */
  function DigitsOf(s: string): (r: string)
    ensures |r| <= |s|
    ensures AllDigits(r)
  {
    if s == [] then []
    else (if IsDigit(s[0]) then [s[0]] else []) + DigitsOf(s[1..])
  }

  lemma {:induction false} DigitsOfAppend(a: string, b: string)
    ensures DigitsOf(a + b) == DigitsOf(a) + DigitsOf(b)
  {
    if a == [] {
      assert a + b == b;
    } else {
      var h := if IsDigit(a[0]) then [a[0]] else [];
      assert (a + b)[0] == a[0];
      assert (a + b)[1..] == a[1..] + b;
      DigitsOfAppend(a[1..], b);
      assert DigitsOf(a + b) == h + (DigitsOf(a[1..]) + DigitsOf(b));
      assert h + (DigitsOf(a[1..]) + DigitsOf(b)) == (h + DigitsOf(a[1..])) + DigitsOf(b);
    }
  }

  /** A string made of digits only is its own digit string. */
  lemma {:induction false} DigitsOfDigits(s: string)
    requires AllDigits(s)
    ensures DigitsOf(s) == s
  {
    if s != [] {
      DigitsOfDigits(s[1..]);
    }
  }

  /** Removing every non-digit leaves nothing exactly when there was no digit. */
  lemma {:induction false} DigitsOfEmpty(s: string)
    ensures DigitsOf(s) == [] <==> forall i :: 0 <= i < |s| ==> !IsDigit(s[i])
  {
    if s != [] {
      DigitsOfEmpty(s[1..]);
      if DigitsOf(s) == [] {
        forall i | 0 <= i < |s| ensures !IsDigit(s[i]) {
          if i > 0 { assert s[i] == s[1..][i - 1]; }
        }
      }
    }
  }

  function DigitChar(d: nat): (c: char)
    requires d < 10
    ensures IsDigit(c)
  {
    ('0' as int + d) as char
  }

  function DigitValue(c: char): nat
    requires IsDigit(c)
  {
    c as int - '0' as int
  }

  /** `String(n)` for a non-negative integer: decimal, no leading zero. */
  function NatToString(n: nat): (r: string)
    ensures |r| >= 1 && AllDigits(r)
    ensures r[0] == '0' ==> n == 0
    ensures n < 10 ==> |r| == 1
    ensures 10 <= n < 100 ==> |r| == 2
    ensures 1000 <= n < 10000 ==> |r| == 4
  {
    if n < 10 then [DigitChar(n)] else NatToString(n / 10) + [DigitChar(n % 10)]
  }

  /** The number a digit string denotes (`parseInt(s, 10)` on digits only). */
  function DigitsValue(s: string): nat
    requires AllDigits(s)
  {
    if s == [] then 0 else DigitsValue(s[..|s| - 1]) * 10 + DigitValue(s[|s| - 1])
  }

  /** Printing a number and reading it back gives the number. */
  lemma {:induction false} NatToStringValue(n: nat)
    ensures DigitsValue(NatToString(n)) == n
  {
    if n >= 10 {
      var s := NatToString(n);
      assert s[..|s| - 1] == NatToString(n / 10);
      NatToStringValue(n / 10);
    }
  }

  /** Different numbers print differently. */
  lemma NatToStringInjective(m: nat, n: nat)
    requires NatToString(m) == NatToString(n)
    ensures m == n
  {
    NatToStringValue(m);
    NatToStringValue(n);
  }

  /** `String(i)` for any integer: a minus sign before the magnitude when negative. */
  function IntToString(i: int): (r: string)
    ensures |r| >= 1
    ensures i >= 0 ==> AllDigits(r)
    ensures i < 0 <==> r[0] == '-'
  {
    if i < 0 then "-" + NatToString(-i) else NatToString(i)
  }

  /** `s.padStart(2, '0')`. */
  function PadStart2(s: string): (r: string)
    ensures |s| >= 2 ==> r == s
    ensures |s| < 2 ==> |r| == 2 && r[2 - |s|..] == s && forall i :: 0 <= i < 2 - |s| ==> r[i] == '0'
  {
    if |s| >= 2 then s else if |s| == 1 then "0" + s else "00"
  }

  /** Padding a one- or two-digit number keeps its value. */
  lemma PadStartValue(n: nat)
    requires n < 100
    ensures |PadStart2(NatToString(n))| == 2
    ensures AllDigits(PadStart2(NatToString(n)))
    ensures DigitsValue(PadStart2(NatToString(n))) == n
  {
    NatToStringValue(n);
    var s := NatToString(n);
    if n < 10 {
      var p := PadStart2(s);
      assert p == "0" + s;
      assert p[..1] == "0";
    }
  }

  /** JavaScript's `length`: UTF-16 code units, two for a character beyond U+FFFF. */
  function Utf16Length(s: string): (n: nat)
    ensures |s| <= n <= 2 * |s|
    ensures (forall i :: 0 <= i < |s| ==> s[i] as int <= 0xFFFF) ==> n == |s|
  {
    if s == [] then 0
    else
      assert forall i :: 0 <= i < |s[1..]| ==> s[1..][i] == s[i + 1];
      (if s[0] as int > 0xFFFF then 2 else 1) + Utf16Length(s[1..])
  }

  /** An emoji outside the Basic Multilingual Plane counts as two. */
  lemma Utf16LengthOfEmoji()
    ensures Utf16Length("\U{1F600}") == 2
    ensures Utf16Length("a\U{1F600}") == 3
  {
  }

  /** JavaScript's `toLowerCase`, for ASCII letters. */
  function LowerChar(c: char): (r: char)
    ensures !('A' <= r <= 'Z')
    ensures !('A' <= c <= 'Z') ==> r == c
  {
    if 'A' <= c <= 'Z' then (c as int + 32) as char else c
  }

  function Lower(s: string): (r: string)
    ensures |r| == |s|
    ensures forall i :: 0 <= i < |s| ==> r[i] == LowerChar(s[i])
  {
    seq(|s|, i requires 0 <= i < |s| => LowerChar(s[i]))
  }

  lemma LowerIdempotent(s: string)
    ensures Lower(Lower(s)) == Lower(s)
  {
  }

  /** `s.includes(t)`: `t` occurs in `s` at some position. */
  predicate Contains(s: string, t: string)
    decreases |s|
  {
    t <= s || (s != [] && Contains(s[1..], t))
  }

  /** `t` occurs in `s` starting at position `i`. */
  predicate OccursAt(s: string, t: string, i: int) {
    0 <= i <= |s| - |t| && s[i..i + |t|] == t
  }

  /** `Contains` agrees with the positional definition of an occurrence. */
  lemma {:induction false} ContainsIffOccurs(s: string, t: string)
    ensures Contains(s, t) <==> exists i :: OccursAt(s, t, i)
    decreases |s|
  {
    if t <= s {
      assert OccursAt(s, t, 0);
    } else if s == [] {
      assert forall i :: !OccursAt(s, t, i);
    } else {
      ContainsIffOccurs(s[1..], t);
      if exists i :: OccursAt(s, t, i) {
        var i :| OccursAt(s, t, i);
        assert i != 0;
        OccursShift(s, t, i - 1);
      }
      if Contains(s[1..], t) {
        var j :| OccursAt(s[1..], t, j);
        OccursShift(s, t, j);
      }
    }
  }

  /** An occurrence one position further on in `s` is an occurrence in `s` without its head. */
  lemma OccursShift(s: string, t: string, i: nat)
    requires s != []
    ensures OccursAt(s, t, i + 1) <==> OccursAt(s[1..], t, i)
  {
    if i + 1 <= |s| - |t| {
      assert s[i + 1..i + 1 + |t|] == s[1..][i..i + |t|];
    }
  }

  /** The empty string occurs in every string, as `''.includes` holds everywhere. */
  lemma ContainsEmpty(s: string)
    ensures Contains(s, "")
  {
  }

  /** `s.split(sep)` for a one-character separator: never empty, `''` gives `['']`. */
  function Split(s: string, sep: char): (parts: seq<string>)
    ensures |parts| >= 1
    decreases |s|
  {
    if s == [] then [[]]
    else if s[0] == sep then [[]] + Split(s[1..], sep)
    else
      var rest := Split(s[1..], sep);
      [[s[0]] + rest[0]] + rest[1..]
  }

  /** The pieces joined back with the separator, `parts.join(sep)`. */
  function Join(parts: seq<string>, sep: char): string
    requires |parts| >= 1
  {
    if |parts| == 1 then parts[0] else parts[0] + [sep] + Join(parts[1..], sep)
  }

  /** Splitting loses nothing: joining the pieces gives the string back. */
  lemma {:induction false} JoinSplit(s: string, sep: char)
    ensures Join(Split(s, sep), sep) == s
    decreases |s|
  {
    if s == [] {
    } else if s[0] == sep {
      JoinSplit(s[1..], sep);
      var rest := Split(s[1..], sep);
      assert Split(s, sep) == [[]] + rest;
      assert ([[]] + rest)[1..] == rest;
    } else {
      JoinSplit(s[1..], sep);
      var rest := Split(s[1..], sep);
      var parts := [[s[0]] + rest[0]] + rest[1..];
      assert Split(s, sep) == parts;
      if |rest| == 1 {
        assert s == [s[0]] + s[1..];
      } else {
        assert parts[1..] == rest[1..];
        assert Join(rest, sep) == rest[0] + [sep] + Join(rest[1..], sep);
        assert s == [s[0]] + s[1..];
      }
    }
  }

  /** A string without the separator is one piece. */
  lemma {:induction false} SplitNoSep(a: string, sep: char)
    requires sep !in a
    ensures Split(a, sep) == [a]
    decreases |a|
  {
    if a != [] {
      assert sep !in a[1..] by {
        forall i | 0 <= i < |a[1..]| ensures a[1..][i] != sep { assert a[1..][i] == a[i + 1]; }
      }
      SplitNoSep(a[1..], sep);
      assert [a[0]] + a[1..] == a;
    }
  }

  /** A separator-free head followed by the separator splits off as the first piece. */
  lemma {:induction false} SplitCons(a: string, rest: string, sep: char)
    requires sep !in a
    ensures Split(a + [sep] + rest, sep) == [a] + Split(rest, sep)
    decreases |a|
  {
    var s := a + [sep] + rest;
    if a == [] {
      assert s[0] == sep && s[1..] == rest;
    } else {
      assert s[0] == a[0] && s[1..] == a[1..] + [sep] + rest;
      assert sep !in a[1..] by {
        forall i | 0 <= i < |a[1..]| ensures a[1..][i] != sep { assert a[1..][i] == a[i + 1]; }
      }
      SplitCons(a[1..], rest, sep);
      assert [a[0]] + a[1..] == a;
    }
  }

  /** Three separator-free pieces joined by the separator split back into those pieces. */
  lemma SplitThree(a: string, b: string, c: string, sep: char)
    requires sep !in a && sep !in b && sep !in c
    ensures Split(a + [sep] + b + [sep] + c, sep) == [a, b, c]
  {
    SplitNoSep(c, sep);
    SplitCons(b, c, sep);
    assert a + [sep] + b + [sep] + c == a + [sep] + (b + [sep] + c);
    SplitCons(a, b + [sep] + c, sep);
  }

  /** A digit string never contains a non-digit separator. */
  lemma DigitsHaveNoSep(s: string, sep: char)
    requires AllDigits(s) && !IsDigit(sep)
    ensures sep !in s
  {
  }
}
