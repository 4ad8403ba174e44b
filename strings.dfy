/** The few Python string operations the merge script relies on, restricted
    to ASCII: str.strip, str.lower, str.isdigit with int(), str.split on one
    separator, str.endswith and zero-padded decimal formatting. To state
    how the output names sort, it also has the code-point order of
    Python's `<` on strings; the script itself never compares names. */
module Strings {

  /** Whitespace as Python's str.isspace sees it, among ASCII characters:
      tab, line feed, vertical tab, form feed, carriage return, the four
      information separators 0x1C-0x1F, and space. */
  predicate IsSpace(c: char) {
    var k := c as int;
    (9 <= k <= 13) || (28 <= k <= 31) || k == 32
  }

  predicate AllSpace(s: string) {
    forall k :: 0 <= k < |s| ==> IsSpace(s[k])
  }

  /** Drops leading whitespace. */
  function TrimLeft(s: string): string {
    if |s| > 0 && IsSpace(s[0]) then TrimLeft(s[1..]) else s
  }

  /** Drops trailing whitespace. */
  function TrimRight(s: string): string {
    if |s| > 0 && IsSpace(s[|s| - 1]) then TrimRight(s[..|s| - 1]) else s
  }

  /** str.strip(): the part of `s` left between its leading and its
      trailing whitespace. */
  function Strip(s: string): (r: string)
    ensures |r| <= |s|
    ensures r == [] || (!IsSpace(r[0]) && !IsSpace(r[|r| - 1]))
  {
    TrimLeftSpec(s);
    TrimRightSpec(TrimLeft(s));
    TrimRight(TrimLeft(s))
  }

  /** TrimLeft removes a whitespace prefix and stops at the first other character. */
  lemma {:induction false} TrimLeftSpec(s: string)
    ensures |TrimLeft(s)| <= |s| && TrimLeft(s) == s[|s| - |TrimLeft(s)|..]
    ensures AllSpace(s[..|s| - |TrimLeft(s)|])
    ensures TrimLeft(s) == [] || !IsSpace(TrimLeft(s)[0])
  {
    if |s| > 0 && IsSpace(s[0]) {
      var r := TrimLeft(s[1..]);
      TrimLeftSpec(s[1..]);
      assert TrimLeft(s) == r;
      assert s[1..][|s| - 1 - |r|..] == s[|s| - |r|..];
      assert s[..|s| - |r|] == [s[0]] + s[1..][..|s| - 1 - |r|];
    }
  }

  /** TrimRight removes a whitespace suffix and stops at the last other character. */
  lemma {:induction false} TrimRightSpec(s: string)
    ensures |TrimRight(s)| <= |s| && TrimRight(s) == s[..|TrimRight(s)|]
    ensures AllSpace(s[|TrimRight(s)|..])
    ensures TrimRight(s) == [] || !IsSpace(TrimRight(s)[|TrimRight(s)| - 1])
  {
    if |s| > 0 && IsSpace(s[|s| - 1]) {
      var r := TrimRight(s[..|s| - 1]);
      TrimRightSpec(s[..|s| - 1]);
      assert TrimRight(s) == r;
      assert s[..|s| - 1][..|r|] == s[..|r|];
      assert s[|r|..] == s[..|s| - 1][|r|..] + [s[|s| - 1]];
    }
  }

  /** What strip keeps: an infix of `s`, everything around it whitespace,
      and no whitespace at either of its ends. */
  lemma StripSpec(s: string)
    ensures var r := Strip(s);
      (r == [] || (!IsSpace(r[0]) && !IsSpace(r[|r| - 1]))) &&
      exists i :: 0 <= i <= |s| - |r| && r == s[i..i + |r|]
                  && AllSpace(s[..i]) && AllSpace(s[i + |r|..])
  {
    var t := TrimLeft(s);
    var r := TrimRight(t);
    TrimLeftSpec(s);
    TrimRightSpec(t);
    var i := |s| - |t|;
    assert r == s[i..i + |r|];
    assert s[i + |r|..] == t[|r|..];
  }

  /** A string already without surrounding whitespace is its own strip, and
      whitespace around it is all that strip removes. */
  lemma {:induction false} StripSurrounded(a: string, m: string, b: string)
    requires AllSpace(a) && AllSpace(b)
    requires m == [] || (!IsSpace(m[0]) && !IsSpace(m[|m| - 1]))
    ensures Strip(a + m + b) == m
  {
    if m == [] {
      assert a + m + b == (a + b) + [];
      assert AllSpace(a + b);
      TrimLeftSpaces(a + b, []);
    } else {
      TrimLeftSpaces(a, m + b);
      assert a + m + b == a + (m + b);
      TrimRightSpaces(m, b);
    }
  }

  lemma {:induction false} TrimLeftSpaces(a: string, t: string)
    requires AllSpace(a)
    requires t == [] || !IsSpace(t[0])
    ensures TrimLeft(a + t) == t
  {
    if a != [] {
      assert (a + t)[1..] == a[1..] + t;
      TrimLeftSpaces(a[1..], t);
    }
  }

  lemma {:induction false} TrimRightSpaces(t: string, b: string)
    requires AllSpace(b)
    requires t == [] || !IsSpace(t[|t| - 1])
    ensures TrimRight(t + b) == t
  {
    if b != [] {
      assert (t + b)[..|t + b| - 1] == t + b[..|b| - 1];
      TrimRightSpaces(t, b[..|b| - 1]);
    } else {
      assert t + b == t;
    }
  }

  /** str.lower() on one ASCII character. */
  function LowerChar(c: char): char {
    if 'A' <= c <= 'Z' then (c as int + 32) as char else c
  }

  /** str.lower(): every character lowered, in place. */
  function Lower(s: string): (r: string)
    ensures |r| == |s|
    ensures forall i :: 0 <= i < |s| ==> r[i] == LowerChar(s[i])
  {
    if s == [] then [] else [LowerChar(s[0])] + Lower(s[1..])
  }

  /** A string without upper-case letters is its own lower-case form. */
  lemma LowerUnchanged(s: string)
    requires forall i :: 0 <= i < |s| ==> !('A' <= s[i] <= 'Z')
    ensures Lower(s) == s
  {
  }

  predicate IsDigitChar(c: char) {
    '0' <= c <= '9'
  }

  function DigitValue(c: char): nat
    requires IsDigitChar(c)
  {
    c as int - '0' as int
  }

  function Digit(d: nat): (c: char)
    requires d < 10
    ensures IsDigitChar(c) && DigitValue(c) == d
  {
    ('0' as int + d) as char
  }

  predicate AllDigits(s: string) {
    forall i :: 0 <= i < |s| ==> IsDigitChar(s[i])
  }

  lemma DigitsConcat(a: string, b: string)
    requires AllDigits(a) && AllDigits(b)
    ensures AllDigits(a + b)
  {
    forall i | 0 <= i < |a + b|
      ensures IsDigitChar((a + b)[i])
    {
      if i < |a| {
        assert (a + b)[i] == a[i];
      } else {
        assert (a + b)[i] == b[i - |a|];
      }
    }
  }

  /** str.isdigit() on ASCII: at least one character, all of them digits. */
  predicate IsDigits(s: string) {
    |s| > 0 && AllDigits(s)
  }

  function Pow10(k: nat): (r: nat)
    ensures r >= 1
  {
    if k == 0 then 1 else 10 * Pow10(k - 1)
  }

  /** int() of a digit string, read most significant digit first. Leading
      zeros are allowed, as int("01") == 1. */
  function DigitsValue(s: string): (v: nat)
    requires AllDigits(s)
    ensures v < Pow10(|s|)
  {
    if s == [] then 0 else DigitsValue(s[..|s| - 1]) * 10 + DigitValue(s[|s| - 1])
  }

  /** Leading zeros do not change what int() reads. */
  lemma LeadingZeros(k: nat, s: string)
    requires AllDigits(s)
    ensures AllDigits(Zeros(k) + s) && DigitsValue(Zeros(k) + s) == DigitsValue(s)
  {
    DigitsValueConcat(Zeros(k), s);
  }

  /** Reading a concatenation: the left part is shifted by the right part's width. */
  lemma {:induction false} DigitsValueConcat(a: string, b: string)
    requires AllDigits(a) && AllDigits(b)
    ensures AllDigits(a + b)
    ensures DigitsValue(a + b) == DigitsValue(a) * Pow10(|b|) + DigitsValue(b)
  {
    if b == [] {
      assert a + b == a;
    } else {
      var b' := b[..|b| - 1];
      assert (a + b)[..|a + b| - 1] == a + b';
      DigitsValueConcat(a, b');
      var x, y, d := DigitsValue(a), DigitsValue(b'), DigitValue(b[|b| - 1]);
      assert DigitsValue(a + b) == DigitsValue(a + b') * 10 + d;
      assert DigitsValue(b) == y * 10 + d;
      Shift(x, Pow10(|b'|), y, d);
    }
  }

  lemma Shift(x: int, p: int, y: int, d: int)
    ensures (x * p + y) * 10 + d == x * (p * 10) + (y * 10 + d)
  {
  }

  /** The shortest decimal spelling of `n`, as str(n) gives it. */
  function Decimal(n: nat): (r: string)
    ensures IsDigits(r) && DigitsValue(r) == n
    ensures |r| > 1 ==> r[0] != '0'
  {
    if n < 10 then [Digit(n)]
    else
      var r := Decimal(n / 10) + [Digit(n % 10)];
      assert r[..|r| - 1] == Decimal(n / 10);
      r
  }

  lemma {:induction false} DecimalWidth(n: nat, w: nat)
    requires 1 <= w && n < Pow10(w)
    ensures |Decimal(n)| <= w
  {
    if n >= 10 {
      assert w >= 2;
      assert n / 10 < Pow10(w - 1);
      DecimalWidth(n / 10, w - 1);
    }
  }

  function Zeros(k: nat): (r: string)
    ensures |r| == k && AllDigits(r) && DigitsValue(r) == 0
  {
    if k == 0 then [] else
      var r := Zeros(k - 1) + ['0'];
      assert r[..|r| - 1] == Zeros(k - 1);
      r
  }

  /** `n` in decimal, padded on the left with zeros to at least `w` digits,
      as strftime's %m, %d, %H, %M and %S (w == 2) and %Y (w == 4) write it. */
  function Pad(n: nat, w: nat): (r: string)
    ensures IsDigits(r) && DigitsValue(r) == n
    ensures |r| == if |Decimal(n)| < w then w else |Decimal(n)|
  {
    var d := Decimal(n);
    if |d| < w then
      DigitsValueConcat(Zeros(w - |d|), d);
      Zeros(w - |d|) + d
    else d
  }

  /** A value below 10^w takes exactly `w` characters once padded. */
  lemma PadWidth(n: nat, w: nat)
    requires 1 <= w && n < Pow10(w)
    ensures |Pad(n, w)| == w
  {
    DecimalWidth(n, w);
  }

  /** str.split(sep): the pieces between separators, always at least one. */
  function Split(s: string, sep: char): (pieces: seq<string>)
    ensures |pieces| >= 1
    ensures forall i :: 0 <= i < |pieces| ==> sep !in pieces[i]
  {
    if s == [] then [[]]
    else
      var rest := Split(s[1..], sep);
      if s[0] == sep then [[]] + rest
      else [[s[0]] + rest[0]] + rest[1..]
  }

  /** sep.join(pieces), the inverse of Split. */
  function Join(pieces: seq<string>, sep: char): string
    requires |pieces| >= 1
  {
    if |pieces| == 1 then pieces[0] else pieces[0] + [sep] + Join(pieces[1..], sep)
  }

  lemma {:induction false} JoinSplit(s: string, sep: char)
    ensures Join(Split(s, sep), sep) == s
  {
    if s != [] {
      var rest := Split(s[1..], sep);
      JoinSplit(s[1..], sep);
      if s[0] == sep {
        assert ([[]] + rest)[1..] == rest;
      } else {
        var p := [[s[0]] + rest[0]] + rest[1..];
        if |rest| == 1 {
          assert Join(p, sep) == [s[0]] + rest[0];
        } else {
          assert p[1..] == rest[1..];
          assert Join(rest, sep) == rest[0] + [sep] + Join(rest[1..], sep);
        }
      }
    }
  }

  /** A leading piece without separators becomes the head of the first piece. */
  lemma {:induction false} SplitPiece(p: string, t: string, sep: char)
    requires sep !in p
    ensures Split(p + t, sep) == [p + Split(t, sep)[0]] + Split(t, sep)[1..]
  {
    var pieces := Split(t, sep);
    if p == [] {
      assert p + t == t;
      assert p + pieces[0] == pieces[0];
      assert [pieces[0]] + pieces[1..] == pieces;
    } else {
      assert (p + t)[1..] == p[1..] + t;
      SplitPiece(p[1..], t, sep);
      assert [p[0]] + (p[1..] + Split(t, sep)[0]) == p + Split(t, sep)[0];
    }
  }

  lemma {:induction false} SplitJoin(pieces: seq<string>, sep: char)
    requires |pieces| >= 1
    requires forall i :: 0 <= i < |pieces| ==> sep !in pieces[i]
    ensures Split(Join(pieces, sep), sep) == pieces
  {
    var p := pieces[0];
    if |pieces| == 1 {
      SplitPiece(p, [], sep);
      assert p + [] == p;
    } else {
      var tail := Join(pieces[1..], sep);
      SplitJoin(pieces[1..], sep);
      assert Split([sep] + tail, sep) == [[]] + pieces[1..];
      assert p + [sep] + tail == p + ([sep] + tail);
      SplitPiece(p, [sep] + tail, sep);
      assert p + [] == p;
      assert [p] + pieces[1..] == pieces;
    }
  }

  /** str.endswith(suffix), case-sensitive. */
  predicate EndsWith(s: string, suffix: string) {
    |suffix| <= |s| && s[|s| - |suffix|..] == suffix
  }

  /** `s` ends with `suffix` exactly when it is some string followed by `suffix`. */
  lemma EndsWithIff(s: string, suffix: string)
    ensures EndsWith(s, suffix) <==> exists p :: s == p + suffix
  {
    if EndsWith(s, suffix) {
      assert s == s[..|s| - |suffix|] + suffix;
    }
    if exists p :: s == p + suffix {
      var p :| s == p + suffix;
      assert s[|s| - |suffix|..] == suffix;
    }
  }

  /** Python's `a < b` on strings: code point by code point, a proper prefix
      ordered first. */
  predicate LexLess(a: string, b: string) {
    if a == [] then b != []
    else if b == [] then false
    else if a[0] != b[0] then a[0] < b[0]
    else LexLess(a[1..], b[1..])
  }

  lemma {:induction false} LexLessIrreflexive(a: string)
    ensures !LexLess(a, a)
  {
    if a != [] {
      LexLessIrreflexive(a[1..]);
    }
  }

  /** Comparing two concatenations whose left parts have the same width:
      the left parts decide, unless they are equal. */
  lemma {:induction false} LexLessAppend(a: string, b: string, s: string, t: string)
    requires |a| == |b|
    ensures LexLess(a + s, b + t) == (LexLess(a, b) || (a == b && LexLess(s, t)))
  {
    if a == [] {
      assert a + s == s && b + t == t;
    } else {
      assert (a + s)[0] == a[0] && (b + t)[0] == b[0];
      assert (a + s)[1..] == a[1..] + s && (b + t)[1..] == b[1..] + t;
      if a[0] == b[0] {
        LexLessAppend(a[1..], b[1..], s, t);
        assert a == b <==> a[1..] == b[1..] by {
          if a[1..] == b[1..] {
            assert a == [a[0]] + a[1..] && b == [b[0]] + b[1..];
          }
        }
      }
    }
  }

  /** A common prefix does not change the order. */
  lemma {:induction false} LexLessPrefix(p: string, s: string, t: string)
    ensures LexLess(p + s, p + t) == LexLess(s, t)
  {
    LexLessAppend(p, p, s, t);
    LexLessIrreflexive(p);
  }

  lemma PlaceValue(x: nat, u: nat, y: nat, v: nat, base: nat)
    requires u < base && v < base
    ensures x * base + u < y * base + v <==> x < y || (x == y && u < v)
  {
    if x < y {
      assert (x + 1) * base <= y * base;
    } else if y < x {
      assert (y + 1) * base <= x * base;
    }
  }

  /** Digit strings of one width compare as the numbers they spell. */
  lemma {:induction false} LexLessDigits(a: string, b: string)
    requires |a| == |b| && AllDigits(a) && AllDigits(b)
    ensures LexLess(a, b) <==> DigitsValue(a) < DigitsValue(b)
  {
    if a != [] {
      var a', b' := a[1..], b[1..];
      assert a == [a[0]] + a' && b == [b[0]] + b';
      DigitsValueConcat([a[0]], a');
      DigitsValueConcat([b[0]], b');
      assert DigitsValue([a[0]]) == DigitValue(a[0]) by {
        assert [a[0]][..0] == [];
      }
      assert DigitsValue([b[0]]) == DigitValue(b[0]) by {
        assert [b[0]][..0] == [];
      }
      LexLessDigits(a', b');
      PlaceValue(DigitValue(a[0]), DigitsValue(a'), DigitValue(b[0]), DigitsValue(b'), Pow10(|a'|));
    }
  }
}
