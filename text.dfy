/** The string building blocks the components' template strings use,
    `Number.prototype.toString()` on non-negative integers and
    `padStart(2, '0')`, together with what the model needs to read their
    output back: `ValueOf`, which reads a string of decimal digits as a
    number, and `Split`/`Join` on one separator character. */
module Text {
  import opened Arithmetic

  predicate IsDigit(c: char) {
    '0' <= c <= '9'
  }

  predicate AllDigits(s: string) {
    forall i :: 0 <= i < |s| ==> IsDigit(s[i])
  }

  /** The numeral of one decimal digit. */
  function DigitChar(d: nat): (c: char)
    requires d < 10
    ensures IsDigit(c) && c as int - '0' as int == d
  {
    ('0' as int + d) as char
  }

  /** The number a string of decimal digits denotes, most significant digit first. */
  function ValueOf(s: string): nat
    requires AllDigits(s)
  {
    if s == [] then 0 else ValueOf(s[..|s| - 1]) * 10 + (s[|s| - 1] as int - '0' as int)
  }

  /** `n.toString()` for an integer `n >= 0`: the shortest decimal numeral of `n`. */
  function Decimal(n: nat): (r: string)
    ensures |r| >= 1 && AllDigits(r) && ValueOf(r) == n
    ensures |r| > 1 ==> r[0] != '0'
    ensures n < 10 <==> |r| == 1
    ensures n < 100 <==> |r| <= 2
  {
    if n < 10 then
      [DigitChar(n)]
    else
      var p := Decimal(n / 10);
      var r := p + [DigitChar(n % 10)];
      assert r[..|r| - 1] == p;
      r
  }

  /** A leading zero does not change the value of a numeral. */
  lemma {:induction false} LeadingZero(s: string)
    requires AllDigits(s)
    ensures AllDigits(['0'] + s) && ValueOf(['0'] + s) == ValueOf(s)
  {
    if s != [] {
      var t := ['0'] + s;
      assert t[..|t| - 1] == ['0'] + s[..|s| - 1];
      LeadingZero(s[..|s| - 1]);
    }
  }

  /** `s.padStart(2, '0')`: zeros are added in front until the string is two long. */
  function PadTwo(s: string): (r: string)
    ensures |r| == if |s| < 2 then 2 else |s|
    ensures AllDigits(s) ==> AllDigits(r) && ValueOf(r) == ValueOf(s)
  {
    if |s| >= 2 then
      s
    else if |s| == 1 then
      assert AllDigits(s) ==> ValueOf(['0'] + s) == ValueOf(s) by {
        if AllDigits(s) { LeadingZero(s); }
      }
      ['0'] + s
    else
      LeadingZero(['0']);
      assert ['0', '0'] == ['0'] + ['0'];
      ['0', '0']
  }

  /** A numeral without a superfluous leading zero, as `toString()` writes one. */
  predicate Canonical(s: string) {
    |s| >= 1 && AllDigits(s) && (|s| == 1 || s[0] != '0')
  }

  /** Appending a digit to the numeral of a positive number gives the
      numeral of ten times it plus the digit. */
  lemma DecimalAppend(v: nat, d: nat)
    requires v >= 1 && d < 10
    ensures Decimal(v * 10 + d) == Decimal(v) + [DigitChar(d)]
  {
    var n := v * 10 + d;
    DivUnique(n / 10, n % 10, v, d, 10);
  }

  /** `Decimal` is the only canonical numeral of its value. */
  lemma {:induction false} CanonicalIsDecimal(s: string)
    requires Canonical(s)
    ensures s == Decimal(ValueOf(s))
    decreases |s|
  {
    var p := s[..|s| - 1];
    var d := s[|s| - 1] as int - '0' as int;
    assert s == p + [DigitChar(d)];
    if |s| > 1 {
      assert Canonical(p) && p[0] != '0';
      CanonicalIsDecimal(p);
      assert ValueOf(p) >= 1 by {
        assert Decimal(0) == ['0'];
      }
      DecimalAppend(ValueOf(p), d);
    } else {
      assert p == [];
    }
  }

  /** A field `padStart(2, '0')` can produce: two digits, or more without a leading zero. */
  predicate PaddedField(s: string) {
    AllDigits(s) && (|s| == 2 || (|s| > 2 && s[0] != '0'))
  }

  /** `n.toString().padStart(2, '0')`: the numeral of `n`, at least two digits
      long; from 10 on it is the numeral itself, and only below 10 is a zero
      put in front. */
  function TwoDigits(n: nat): (r: string)
    ensures |r| >= 2 && AllDigits(r) && ValueOf(r) == n
    ensures n < 100 <==> |r| == 2
    ensures n >= 10 ==> r == Decimal(n)
    ensures n < 10 ==> r == ['0'] + Decimal(n)
    ensures PaddedField(r)
  {
    PadTwo(Decimal(n))
  }

  /** A padded field is exactly `TwoDigits` of its value. */
  lemma PaddedIsTwoDigits(s: string)
    requires PaddedField(s)
    ensures s == TwoDigits(ValueOf(s))
  {
    if s[0] == '0' {
      var t := s[1..];
      assert s == ['0'] + t;
      LeadingZero(t);
      CanonicalIsDecimal(t);
    } else {
      CanonicalIsDecimal(s);
    }
  }

  /** `s.split(sep)` for a one-character separator: the pieces between
      separators, an empty piece wherever two separators meet or at either end. */
  function Split(s: string, sep: char): (r: seq<string>)
    ensures |r| >= 1
    ensures forall k :: 0 <= k < |r| ==> sep !in r[k]
  {
    if s == [] then
      [[]]
    else
      var rest := Split(s[1..], sep);
      if s[0] == sep then [[]] + rest else [[s[0]] + rest[0]] + rest[1..]
  }

  /** The pieces put back together with the separator between them. */
  function Join(parts: seq<string>, sep: char): string
    requires |parts| >= 1
  {
    if |parts| == 1 then parts[0] else parts[0] + [sep] + Join(parts[1..], sep)
  }

  /** Splitting loses nothing: joining the pieces gives the string back. */
  lemma {:induction false} SplitJoin(s: string, sep: char)
    ensures Join(Split(s, sep), sep) == s
  {
    if s != [] {
      var rest := Split(s[1..], sep);
      SplitJoin(s[1..], sep);
      if s[0] == sep {
        assert Split(s, sep) == [[]] + rest;
        assert (([[]] + rest)[1..]) == rest;
        assert s == [sep] + s[1..];
      } else if |rest| == 1 {
        assert s == [s[0]] + s[1..];
      } else {
        var r := Split(s, sep);
        assert r[1..] == rest[1..];
        assert s == [s[0]] + s[1..];
      }
    }
  }

  /** A string that splits into three pieces is those pieces with the separator between them. */
  lemma SplitThree(s: string, sep: char)
    requires |Split(s, sep)| == 3
    ensures var f := Split(s, sep); s == f[0] + [sep] + f[1] + [sep] + f[2]
  {
    var f := Split(s, sep);
    SplitJoin(s, sep);
    assert f[1..][0] == f[1] && f[1..][1..] == [f[2]];
    assert Join(f[1..], sep) == f[1] + [sep] + f[2];
  }

  /** A string that splits into two pieces is those pieces with the separator between them. */
  lemma SplitTwo(s: string, sep: char)
    requires |Split(s, sep)| == 2
    ensures var f := Split(s, sep); s == f[0] + [sep] + f[1]
  {
    var f := Split(s, sep);
    SplitJoin(s, sep);
    assert f[1..] == [f[1]];
  }

  /** A string that splits into one piece is that piece. */
  lemma SplitOne(s: string, sep: char)
    requires |Split(s, sep)| == 1
    ensures s == Split(s, sep)[0]
  {
    SplitJoin(s, sep);
  }

  /** A string without the separator is a single piece. */
  lemma {:induction false} SplitWhole(a: string, sep: char)
    requires sep !in a
    ensures Split(a, sep) == [a]
  {
    if a != [] {
      SplitWhole(a[1..], sep);
      assert [a[0]] + a[1..] == a;
    }
  }

  /** Splitting at the first separator: the part before it is the first piece. */
  lemma {:induction false} SplitAt(a: string, sep: char, b: string)
    requires sep !in a
    ensures Split(a + [sep] + b, sep) == [a] + Split(b, sep)
  {
    var s := a + [sep] + b;
    if a == [] {
      assert s[1..] == b;
    } else {
      assert s[1..] == a[1..] + [sep] + b;
      SplitAt(a[1..], sep, b);
      assert [a[0]] + a[1..] == a;
    }
  }
}
