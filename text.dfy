/**
 * The two pieces of string handling the board relies on: splitting its text
 * layout into rows (String.Split with one separator) and writing integer
 * coordinates in decimal.
 */
module Text {
  /** The inverse of Split: the parts with the separator between them. */
  function Join(parts: seq<string>, sep: char): string
    requires |parts| >= 1
  {
    if |parts| == 1 then parts[0] else parts[0] + [sep] + Join(parts[1..], sep)
  }

  /** String.Split(sep): the maximal separator-free runs, always at least one. */
  function Split(s: string, sep: char): (r: seq<string>)
    ensures |r| >= 1
    ensures forall k :: 0 <= k < |r| ==> sep !in r[k]
    ensures Join(r, sep) == s
  {
    if s == [] then [""]
    else
      var rest := Split(s[1..], sep);
      if s[0] == sep then
        assert [sep] + Join(rest, sep) == s;
        [""] + rest
      else
        var r := [[s[0]] + rest[0]] + rest[1..];
        assert r[1..] == rest[1..];
        assert s == [s[0]] + s[1..];
        r
  }

  lemma {:induction false} SplitPrefix(p: string, tail: string, sep: char)
    requires sep !in p
    ensures Split(p + tail, sep) == [p + Split(tail, sep)[0]] + Split(tail, sep)[1..]
  {
    if p != [] {
      assert (p + tail)[1..] == p[1..] + tail;
      SplitPrefix(p[1..], tail, sep);
      assert p[0] != sep;
      assert [p[0]] + (p[1..] + Split(tail, sep)[0]) == p + Split(tail, sep)[0];
    } else {
      assert p + tail == tail;
      assert p + Split(tail, sep)[0] == Split(tail, sep)[0];
      assert Split(tail, sep) == [Split(tail, sep)[0]] + Split(tail, sep)[1..];
    }
  }

  /** Splitting the joined parts gives the parts back. */
  lemma {:induction false} SplitJoin(parts: seq<string>, sep: char)
    requires |parts| >= 1
    requires forall k :: 0 <= k < |parts| ==> sep !in parts[k]
    ensures Split(Join(parts, sep), sep) == parts
  {
    if |parts| == 1 {
      SplitPrefix(parts[0], "", sep);
      assert parts[0] + "" == parts[0];
      assert Split("", sep) == [""];
      assert Split(parts[0], sep) == [parts[0] + ""] + [];
    } else {
      SplitJoin(parts[1..], sep);
      var j := Join(parts[1..], sep);
      assert Join(parts, sep) == parts[0] + ([sep] + j);
      SplitPrefix(parts[0], [sep] + j, sep);
      assert ([sep] + j)[1..] == j;
      assert Split([sep] + j, sep) == [""] + Split(j, sep);
      assert parts[0] + "" == parts[0];
      assert parts == [parts[0]] + parts[1..];
    }
  }

  predicate IsDigit(c: char)
  {
    '0' <= c <= '9'
  }

  predicate AllDigits(s: string)
  {
    forall k :: 0 <= k < |s| ==> IsDigit(s[k])
  }

  function DigitChar(d: nat): (c: char)
    requires d < 10
    ensures IsDigit(c) && c as int - '0' as int == d
  {
    "0123456789"[d]
  }

  /** Decimal digits of n, most significant first, without leading zeros. */
  function NatToString(n: nat): (r: string)
    ensures |r| >= 1 && AllDigits(r)
  {
    if n < 10 then [DigitChar(n)] else NatToString(n / 10) + [DigitChar(n % 10)]
  }

  /** The value of a string of decimal digits. */
  function DigitsValue(s: string): nat
    requires AllDigits(s)
  {
    if s == [] then 0
    else DigitsValue(s[..|s| - 1]) * 10 + (s[|s| - 1] as int - '0' as int)
  }

  lemma {:induction false} NatToStringValue(n: nat)
    ensures DigitsValue(NatToString(n)) == n
  {
    if n >= 10 {
      NatToStringValue(n / 10);
      var s := NatToString(n);
      assert s[..|s| - 1] == NatToString(n / 10);
    }
  }

  /** Int32.ToString / Single.ToString of an integral value: a minus sign, then the digits. */
  function IntToString(n: int): (r: string)
    ensures |r| >= 1
  {
    if n < 0 then "-" + NatToString(-n) else NatToString(n)
  }

  /** A string that cannot continue a run of digits. */
  predicate Stops(u: string)
  {
    u == [] || !IsDigit(u[0])
  }

  /** A digit run followed by a non-digit splits in one way only. */
  lemma DigitRun(a: string, u: string, b: string, v: string)
    requires AllDigits(a) && AllDigits(b) && Stops(u) && Stops(v)
    requires a + u == b + v
    ensures a == b && u == v
  {
    assert a == (a + u)[..|a|];
    assert b == (b + v)[..|b|];
  }

  /** A written integer followed by a non-digit can be read back in one way only. */
  lemma IntPrefix(a: int, u: string, b: int, v: string)
    requires Stops(u) && Stops(v)
    requires IntToString(a) + u == IntToString(b) + v
    ensures a == b && u == v
  {
    SignAgrees(a, u, b, v);
    var sa := NatToString(if a < 0 then -a else a);
    var sb := NatToString(if b < 0 then -b else b);
    if a < 0 {
      NegativeBody(sa, u, sb, v);
    }
    DigitRun(sa, u, sb, v);
    NatToStringValue(if a < 0 then -a else a);
    NatToStringValue(if b < 0 then -b else b);
  }

  lemma SignAgrees(a: int, u: string, b: int, v: string)
    requires IntToString(a) + u == IntToString(b) + v
    ensures a < 0 <==> b < 0
  {
    assert (IntToString(a) + u)[0] == IntToString(a)[0];
    assert (IntToString(b) + v)[0] == IntToString(b)[0];
  }

  lemma NegativeBody(sa: string, u: string, sb: string, v: string)
    requires "-" + sa + u == "-" + sb + v
    ensures sa + u == sb + v
  {
    assert sa + u == ("-" + sa + u)[1..];
    assert sb + v == ("-" + sb + v)[1..];
  }
}
