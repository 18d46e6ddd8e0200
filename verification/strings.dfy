/**
 Text helpers with the behaviour of the Python 2 string operations the
 telemetry definitions rely on: `strip`, `split`, `upper`, `"%04d"` and `int()`.
 Everything is ASCII: there is no locale, case folding beyond a-z, or encoding.
 */
module Strings {
  import opened Wrappers

  /** The characters an argument-less `str.strip()` removes: space and codes 9 to 13. */
  const Whitespace: set<char> := {' ', '\t', '\n', 11 as char, 12 as char, '\r'}

  // ---------------------------------------------------------------------------
  // strip

  /** `s.lstrip(cs)`: drops the longest prefix of characters from `cs`. */
  function StripLeft(s: string, cs: set<char>): (r: string)
    ensures |r| <= |s|
    ensures forall k :: 0 <= k < |s| - |r| ==> s[k] in cs
    ensures |r| > 0 ==> r[0] !in cs
    decreases |s|
  {
    if |s| > 0 && s[0] in cs then
      StripLeft(s[1..], cs)
    else
      s
  }

  /** `s.rstrip(cs)`: drops the longest suffix of characters from `cs`. */
  function StripRight(s: string, cs: set<char>): (r: string)
    ensures |r| <= |s|
    ensures forall k :: |r| <= k < |s| ==> s[k] in cs
    ensures |r| > 0 ==> r[|r| - 1] !in cs
    decreases |s|
  {
    if |s| > 0 && s[|s| - 1] in cs then
      StripRight(s[..|s| - 1], cs)
    else
      s
  }

  /** What `lstrip` keeps is a suffix of its input. */
  lemma {:induction false} StripLeftIsSuffix(s: string, cs: set<char>)
    ensures var r := StripLeft(s, cs); r == s[|s| - |r|..]
    decreases |s|
  {
    if |s| > 0 && s[0] in cs {
      StripLeftIsSuffix(s[1..], cs);
    }
  }

  /** What `rstrip` keeps is a prefix of its input. */
  lemma {:induction false} StripRightIsPrefix(s: string, cs: set<char>)
    ensures var r := StripRight(s, cs); r == s[..|r|]
    decreases |s|
  {
    if |s| > 0 && s[|s| - 1] in cs {
      StripRightIsPrefix(s[..|s| - 1], cs);
    }
  }

  /** `s[i..j]` is what is left of `s` once a run of `cs` before `i` and one from `j` on are cut off. */
  predicate Between(s: string, cs: set<char>, i: int, j: int) {
    && 0 <= i <= j <= |s|
    && (forall k :: 0 <= k < i ==> s[k] in cs)
    && (forall k :: j <= k < |s| ==> s[k] in cs)
  }

  /**
   `s.strip(cs)`: the result starts and ends outside `cs`; a string made of
   `cs` only strips to nothing, and one whose ends are outside `cs` is kept.
   `StripIsMiddle` adds that it is the middle of `s` between a leading and
   a trailing run of `cs`.
   */
  function Strip(s: string, cs: set<char>): (r: string)
    ensures |r| <= |s|
    ensures |r| > 0 ==> r[0] !in cs && r[|r| - 1] !in cs
    ensures (forall k :: 0 <= k < |s| ==> s[k] in cs) ==> r == []
    ensures |s| > 0 && s[0] !in cs && s[|s| - 1] !in cs ==> r == s
  {
    StripBothEnds(s, cs);
    StripRight(StripLeft(s, cs), cs)
  }

  /** What `strip` keeps is the middle of `s`, once a run of `cs` is cut off each end. */
  lemma StripIsMiddle(s: string, cs: set<char>)
    ensures exists i, j :: Between(s, cs, i, j) && Strip(s, cs) == s[i..j]
  {
    var t := StripLeft(s, cs);
    var r := StripRight(t, cs);
    StripLeftIsSuffix(s, cs);
    StripRightIsPrefix(t, cs);
    var i := |s| - |t|;
    forall k | i + |r| <= k < |s|
      ensures s[k] in cs
    {
      assert s[k] == t[k - i];
    }
    assert Between(s, cs, i, i + |r|) && r == s[i..i + |r|];
  }

  lemma StripBothEnds(s: string, cs: set<char>)
    ensures var r := StripRight(StripLeft(s, cs), cs);
      && (|r| > 0 ==> r[0] !in cs)
      && ((forall k :: 0 <= k < |s| ==> s[k] in cs) ==> r == [])
      && (|s| > 0 && s[0] !in cs && s[|s| - 1] !in cs ==> r == s)
  {
    var t := StripLeft(s, cs);
    var r := StripRight(t, cs);
    StripLeftIsSuffix(s, cs);
    StripRightIsPrefix(t, cs);
    if |s| > 0 && s[0] !in cs && s[|s| - 1] !in cs {
      assert t == s;
    }
    if |r| > 0 {
      assert r[0] == t[0];
    }
  }

  /**
   The strip is determined by where its result starts and ends: cutting a
   run of `cs` off each end of `s` so that both remaining ends are outside
   `cs` gives exactly `Strip(s, cs)`.
   */
  lemma StripOf(s: string, cs: set<char>, i: int, j: int)
    requires Between(s, cs, i, j) && i < j
    requires s[i] !in cs && s[j - 1] !in cs
    ensures Strip(s, cs) == s[i..j]
  {
    var r := Strip(s, cs);
    StripIsMiddle(s, cs);
    var i', j' :| Between(s, cs, i', j') && r == s[i'..j'];
    assert r[0] == s[i'] && r[|r| - 1] == s[j' - 1];
    assert i' == i;
    assert j' == j;
  }

  /** Two strips in a row cut off runs of the union of the two sets. */
  lemma BetweenCompose(s: string, cs: set<char>, i: int, j: int, ds: set<char>, i2: int, j2: int)
    requires Between(s, cs, i, j) && Between(s[i..j], ds, i2, j2)
    ensures Between(s, cs + ds, i + i2, i + j2)
    ensures s[i..j][i2..j2] == s[i + i2..i + j2]
  {
    assert |s[i..j][i2..j2]| == |s[i + i2..i + j2]|;
    forall k | 0 <= k < j2 - i2
      ensures s[i..j][i2..j2][k] == s[i + i2..i + j2][k]
    {
    }
    forall k | 0 <= k < i + i2
      ensures s[k] in cs + ds
    {
      if k >= i {
        assert s[k] == s[i..j][k - i];
      }
    }
    forall k | i + j2 <= k < |s|
      ensures s[k] in cs + ds
    {
      if k < j {
        assert s[k] == s[i..j][k - i];
      }
    }
  }

  /** Three strips in a row keep the middle of `s` between runs of the union of the three sets. */
  lemma StripThrice(s: string, cs: set<char>, ds: set<char>, es: set<char>)
    ensures exists i, j :: Between(s, cs + ds + es, i, j) && Strip(Strip(Strip(s, cs), ds), es) == s[i..j]
  {
    StripIsMiddle(s, cs);
    StripMiddle(s, Strip(s, cs), cs, ds);
    StripMiddle(s, Strip(Strip(s, cs), ds), cs + ds, es);
  }

  /** `t` is what is left of `s` once a run of `cs` is cut off each end. */
  ghost predicate MiddleOf(s: string, t: string, cs: set<char>) {
    exists i, j :: Between(s, cs, i, j) && t == s[i..j]
  }

  /** Stripping a middle of `s` leaves a middle of `s` for the larger set. */
  lemma StripMiddle(s: string, t: string, cs: set<char>, ds: set<char>)
    requires MiddleOf(s, t, cs)
    ensures MiddleOf(s, Strip(t, ds), cs + ds)
  {
    var i, j :| Between(s, cs, i, j) && t == s[i..j];
    StripIsMiddle(t, ds);
    var i2, j2 :| Between(t, ds, i2, j2) && Strip(t, ds) == t[i2..j2];
    BetweenCompose(s, cs, i, j, ds, i2, j2);
    assert Between(s, cs + ds, i + i2, i + j2) && Strip(t, ds) == s[i + i2..i + j2];
  }

  // ---------------------------------------------------------------------------
  // upper

  function UpperChar(c: char): char {
    if 'a' <= c <= 'z' then (c as int - 32) as char else c
  }

  predicate IsLowerLetter(c: char) {
    'a' <= c <= 'z'
  }

  /** No ASCII lower-case letter anywhere in `s`. */
  predicate IsUpperCase(s: string) {
    forall k :: 0 <= k < |s| ==> !IsLowerLetter(s[k])
  }

  /** `s.upper()` restricted to ASCII: a-z become A-Z, everything else is kept. */
  function Upper(s: string): (r: string)
    ensures |r| == |s| && IsUpperCase(r)
    ensures forall k :: 0 <= k < |s| && !IsLowerLetter(s[k]) ==> r[k] == s[k]
    ensures forall k :: 0 <= k < |s| && IsLowerLetter(s[k]) ==> r[k] as int + 32 == s[k] as int
  {
    seq(|s|, k requires 0 <= k < |s| => UpperChar(s[k]))
  }

  // ---------------------------------------------------------------------------
  // split / join

  /**
   `s.split(sep)` for a one-character separator: the pieces between the
   separators, so there is one more piece than there are separators.
   */
  function Split(s: string, sep: char): (r: seq<string>)
    ensures |r| >= 1
    ensures forall k :: 0 <= k < |r| ==> sep !in r[k]
    decreases |s|
  {
    if |s| == 0 then
      [""]
    else
      var rest := Split(s[1..], sep);
      if s[0] == sep then [""] + rest
      else [[s[0]] + rest[0]] + rest[1..]
  }

  /** There is exactly one more piece than there are separators. */
  lemma {:induction false} SplitCount(s: string, sep: char)
    ensures |Split(s, sep)| == multiset(s)[sep] + 1
    decreases |s|
  {
    if |s| > 0 {
      SplitCount(s[1..], sep);
      assert s == [s[0]] + s[1..];
      assert multiset(s) == multiset{s[0]} + multiset(s[1..]);
    }
  }

  /** `sep.join(pieces)`, the inverse of `Split`. */
  function Join(pieces: seq<string>, sep: char): string
    requires |pieces| > 0
    decreases |pieces|
  {
    if |pieces| == 1 then pieces[0] else pieces[0] + [sep] + Join(pieces[1..], sep)
  }

  lemma {:induction false} JoinSplit(s: string, sep: char)
    ensures Join(Split(s, sep), sep) == s
    decreases |s|
  {
    if |s| > 0 {
      var rest := Split(s[1..], sep);
      JoinSplit(s[1..], sep);
      var r := Split(s, sep);
      assert s == [s[0]] + s[1..];
      if s[0] == sep {
        assert r == [""] + rest;
        assert r[1..] == rest;
        assert Join(r, sep) == "" + [sep] + Join(rest, sep);
      } else {
        assert r == [[s[0]] + rest[0]] + rest[1..];
        if |rest| == 1 {
          assert Join(r, sep) == [s[0]] + rest[0];
          assert Join(rest, sep) == rest[0];
        } else {
          assert r[1..] == rest[1..];
          JoinUnfold(rest, sep);
          assert Join(r, sep) == ([s[0]] + rest[0]) + [sep] + Join(rest[1..], sep);
          assert Join(r, sep) == [s[0]] + (rest[0] + [sep] + Join(rest[1..], sep));
        }
      }
    }
  }

  lemma JoinUnfold(pieces: seq<string>, sep: char)
    requires |pieces| > 1
    ensures Join(pieces, sep) == pieces[0] + [sep] + Join(pieces[1..], sep)
  {
  }

  /** Splitting a separator-free prefix glued to `t` extends the first piece of `t`. */
  lemma {:induction false} SplitPrefix(a: string, t: string, sep: char)
    requires sep !in a
    ensures Split(a + t, sep) == [a + Split(t, sep)[0]] + Split(t, sep)[1..]
    decreases |a|
  {
    if |a| > 0 {
      SplitPrefix(a[1..], t, sep);
      assert (a + t)[1..] == a[1..] + t;
      assert (a + t)[0] == a[0];
      assert [a[0]] + (a[1..] + Split(t, sep)[0]) == a + Split(t, sep)[0];
    } else {
      assert a + t == t;
      var r := Split(t, sep);
      assert a + r[0] == r[0];
      assert r == [r[0]] + r[1..];
    }
  }

  lemma {:induction false} SplitJoin(pieces: seq<string>, sep: char)
    requires |pieces| > 0
    requires forall k :: 0 <= k < |pieces| ==> sep !in pieces[k]
    ensures Split(Join(pieces, sep), sep) == pieces
    decreases |pieces|
  {
    if |pieces| == 1 {
      SplitPrefix(pieces[0], "", sep);
      assert pieces[0] + "" == pieces[0];
    } else {
      var rest := pieces[1..];
      SplitJoin(rest, sep);
      var tail := [sep] + Join(rest, sep);
      assert Join(pieces, sep) == pieces[0] + tail;
      SplitPrefix(pieces[0], tail, sep);
      assert tail[1..] == Join(rest, sep);
      assert Split(tail, sep) == [""] + rest;
      assert pieces[0] + "" == pieces[0];
    }
  }

  // ---------------------------------------------------------------------------
  // decimal digits

  predicate IsDigit(c: char) {
    '0' <= c <= '9'
  }

  predicate AllDigits(s: string) {
    forall k :: 0 <= k < |s| ==> IsDigit(s[k])
  }

  function DigitChar(d: nat): (c: char)
    requires d < 10
    ensures IsDigit(c) && c as int - '0' as int == d
  {
    ('0' as int + d) as char
  }

  /** The value of a string of decimal digits, leading zeros allowed. */
  function DigitsValue(s: string): nat
    requires AllDigits(s)
    decreases |s|
  {
    if |s| == 0 then 0
    else 10 * DigitsValue(s[..|s| - 1]) + (s[|s| - 1] as int - '0' as int)
  }

  /** The shortest decimal rendering of `n` (Python's `str(n)` for `n >= 0`). */
  function Decimal(n: nat): (r: string)
    ensures |r| >= 1 && AllDigits(r)
    ensures r[0] == '0' <==> n == 0
    decreases n
  {
    if n < 10 then [DigitChar(n)] else Decimal(n / 10) + [DigitChar(n % 10)]
  }

  /** Reading the rendering of `n` back gives `n`. */
  lemma {:induction false} DecimalValue(n: nat)
    ensures DigitsValue(Decimal(n)) == n
    decreases n
  {
    if n >= 10 {
      var r := Decimal(n);
      assert r[..|r| - 1] == Decimal(n / 10);
      DecimalValue(n / 10);
    }
  }

  function Pow10(k: nat): nat {
    if k == 0 then 1 else 10 * Pow10(k - 1)
  }

  lemma {:induction false} DecimalLength(n: nat, k: nat)
    requires 1 <= k && n < Pow10(k)
    ensures |Decimal(n)| <= k
    decreases k
  {
    if n >= 10 {
      assert Pow10(1) == 10;
      assert Pow10(k) == 10 * Pow10(k - 1);
      DecimalLength(n / 10, k - 1);
    }
  }

  lemma {:induction false} DecimalLengthAtLeast(n: nat, k: nat)
    requires 1 <= k && Pow10(k - 1) <= n
    ensures |Decimal(n)| >= k
    decreases k
  {
    if k > 1 {
      assert Pow10(k - 1) == 10 * Pow10(k - 2);
      DecimalLengthAtLeast(n / 10, k - 1);
    }
  }

  function Zeros(k: nat): (r: string)
    ensures |r| == k && AllDigits(r)
  {
    seq(k, _ => '0')
  }

  lemma {:induction false} LeadingZerosKeepValue(k: nat, d: string)
    requires AllDigits(d)
    ensures DigitsValue(Zeros(k) + d) == DigitsValue(d)
    decreases |d|
  {
    var s := Zeros(k) + d;
    if |d| == 0 {
      assert s == Zeros(k);
      ZerosValue(k);
    } else {
      assert s[..|s| - 1] == Zeros(k) + d[..|d| - 1];
      LeadingZerosKeepValue(k, d[..|d| - 1]);
    }
  }

  lemma {:induction false} ZerosValue(k: nat)
    ensures DigitsValue(Zeros(k)) == 0
    decreases k
  {
    if k > 0 {
      assert Zeros(k)[..k - 1] == Zeros(k - 1);
      ZerosValue(k - 1);
    }
  }

  /**
   `"%04d" % n` for `n >= 0`: the decimal digits of `n`, zero-padded on the
   left to at least four characters.
   */
  function Pad4(n: nat): (r: string)
    ensures |r| >= 4 && AllDigits(r)
    ensures n <= 9999 ==> |r| == 4
    ensures n >= 1000 ==> r == Decimal(n)
    ensures n < 1000 ==> r[0] == '0'
  {
    var d := Decimal(n);
    assert n >= 1000 ==> |d| >= 4 by {
      if n >= 1000 {
        assert Pow10(3) == 1000;
        DecimalLengthAtLeast(n, 4);
      }
    }
    assert n < 1000 ==> |d| <= 3 by {
      if n < 1000 {
        assert Pow10(3) == 1000;
        DecimalLength(n, 3);
      }
    }
    if |d| < 4 then
      Zeros(4 - |d|) + d
    else
      assert n <= 9999 ==> |d| <= 4 by {
        if n <= 9999 {
          assert Pow10(4) == 10000;
          DecimalLength(n, 4);
        }
      }
      d
  }

  /** Reading the padded rendering back gives `n`: the padding is only zeros. */
  lemma Pad4Value(n: nat)
    ensures DigitsValue(Pad4(n)) == n
  {
    var d := Decimal(n);
    DecimalValue(n);
    if |d| < 4 {
      LeadingZerosKeepValue(4 - |d|, d);
    }
  }

  /**
   Python 2's `int(s)` on a base-10 string: optional surrounding whitespace,
   an optional sign, whitespace again after a sign, then at least one
   decimal digit. Anything else is the `ValueError` case, `None`.
   */
  function ParseInt(s: string): (r: Option<int>)
    ensures r.Some? <==> SignedNumeral(Strip(s, Whitespace))
    ensures r.Some? && r.value < 0 ==> Strip(s, Whitespace)[0] == '-'
    ensures r.Some? && r.value > 0 ==> Strip(s, Whitespace)[0] != '-'
  {
    var t := Strip(s, Whitespace);
    AfterSign(t);
    ParseSigned(t)
  }

  /** `u[k..]` is the digits of a number, after `k` blanks. */
  predicate BlanksThenDigits(u: string, k: int) {
    && 0 <= k < |u|
    && (forall m :: 0 <= m < k ==> u[m] in Whitespace)
    && AllDigits(u[k..])
  }

  /**
   The texts `int()` accepts once stripped: digits, or one sign followed by
   blanks and then digits.
   */
  ghost predicate SignedNumeral(t: string) {
    || (|t| > 0 && AllDigits(t))
    || (|t| > 0 && (t[0] == '-' || t[0] == '+') && exists k :: BlanksThenDigits(t[1..], k))
  }

  /** A sign, blanks and digits, or digits alone. */
  function ParseSigned(t: string): Option<int> {
    if |t| > 0 && t[0] == '-' then
      match ParseDigits(StripLeft(t[1..], Whitespace))
      case Some(v) => Some(-v)
      case None => None
    else if |t| > 0 && t[0] == '+' then
      ParseDigits(StripLeft(t[1..], Whitespace))
    else
      ParseDigits(t)
  }

  /** What follows a sign is a number exactly when it is blanks, then digits. */
  lemma AfterSign(t: string)
    ensures |t| > 0 ==>
      (ParseDigits(StripLeft(t[1..], Whitespace)).Some? <==> exists k :: BlanksThenDigits(t[1..], k))
  {
    if |t| > 0 {
      var u := t[1..];
      var v := StripLeft(u, Whitespace);
      StripLeftIsSuffix(u, Whitespace);
      var i := |u| - |v|;
      if k :| BlanksThenDigits(u, k) {
        DigitNotSpace(u[k]);
        assert i <= k;
        assert v == u[k..];
      }
      if ParseDigits(v).Some? {
        assert v == u[i..];
        assert BlanksThenDigits(u, i);
      }
    }
  }

  /** At least one decimal digit. */
  function ParseDigits(t: string): Option<int> {
    if |t| > 0 && AllDigits(t) then Some(DigitsValue(t)) else None
  }

  /** A digit is never whitespace, so `strip()` leaves a rendered number alone. */
  lemma DigitNotSpace(c: char)
    requires IsDigit(c)
    ensures c !in Whitespace
  {
  }

  /** `int(str(n)) == n`. */
  lemma ParseIntDecimal(n: nat)
    ensures ParseInt(Decimal(n)) == Some(n)
  {
    var d := Decimal(n);
    DecimalValue(n);
    DigitNotSpace(d[0]);
    DigitNotSpace(d[|d| - 1]);
    assert Strip(d, Whitespace) == d;
  }

  /** `int("-" + str(n)) == -n`. */
  lemma ParseIntNegativeDecimal(n: nat)
    ensures ParseInt("-" + Decimal(n)) == Some(-(n as int))
  {
    ParseNegativeDigits(Decimal(n));
    DecimalValue(n);
  }

  /** `int("-" + d)` of a run of digits `d` is minus their value. */
  lemma ParseNegativeDigits(d: string)
    requires |d| > 0 && AllDigits(d)
    ensures ParseInt("-" + d) == Some(-(DigitsValue(d) as int))
  {
    var t := "-" + d;
    DigitNotSpace(d[|d| - 1]);
    assert t[|t| - 1] == d[|d| - 1];
    assert Strip(t, Whitespace) == t;
    NegativeSigned(d);
  }

  /** The sign branch on `-` followed directly by digits. */
  lemma NegativeSigned(d: string)
    requires |d| > 0 && AllDigits(d)
    ensures ParseSigned("-" + d) == Some(-(DigitsValue(d) as int))
  {
    assert ("-" + d)[1..] == d;
    DigitNotSpace(d[0]);
    assert StripLeft(d, Whitespace) == d;
  }

  /**
   What `int()` reads back from every text it accepts: blanks, an optional
   sign, blanks after a sign, the digits `d`, blanks again give the value
   of `d`, negated exactly when the sign is `-`.
   */
  lemma ParseIntReadBack(a: string, sign: string, b: string, d: string, c: string)
    requires forall k :: 0 <= k < |a| ==> a[k] in Whitespace
    requires forall k :: 0 <= k < |b| ==> b[k] in Whitespace
    requires forall k :: 0 <= k < |c| ==> c[k] in Whitespace
    requires sign == "" || sign == "-" || sign == "+"
    requires sign == "" ==> b == ""
    requires |d| > 0 && AllDigits(d)
    ensures ParseInt(a + sign + b + d + c) ==
      Some(if sign == "-" then -(DigitsValue(d) as int) else DigitsValue(d) as int)
  {
    var t := sign + b + d;
    var s := a + sign + b + d + c;
    ReadBackStrip(a, sign, b, d, c);
    SignedReadBack(sign, b, d);
    ParseStripped(s, t);
  }

  /** The blanks around a signed numeral are what `strip()` removes. */
  lemma ReadBackStrip(a: string, sign: string, b: string, d: string, c: string)
    requires forall k :: 0 <= k < |a| ==> a[k] in Whitespace
    requires forall k :: 0 <= k < |c| ==> c[k] in Whitespace
    requires sign == "" || sign == "-" || sign == "+"
    requires sign == "" ==> b == ""
    requires |d| > 0 && AllDigits(d)
    ensures Strip(a + sign + b + d + c, Whitespace) == sign + b + d
  {
    var t := sign + b + d;
    DigitNotSpace(d[0]);
    DigitNotSpace(d[|d| - 1]);
    assert t[|t| - 1] == d[|d| - 1];
    assert t[0] !in Whitespace by {
      if sign == "" {
        assert t == d;
      } else {
        assert t[0] == sign[0];
      }
    }
    assert a + sign + b == a + (sign + b);
    assert a + (sign + b) + d == a + t;
    StripSurrounding(a, t, c);
  }

  /** `int()` parses what is left once the surrounding blanks are stripped. */
  lemma ParseStripped(s: string, t: string)
    requires Strip(s, Whitespace) == t
    ensures ParseInt(s) == ParseSigned(t)
  {
  }

  /** Stripping blanks off both ends gives back a text whose ends are not blank. */
  lemma StripSurrounding(a: string, t: string, c: string)
    requires forall k :: 0 <= k < |a| ==> a[k] in Whitespace
    requires forall k :: 0 <= k < |c| ==> c[k] in Whitespace
    requires |t| > 0 && t[0] !in Whitespace && t[|t| - 1] !in Whitespace
    ensures Strip(a + t + c, Whitespace) == t
  {
    var s := a + t + c;
    var j := |a| + |t|;
    assert s[|a|..j] == t;
    assert s[|a|] == t[0] && s[j - 1] == t[|t| - 1];
    forall k | j <= k < |s|
      ensures s[k] in Whitespace
    {
      assert s[k] == c[k - j];
    }
    assert Between(s, Whitespace, |a|, j);
    StripOf(s, Whitespace, |a|, j);
  }

  /** The sign branch of the parser on a sign, blanks and digits, or digits alone. */
  lemma SignedReadBack(sign: string, b: string, d: string)
    requires forall k :: 0 <= k < |b| ==> b[k] in Whitespace
    requires sign == "" || sign == "-" || sign == "+"
    requires sign == "" ==> b == ""
    requires |d| > 0 && AllDigits(d)
    ensures ParseSigned(sign + b + d) ==
      Some(if sign == "-" then -(DigitsValue(d) as int) else DigitsValue(d) as int)
  {
    var v := DigitsValue(d) as int;
    if sign == "" {
      assert ParseSigned(sign + b + d) == Some(v) by {
        assert sign + b + d == d;
        UnsignedDigits(d);
      }
    } else {
      DigitNotSpace(d[0]);
      StripLeftBlanks(b, d);
      var c := if sign == "-" then '-' else '+';
      assert sign + b + d == [c] + (b + d);
      SignThenBlanks(c, b + d, d);
    }
  }

  /** Digits alone are read as they are. */
  lemma UnsignedDigits(d: string)
    requires |d| > 0 && AllDigits(d)
    ensures ParseSigned(d) == Some(DigitsValue(d) as int)
  {
    assert IsDigit(d[0]);
  }

  /** After a sign the parser reads the digits left once the blanks are dropped. */
  lemma SignThenBlanks(sign: char, u: string, d: string)
    requires sign == '-' || sign == '+'
    requires StripLeft(u, Whitespace) == d && |d| > 0 && AllDigits(d)
    ensures ParseSigned([sign] + u) ==
      Some(if sign == '-' then -(DigitsValue(d) as int) else DigitsValue(d) as int)
  {
    var t := [sign] + u;
    assert t[0] == sign && t[1..] == u;
    assert ParseDigits(d) == Some(DigitsValue(d));
  }

  /** `lstrip()` drops a run of blanks in front of a text that does not start with one. */
  lemma {:induction false} StripLeftBlanks(b: string, d: string)
    requires forall k :: 0 <= k < |b| ==> b[k] in Whitespace
    requires |d| > 0 && d[0] !in Whitespace
    ensures StripLeft(b + d, Whitespace) == d
    decreases |b|
  {
    if |b| > 0 {
      assert (b + d)[0] == b[0];
      assert (b + d)[1..] == b[1..] + d;
      StripLeftBlanks(b[1..], d);
    } else {
      assert b + d == d;
    }
  }

  /** Python 2 reads blanks between the sign and the digits: `int("- 2") == -2`. */
  lemma ParseIntBlankAfterSign()
    ensures ParseInt("- 2") == Some(-2)
  {
    assert Strip("- 2", Whitespace) == "- 2";
    assert StripLeft(" 2", Whitespace) == "2";
  }
}
