/** Base-10 text for unsigned integers: the parse done by Go's
    `strconv.ParseUint(s, 10, 64)` and the rendering done by the `%d` verb. */
module Decimal {
  import opened Wrappers

  /** 2^64 - 1, the largest value a uint64 holds. */
  const MaxUint64: int := 0xFFFF_FFFF_FFFF_FFFF

  predicate IsDigit(c: char) {
    '0' <= c <= '9'
  }

  predicate AllDigits(s: string) {
    forall i :: 0 <= i < |s| ==> IsDigit(s[i])
  }

  /** No redundant leading zero: the form `%d` produces. */
  predicate Canonical(s: string) {
    s != [] && AllDigits(s) && (|s| > 1 ==> s[0] != '0')
  }

  function DigitValue(c: char): (d: nat)
    requires IsDigit(c)
    ensures d < 10
  {
    c as int - '0' as int
  }

  function DigitChar(d: nat): (c: char)
    requires d < 10
    ensures IsDigit(c) && DigitValue(c) == d
  {
    ('0' as int + d) as char
  }

  /** The number a string of decimal digits denotes, most significant digit first. */
  function ValueOf(s: string): nat
    requires AllDigits(s)
    decreases |s|
  {
    if s == [] then 0 else ValueOf(s[..|s| - 1]) * 10 + DigitValue(s[|s| - 1])
  }

  /** Appending a digit multiplies the value by ten and adds the digit. */
  lemma ValueOfSnoc(s: string, c: char)
    requires AllDigits(s) && IsDigit(c)
    ensures AllDigits(s + [c]) && ValueOf(s + [c]) == ValueOf(s) * 10 + DigitValue(c)
  {
    assert (s + [c])[..|s|] == s;
  }

  /** `strconv.ParseUint(s, 10, 64)`: `None` stands for its syntax error (empty
      input, a sign, any character that is not a decimal digit) and for its
      range error (a value above 2^64 - 1). */
  function ParseUint(s: string): (r: Option<nat>)
    // an accepted string is all digits and denotes a value a uint64 holds
    ensures r.Some? ==> s != [] && AllDigits(s) && r.value == ValueOf(s) <= MaxUint64
    // and every non-empty digit string whose value a uint64 holds is accepted, leading zeros included
    ensures s != [] && AllDigits(s) && ValueOf(s) <= MaxUint64 ==> r.Some?
    // the syntax errors: nothing to parse, or a first character that is no digit (a sign among them)
    ensures s == [] || !IsDigit(s[0]) ==> r.None?
    // the range error: a digit string above 2^64 - 1
    ensures s != [] && AllDigits(s) && ValueOf(s) > MaxUint64 ==> r.None?
  {
    if s != [] && AllDigits(s) && ValueOf(s) <= MaxUint64 then Some(ValueOf(s)) else None
  }

  /** The decimal rendering of a natural number. */
  function FormatUint(n: nat): (s: string)
    ensures Canonical(s) && ValueOf(s) == n
    decreases n
  {
    if n < 10 then [DigitChar(n)]
    else
      var prefix := FormatUint(n / 10);
      var s := prefix + [DigitChar(n % 10)];
      assert s[..|s| - 1] == prefix;
      s
  }

  /** The decimal rendering of an integer as `%d` writes it: a minus sign before
      the digits of a negative number. */
  function FormatInt(i: int): (s: string)
    ensures i >= 0 ==> Canonical(s) && ValueOf(s) == i
    ensures i < 0 ==> s == "-" + FormatUint(-i)
  {
    if i < 0 then "-" + FormatUint(-i) else FormatUint(i)
  }

  /** Parsing what `%d` renders gives the number back, for every value a uint64 holds;
      a negative number is rejected (ParseUint takes no sign). */
  lemma FormatThenParse(i: int)
    ensures 0 <= i <= MaxUint64 ==> ParseUint(FormatInt(i)) == Some(i)
    ensures i < 0 ==> ParseUint(FormatInt(i)) == None
  {
    if i < 0 {
      assert FormatInt(i)[0] == '-';
    }
  }

  /** Two canonical digit strings with the same value are the same string: the
      rendering is the only canonical spelling of a number. */
  lemma {:induction false} CanonicalUnique(s: string, t: string)
    requires Canonical(s) && Canonical(t) && ValueOf(s) == ValueOf(t)
    ensures s == t
    decreases |s|
  {
    var a, b := s[..|s| - 1], t[..|t| - 1];
    var x, y := DigitValue(s[|s| - 1]), DigitValue(t[|t| - 1]);
    assert ValueOf(a) * 10 + x == ValueOf(b) * 10 + y;
    assert x == y && ValueOf(a) == ValueOf(b);
    if |s| == 1 && |t| == 1 {
    } else if |s| == 1 {
      LeadingDigitPositive(t);
      assert false;
    } else if |t| == 1 {
      LeadingDigitPositive(s);
      assert false;
    } else {
      assert Canonical(a) && Canonical(b);
      CanonicalUnique(a, b);
      assert s == a + [s[|s| - 1]] && t == b + [t[|t| - 1]];
    }
  }

  /** A canonical string of two or more digits has a non-zero part before its last digit. */
  lemma {:induction false} LeadingDigitPositive(s: string)
    requires Canonical(s) && |s| > 1
    ensures ValueOf(s[..|s| - 1]) > 0
    decreases |s|
  {
    var a := s[..|s| - 1];
    if |a| > 1 {
      assert Canonical(a);
      LeadingDigitPositive(a);
    } else {
      assert a[0] == s[0];
    }
  }

  /** A run of k zero digits. */
  function Zeros(k: nat): string {
    seq(k, _ => '0')
  }

  /** A run of zeros denotes 0. */
  lemma {:induction false} ZerosValue(k: nat)
    ensures AllDigits(Zeros(k)) && ValueOf(Zeros(k)) == 0
    decreases k
  {
    if k > 0 {
      ZerosValue(k - 1);
      assert Zeros(k) == Zeros(k - 1) + ['0'];
      ValueOfSnoc(Zeros(k - 1), '0');
    }
  }

  /** Leading zeros do not change the value of a digit string. */
  lemma {:induction false} LeadingZerosValue(k: nat, t: string)
    requires AllDigits(t)
    ensures AllDigits(Zeros(k) + t) && ValueOf(Zeros(k) + t) == ValueOf(t)
    decreases |t|
  {
    if t == [] {
      ZerosValue(k);
      assert Zeros(k) + t == Zeros(k);
    } else {
      var a, c := t[..|t| - 1], t[|t| - 1];
      assert t == a + [c];
      assert Zeros(k) + t == (Zeros(k) + a) + [c];
      LeadingZerosValue(k, a);
      ValueOfSnoc(Zeros(k) + a, c);
      ValueOfSnoc(a, c);
    }
  }

  /** ParseUint accepts a uint64 written with any number of leading zeros
      (`"007"` is 7, `"00"` is 0), as `strconv.ParseUint` does. */
  lemma LeadingZerosAccepted(k: nat, n: nat)
    requires n <= MaxUint64
    ensures ParseUint(Zeros(k) + FormatUint(n)) == Some(n)
  {
    LeadingZerosValue(k, FormatUint(n));
  }

  /** Every canonical string ParseUint accepts is exactly how `%d` writes the parsed value. */
  lemma ParseThenFormat(s: string)
    requires Canonical(s) && ParseUint(s).Some?
    ensures FormatUint(ParseUint(s).value) == s
  {
    CanonicalUnique(FormatUint(ValueOf(s)), s);
  }
}
