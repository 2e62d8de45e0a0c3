/** How the handler turns the `{treeindex}` path segment into a number:
    Go's `strconv.ParseInt(s, 10, 0)` on a 64-bit platform, with its error
    result thrown away. A syntax error therefore yields 0 and an out-of-range
    number yields the nearest int64 bound. */
module IndexParam {

  const MaxInt64: int := 0x7fff_ffff_ffff_ffff
  const MinInt64: int := -0x8000_0000_0000_0000
  const MaxUint64: int := 0xffff_ffff_ffff_ffff

  /** Outcome of ParseUint's digit loop. */
  datatype Scan = Value(n: nat) | SyntaxError | RangeError

  predicate IsDigit(c: char)
  {
    '0' <= c <= '9'
  }

  function DigitValue(c: char): (d: nat)
    requires IsDigit(c)
    ensures d < 10
  {
    (c as int) - ('0' as int)
  }

  function DigitChar(d: nat): (c: char)
    requires d < 10
    ensures IsDigit(c) && DigitValue(c) == d
  {
    ('0' as int + d) as char
  }

  /** ParseUint's loop in base 10, continuing from the value `acc` read so
      far: a non-digit stops with a syntax error, a value past 2^64-1 stops
      at once with a range error, whatever follows it. */
  function ScanDigits(s: string, acc: nat): (r: Scan)
    requires acc <= MaxUint64
    ensures r.Value? ==> r.n <= MaxUint64
    ensures (forall k :: 0 <= k < |s| ==> IsDigit(s[k])) ==> !r.SyntaxError?
    ensures r.SyntaxError? ==> exists k :: 0 <= k < |s| && !IsDigit(s[k])
  {
    if s == [] then Value(acc)
    else if !IsDigit(s[0]) then SyntaxError
    else if acc * 10 + DigitValue(s[0]) > MaxUint64 then RangeError
    else ScanDigits(s[1..], acc * 10 + DigitValue(s[0]))
  }

  /** `s` without its optional leading sign. */
  function Unsigned(s: string): string
  {
    if s != [] && (s[0] == '+' || s[0] == '-') then s[1..] else s
  }

  /** The index the handler uses for the path segment `s`. */
  function ParseIndex(s: string): (r: int)
    ensures MinInt64 <= r <= MaxInt64
    ensures (Unsigned(s) == [] || !IsDigit(Unsigned(s)[0])) ==> r == 0
  {
    if s == [] then 0
    else
      var neg := s[0] == '-';
      var body := Unsigned(s);
      var u := if body == [] then SyntaxError else ScanDigits(body, 0);
      match u
      case SyntaxError => 0
      case RangeError => if neg then MinInt64 else MaxInt64
      case Value(n) =>
        if !neg then (if n > MaxInt64 then MaxInt64 else n)
        else (if n > -MinInt64 then MinInt64 else -(n as int))
  }

  /** A non-digit after digits that scanned to a value stops the loop with a
      syntax error, whatever follows. */
  lemma MidSyntaxError(d: string, c: char, rest: string, acc: nat)
    requires acc <= MaxUint64 && ScanDigits(d, acc).Value? && !IsDigit(c)
    ensures ScanDigits(d + [c] + rest, acc) == SyntaxError
  {
    ScanAppend(d, [c] + rest, acc);
    assert d + [c] + rest == d + ([c] + rest);
  }

  /** A syntax error anywhere in the number, not only at its first
      character, gives index 0: `"3x"`, `"1.5"`, `"-12abc"`. */
  lemma SyntaxErrorGivesZero(sign: string, d: string, c: char, rest: string)
    requires sign == "" || sign == "+" || sign == "-"
    requires d != [] && ScanDigits(d, 0).Value? && !IsDigit(c)
    ensures ParseIndex(sign + d + [c] + rest) == 0
  {
    var s := sign + d + [c] + rest;
    assert IsDigit(d[0]);
    assert Unsigned(s) == d + [c] + rest by {
      if sign == "" {
        assert s == d + [c] + rest;
      } else {
        assert s[0] == sign[0] && s[1..] == d + [c] + rest;
      }
    }
    MidSyntaxError(d, c, rest, 0);
  }

  /** Digits with an optional sign, leading zeros included, give their value,
      negated after a minus sign and clamped to the 64-bit range. */
  lemma SignedDigitsParse(sign: string, d: string, n: nat)
    requires sign == "" || sign == "+" || sign == "-"
    requires d != [] && ScanDigits(d, 0) == Value(n)
    ensures sign != "-" ==> ParseIndex(sign + d) == (if n > MaxInt64 then MaxInt64 else n)
    ensures sign == "-" ==> ParseIndex(sign + d) == (if n > -MinInt64 then MinInt64 else -(n as int))
  {
    var s := sign + d;
    assert IsDigit(d[0]);
    assert Unsigned(s) == d by {
      if sign == "" {
        assert s == d;
      } else {
        assert s[0] == sign[0] && s[1..] == d;
      }
    }
  }

  /** Segments that `%d` never prints still parse: a plus sign and leading
      zeros are accepted, and a stray character makes the whole index 0. */
  lemma NonCanonicalSegments()
    ensures ParseIndex("+7") == 7 && ParseIndex("007") == 7 && ParseIndex("-007") == -7
    ensures ParseIndex("3x") == 0 && ParseIndex("1.5") == 0 && ParseIndex("12abc") == 0
  {
  }

  /** Decimal digits of `n`, as `%d` prints it. */
  function Decimal(n: nat): (s: string)
    ensures |s| > 0 && forall k :: 0 <= k < |s| ==> IsDigit(s[k])
  {
    if n < 10 then [DigitChar(n)] else Decimal(n / 10) + [DigitChar(n % 10)]
  }

  /** `%d` for a signed index, as in the request URL. */
  function FormatIndex(i: int): string
  {
    if i < 0 then "-" + Decimal(-i) else Decimal(i)
  }

  /** Scanning a concatenation scans the first part and continues on the second. */
  lemma {:induction false} ScanAppend(a: string, b: string, acc: nat)
    requires acc <= MaxUint64
    ensures ScanDigits(a + b, acc) ==
      match ScanDigits(a, acc)
      case Value(m) => ScanDigits(b, m)
      case e => e
  {
    if a == [] {
      assert a + b == b;
    } else {
      assert (a + b)[0] == a[0];
      assert (a + b)[1..] == a[1..] + b;
      if IsDigit(a[0]) && acc * 10 + DigitValue(a[0]) <= MaxUint64 {
        ScanAppend(a[1..], b, acc * 10 + DigitValue(a[0]));
      }
    }
  }

  lemma {:induction false} ScanDecimal(n: nat)
    requires n <= MaxUint64
    ensures ScanDigits(Decimal(n), 0) == Value(n)
  {
    if n >= 10 {
      ScanDecimal(n / 10);
      ScanAppend(Decimal(n / 10), [DigitChar(n % 10)], 0);
      assert ScanDigits([DigitChar(n % 10)], n / 10) == ScanDigits([], n);
    }
  }

  /** Any 64-bit index survives being printed with `%d` and parsed back. */
  lemma ParseFormatRoundTrip(i: int)
    requires MinInt64 <= i <= MaxInt64
    ensures ParseIndex(FormatIndex(i)) == i
  {
    if i < 0 {
      ScanDecimal(-i);
      assert Unsigned(FormatIndex(i)) == Decimal(-i);
    } else {
      ScanDecimal(i);
      assert Unsigned(FormatIndex(i)) == Decimal(i);
    }
  }

  lemma {:induction false} ScanDecimalOverflow(n: nat)
    requires n > MaxUint64
    ensures ScanDigits(Decimal(n), 0) == RangeError
  {
    ScanAppend(Decimal(n / 10), [DigitChar(n % 10)], 0);
    if n / 10 > MaxUint64 {
      ScanDecimalOverflow(n / 10);
    } else {
      ScanDecimal(n / 10);
    }
  }

  /** A number past 2^64-1 is clamped to the nearest int64 bound, whatever
      characters follow it: the digit loop stops at the overflow before it
      reaches them. */
  lemma OverflowBeatsSyntaxError(n: nat, rest: string)
    requires n > MaxUint64
    ensures ParseIndex(Decimal(n) + rest) == MaxInt64
    ensures ParseIndex("-" + Decimal(n) + rest) == MinInt64
  {
    ScanDecimalOverflow(n);
    ScanAppend(Decimal(n), rest, 0);
    assert Unsigned(Decimal(n) + rest) == Decimal(n) + rest;
    assert Unsigned("-" + Decimal(n) + rest) == Decimal(n) + rest;
  }
}
