/** The number parsing the index build calls: `strconv.ParseInt(s, 10, 64)`
    and `strconv.Atoi` (which on a 64-bit platform gives the same value), with
    the error result dropped as the caller drops it. */
module GoStrconv {

  const MaxUint64: int := 0xFFFF_FFFF_FFFF_FFFF
  const MaxInt64: int := 0x7FFF_FFFF_FFFF_FFFF
  const MinInt64: int := -0x8000_0000_0000_0000

  predicate IsDigit(c: char) {
    '0' <= c <= '9'
  }

  function DigitValue(c: char): (d: nat)
    requires IsDigit(c)
    ensures d < 10
  {
    c as int - '0' as int
  }

  predicate AllDigits(s: string) {
    forall i :: 0 <= i < |s| ==> IsDigit(s[i])
  }

  /** The number a run of decimal digits denotes. */
  function DigitsValue(s: string): nat
    requires AllDigits(s)
  {
    if s == [] then 0 else DigitsValue(s[..|s| - 1]) * 10 + DigitValue(s[|s| - 1])
  }

  /** What `strconv.ParseUint(s, 10, 64)` reports. */
  datatype UintScan = Value(n: nat) | SyntaxError | RangeError

  /** The digit loop of `ParseUint` in base 10: it accumulates left to right,
      fails with a syntax error at the first rune that is not a digit, and
      fails with a range error as soon as the accumulated value passes the
      largest uint64, whatever follows. */
  function ScanDigits(s: string, n: nat): (r: UintScan)
    requires n <= MaxUint64
    ensures r.Value? ==> r.n <= MaxUint64
    decreases |s|
  {
    if s == [] then Value(n)
    else if !IsDigit(s[0]) then SyntaxError
    else
      var n1 := n * 10 + DigitValue(s[0]);
      if n1 > MaxUint64 then RangeError else ScanDigits(s[1..], n1)
  }

  /** `strconv.ParseUint(s, 10, 64)`: the empty string is a syntax error. */
  function ParseUint(s: string): (r: UintScan)
    ensures r.Value? ==> r.n <= MaxUint64
  {
    if s == [] then SyntaxError else ScanDigits(s, 0)
  }

  /** A scan over text with a rune that is not a digit never yields a value:
      it stops with a syntax error there, or with a range error before. */
  lemma {:induction false} ScanOfNonDigits(s: string, n: nat)
    requires n <= MaxUint64 && !AllDigits(s)
    ensures !ScanDigits(s, n).Value?
    decreases |s|
  {
    if IsDigit(s[0]) && n * 10 + DigitValue(s[0]) <= MaxUint64 {
      var i :| 0 <= i < |s| && !IsDigit(s[i]);
      assert i > 0 && !IsDigit(s[1..][i - 1]);
      ScanOfNonDigits(s[1..], n * 10 + DigitValue(s[0]));
    }
  }

  /** What `ParseUint` means: a value exactly for a non-empty run of digits
      whose value fits in a uint64, and then that value; a range error for a
      run of digits too large; a syntax error for the empty string. */
  lemma {:induction false} ParseUintMeaning(s: string)
    ensures ParseUint(s).Value? <==> s != [] && AllDigits(s) && DigitsValue(s) <= MaxUint64
    ensures ParseUint(s).Value? ==> ParseUint(s).n == DigitsValue(s)
    ensures s != [] && AllDigits(s) && DigitsValue(s) > MaxUint64 ==> ParseUint(s) == RangeError
    ensures s == [] ==> ParseUint(s) == SyntaxError
  {
    if s != [] {
      if AllDigits(s) {
        ScanOfDigits(s);
      } else {
        ScanOfNonDigits(s, 0);
      }
    }
  }

  /** The text after an optional leading sign. */
  function UnsignedPart(s: string): (r: string)
    ensures |r| <= |s|
  {
    if s != [] && (s[0] == '+' || s[0] == '-') then s[1..] else s
  }

  /** `strconv.ParseInt(s, 10, 64)` with the error ignored: an optional sign,
      then `ParseUint`; a syntax error yields 0 and a range error (or a
      magnitude beyond int64) yields the nearest int64 bound. */
  function ParseInt(s: string): (r: int)
    ensures MinInt64 <= r <= MaxInt64
    ensures s == [] ==> r == 0
  {
    if s == [] then 0
    else
      var neg := s[0] == '-';
      var body := UnsignedPart(s);
      match ParseUint(body)
      case SyntaxError => 0
      case RangeError => if neg then MinInt64 else MaxInt64
      case Value(u) =>
        if !neg then (if u > MaxInt64 then MaxInt64 else u)
        else (if u > -MinInt64 then MinInt64 else -(u as int))
  }

  /** The decimal rendering of a natural number, most significant digit first. */
  function Decimal(n: nat): (r: string)
    ensures r != [] && AllDigits(r)
    decreases n
  {
    if n < 10 then [('0' as int + n) as char]
    else Decimal(n / 10) + [('0' as int + n % 10) as char]
  }

  lemma {:induction false} DecimalValue(n: nat)
    ensures DigitsValue(Decimal(n)) == n
    decreases n
  {
    var r := Decimal(n);
    if n >= 10 {
      DecimalValue(n / 10);
      assert r[..|r| - 1] == Decimal(n / 10);
    }
  }

  /** Scanning one more rune continues from where the shorter scan stopped. */
  lemma {:induction false} ScanSnoc(s: string, c: char, n: nat)
    requires n <= MaxUint64
    ensures ScanDigits(s + [c], n) ==
      match ScanDigits(s, n)
      case Value(m) =>
        if !IsDigit(c) then SyntaxError
        else if m * 10 + DigitValue(c) > MaxUint64 then RangeError
        else Value(m * 10 + DigitValue(c))
      case other => other
    decreases |s|
  {
    if s != [] {
      assert (s + [c])[0] == s[0];
      assert (s + [c])[1..] == s[1..] + [c];
      if IsDigit(s[0]) && n * 10 + DigitValue(s[0]) <= MaxUint64 {
        ScanSnoc(s[1..], c, n * 10 + DigitValue(s[0]));
      }
    }
  }

  /** A non-empty run of digits scans to its value, or to a range error
      exactly when that value does not fit in a uint64. */
  lemma {:induction false} ScanOfDigits(s: string)
    requires s != [] && AllDigits(s)
    ensures ScanDigits(s, 0) == if DigitsValue(s) <= MaxUint64 then Value(DigitsValue(s)) else RangeError
    decreases |s|
  {
    var init, c := s[..|s| - 1], s[|s| - 1];
    assert s == init + [c];
    ScanSnoc(init, c, 0);
    if init != [] {
      assert AllDigits(init) by {
        forall i | 0 <= i < |init| ensures IsDigit(init[i]) { assert init[i] == s[i]; }
      }
      ScanOfDigits(init);
    }
  }

  /** Round trip with the decimal rendering: a rendered number parses back to
      itself, clamped to the int64 range, with or without a leading minus. */
  lemma ParseIntOfDecimal(n: nat)
    ensures ParseInt(Decimal(n)) == if n <= MaxInt64 then n else MaxInt64
    ensures ParseInt("-" + Decimal(n)) == if n <= -MinInt64 then -(n as int) else MinInt64
  {
    var d := Decimal(n);
    DecimalValue(n);
    ScanOfDigits(d);
    assert IsDigit(d[0]);
    assert ("-" + d)[0] == '-' && ("-" + d)[1..] == d;
  }

  /** A field that starts with neither a sign nor a digit parses to 0. */
  lemma {:induction false} ParseIntOfNonNumber(s: string)
    requires s != [] && s[0] != '+' && s[0] != '-' && !IsDigit(s[0])
    ensures ParseInt(s) == 0
  {
  }

  /** Once a run of digits that fits in a uint64 is followed by a rune that is
      not a digit, the scan stops there with a syntax error, whatever follows;
      a scan that overflowed inside the run keeps its range error. */
  lemma {:induction false} ScanThroughNonDigit(w: string, c: char, u: string, n: nat)
    requires n <= MaxUint64 && AllDigits(w) && !IsDigit(c)
    ensures ScanDigits(w + [c] + u, n) == if ScanDigits(w, n).Value? then SyntaxError else ScanDigits(w, n)
    decreases |w|
  {
    var s := w + [c] + u;
    if w == [] {
      assert s[0] == c;
    } else {
      assert s[0] == w[0] && s[1..] == w[1..] + [c] + u;
      var n1 := n * 10 + DigitValue(w[0]);
      if n1 <= MaxUint64 {
        assert AllDigits(w[1..]) by {
          forall i | 0 <= i < |w| - 1 ensures IsDigit(w[1..][i]) { assert w[1..][i] == w[i + 1]; }
        }
        ScanThroughNonDigit(w[1..], c, u, n1);
      }
    }
  }

  /** `ParseUint` of digits that fit in a uint64, then a non-digit, then
      anything, is a syntax error. */
  lemma {:induction false} ParseUintStopsAtNonDigit(w: string, c: char, u: string)
    requires AllDigits(w) && DigitsValue(w) <= MaxUint64 && !IsDigit(c)
    ensures ParseUint(w + [c] + u) == SyntaxError
  {
    ScanThroughNonDigit(w, c, u, 0);
    if w != [] {
      ScanOfDigits(w);
    }
  }

  /** A syntax error on the part after the sign makes the field 0. */
  lemma {:induction false} ParseIntOfSyntaxError(s: string)
    requires ParseUint(UnsignedPart(s)) == SyntaxError
    ensures ParseInt(s) == 0
  {
  }

  /** A bare sign parses to 0. */
  lemma ParseIntOfBareSign()
    ensures ParseInt("+") == 0 && ParseInt("-") == 0
  {
    assert UnsignedPart("+") == [] && UnsignedPart("-") == [];
  }

  /** A field made of an optional sign, digits that fit in a uint64 and then a
      rune that is neither a digit nor (at the very front) a sign parses to 0,
      whatever follows: `12a`, `-7x`, `+-1` and `a` all give 0. */
  lemma {:induction false} ParseIntMalformed(sign: string, w: string, c: char, u: string)
    requires sign == "" || sign == "+" || sign == "-"
    requires AllDigits(w) && DigitsValue(w) <= MaxUint64 && !IsDigit(c)
    requires sign == "" && w == [] ==> c != '+' && c != '-'
    ensures ParseInt(sign + w + [c] + u) == 0
  {
    var s := sign + w + [c] + u;
    if sign == "" {
      assert s == w + [c] + u;
      if w != [] {
        assert s[0] == w[0] && IsDigit(w[0]);
      } else {
        assert s[0] == c;
      }
    } else {
      assert s[0] == sign[0] && s[1..] == w + [c] + u;
    }
    assert UnsignedPart(s) == w + [c] + u;
    ParseUintStopsAtNonDigit(w, c, u);
    ParseIntOfSyntaxError(s);
  }
}
