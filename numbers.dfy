/** Go's 64-bit `int` as the ledger uses it: strconv.Itoa, strconv.Atoi with
    its error discarded, and the wrapping `n++`. */
module Numbers {
  import opened Text

  const MaxInt64: int := 0x7fff_ffff_ffff_ffff
  const MinInt64: int := -0x8000_0000_0000_0000

  type Int64 = x: int | MinInt64 <= x <= MaxInt64

  function DigitChar(d: nat): (c: char)
    requires d < 10
    ensures IsDigit(c)
  {
    ('0' as int + d) as char
  }

  function DigitValue(c: char): nat
    requires IsDigit(c)
  {
    c as int - '0' as int
  }

  /** The decimal digits of `n`, most significant first, without leading zeros. */
  function Decimal(n: nat): (s: string)
    ensures |s| >= 1 && AllDigits(s)
    decreases n
  {
    if n < 10 then [DigitChar(n)] else Decimal(n / 10) + [DigitChar(n % 10)]
  }

  /** strconv.Itoa: a minus sign for negative numbers, then the digits. */
  function Itoa(n: int): string
  {
    if n < 0 then "-" + Decimal(-n) else Decimal(n)
  }

  /** The number the digits `s` denote when read left to right after the
      digits already read, which denote `acc`; no bound applies. */
  function DecimalFrom(acc: nat, s: string): nat
    requires AllDigits(s)
    decreases |s|
  {
    if s == [] then acc else DecimalFrom(acc * 10 + DigitValue(s[0]), s[1..])
  }

  /** The digits at the front of `s`, up to its first non-digit. */
  function DigitPrefix(s: string): (p: string)
    ensures p <= s && AllDigits(p)
    ensures p == s || !IsDigit(s[|p|])
    decreases |s|
  {
    if s == [] || !IsDigit(s[0]) then [] else [s[0]] + DigitPrefix(s[1..])
  }

  const MaxUint64: int := 0xffff_ffff_ffff_ffff

  function Clamp(v: int): Int64
  {
    if v > MaxInt64 then MaxInt64 else if v < MinInt64 then MinInt64 else v
  }

  /** What the digit loop of strconv.ParseUint (base 10, 64 bits) makes of
      the bytes after its sign. */
  datatype Parsed = SyntaxError | Value(n: nat)

  /** The loop of ParseUint from the point where the digits read so far
      denote `acc`: a non-digit is a syntax error, and the first digit that
      takes the number past 2^64-1 ends the loop with that maximum (a range
      error), whatever bytes follow. */
  function ParseDigits(s: string, acc: nat): (r: Parsed)
    requires acc <= MaxUint64
    ensures r.Value? ==> r.n <= MaxUint64
    decreases |s|
  {
    if s == [] then Value(acc)
    else if !IsDigit(s[0]) then SyntaxError
    else if acc * 10 + DigitValue(s[0]) > MaxUint64 then Value(MaxUint64)
    else ParseDigits(s[1..], acc * 10 + DigitValue(s[0]))
  }

  /** `s` without the one leading sign ParseInt strips. */
  function Unsigned(s: string): (digits: string)
    ensures |s| > 0 && (s[0] == '-' || s[0] == '+') ==> digits == s[1..]
    ensures !(|s| > 0 && (s[0] == '-' || s[0] == '+')) ==> digits == s
  {
    if |s| > 0 && (s[0] == '-' || s[0] == '+') then s[1..] else s
  }

  /** The value strconv.Atoi returns on a 64-bit target, its error ignored.
      A string of 19 bytes or more goes through ParseInt: one sign is
      stripped, ParseDigits reads the rest, a syntax error gives 0 and the
      unsigned result is saturated to the signed range. A shorter string
      takes a fast path that gives the same value, since at most 18 digits
      cannot overflow. */
  function Atoi(s: string): Int64
  {
    var digits := Unsigned(s);
    if digits == [] then 0
    else match ParseDigits(digits, 0)
      case SyntaxError => 0
      case Value(n) => if s[0] == '-' then Clamp(-(n as int)) else Clamp(n)
  }

  /** Atoi reports a syntax error for `s`: no digits follow the sign, or a
      non-digit comes before the digits have overflowed 64 unsigned bits. */
  predicate SyntaxErrorIn(s: string)
  {
    var p := DigitPrefix(Unsigned(s));
    Unsigned(s) == [] || (p != Unsigned(s) && DecimalFrom(0, p) <= MaxUint64)
  }

  /** Go's `n++` on a 64-bit int, which wraps from the largest value to the smallest. */
  function Increment(n: Int64): (m: Int64)
    ensures n < MaxInt64 ==> m == n + 1
    ensures n == MaxInt64 ==> m == MinInt64
  {
    if n == MaxInt64 then MinInt64 else n + 1
  }

  lemma {:induction false} DecimalFromSnoc(acc: nat, s: string, c: char)
    requires AllDigits(s) && IsDigit(c)
    ensures DecimalFrom(acc, s + [c]) == DecimalFrom(acc, s) * 10 + DigitValue(c)
    decreases |s|
  {
    if s != [] {
      assert (s + [c])[1..] == s[1..] + [c];
      DecimalFromSnoc(acc * 10 + DigitValue(s[0]), s[1..], c);
    }
  }

  lemma {:induction false} DecimalFromAtLeast(acc: nat, s: string)
    requires AllDigits(s)
    ensures DecimalFrom(acc, s) >= acc
    decreases |s|
  {
    if s != [] {
      DecimalFromAtLeast(acc * 10 + DigitValue(s[0]), s[1..]);
    }
  }

  lemma {:induction false} DecimalValueOfDecimal(n: nat)
    ensures DecimalFrom(0, Decimal(n)) == n
    decreases n
  {
    if n >= 10 {
      DecimalValueOfDecimal(n / 10);
      DecimalFromSnoc(0, Decimal(n / 10), DigitChar(n % 10));
    }
  }

  /** The digit loop depends only on the digits before the first non-digit:
      it overflows when they denote more than 2^64-1, and otherwise reports
      a syntax error exactly when a non-digit follows them. */
  lemma {:induction false} ParseDigitsByPrefix(s: string, acc: nat)
    requires acc <= MaxUint64
    ensures var v := DecimalFrom(acc, DigitPrefix(s));
      ParseDigits(s, acc) ==
        if v > MaxUint64 then Value(MaxUint64)
        else if DigitPrefix(s) != s then SyntaxError
        else Value(v)
    decreases |s|
  {
    if s != [] && IsDigit(s[0]) {
      var next := acc * 10 + DigitValue(s[0]);
      var p := DigitPrefix(s[1..]);
      assert DigitPrefix(s) == [s[0]] + p;
      assert DecimalFrom(acc, DigitPrefix(s)) == DecimalFrom(next, p);
      if next > MaxUint64 {
        DecimalFromAtLeast(next, p);
      } else {
        ParseDigitsByPrefix(s[1..], next);
        assert DigitPrefix(s) == s <==> p == s[1..];
      }
    }
  }

  /** Atoi in terms of the digits after the sign: 0 on a syntax error,
      otherwise the signed value of the digit prefix saturated to 64 bits.
      In particular digits that overflow before a non-digit give the
      saturated value, not 0. */
  lemma AtoiByPrefix(s: string)
    ensures SyntaxErrorIn(s) ==> Atoi(s) == 0
    ensures !SyntaxErrorIn(s) ==>
      var v := DecimalFrom(0, DigitPrefix(Unsigned(s)));
      Atoi(s) == if s[0] == '-' then Clamp(-(v as int)) else Clamp(v)
  {
    if Unsigned(s) != [] {
      ParseDigitsByPrefix(Unsigned(s), 0);
    }
  }

  /** Atoi reads back what Itoa writes, for every 64-bit value. */
  lemma AtoiOfItoa(n: Int64)
    ensures Atoi(Itoa(n)) == n
  {
    var s := Itoa(n);
    if n < 0 {
      var m: nat := -(n as int);
      DecimalValueOfDecimal(m);
      assert s[1..] == Decimal(m);
      assert Unsigned(s) == Decimal(m);
    } else {
      DecimalValueOfDecimal(n);
      assert s[0] == Decimal(n)[0];
      assert Unsigned(s) == Decimal(n);
    }
    assert DigitPrefix(Unsigned(s)) == Unsigned(s);
    AtoiByPrefix(s);
  }

  /** Itoa writes only digits and a leading minus sign, ends in a digit, and
      pads nothing: its first digit is 0 only for 0 itself. */
  lemma ItoaShape(n: int)
    ensures |Itoa(n)| >= 1 && IsDigit(Itoa(n)[|Itoa(n)| - 1])
    ensures forall k :: 0 <= k < |Itoa(n)| ==> IsDigit(Itoa(n)[k]) || (k == 0 && n < 0 && Itoa(n)[k] == '-')
    ensures n >= 0 ==> AllDigits(Itoa(n)) && (Itoa(n)[0] == '0' <==> n == 0)
  {
    if n >= 0 { DecimalLeadingDigit(n); }
  }

  lemma {:induction false} DecimalLeadingDigit(n: nat)
    ensures Decimal(n)[0] == '0' <==> n == 0
    decreases n
  {
    if n >= 10 {
      DecimalLeadingDigit(n / 10);
    }
  }

  /** No character Itoa writes is a dot or a line terminator. */
  lemma ItoaChars(n: int)
    ensures '.' !in Itoa(n) && '\n' !in Itoa(n) && '\r' !in Itoa(n)
  {
    ItoaShape(n);
  }
}
