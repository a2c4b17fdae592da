/** Numbers as text: what `kprint_uint` and `kprint_int` print, and how to read it back. */
module Numbers {
  import opened Arith

  const UINT64_LIMIT: int := 0x1_0000_0000_0000_0000
  const INT64_LIMIT: int := 0x8000_0000_0000_0000

  /** `dtoa` of util/ascii.c. */
  function Dtoa(d: nat): char {
    if d <= 9 then ('0' as int + d) as char
    else if d <= 15 then ('A' as int + (d - 10)) as char
    else '\0'
  }

  function DigitValue(c: char): nat {
    if '0' <= c <= '9' then c as int - '0' as int
    else if 'A' <= c <= 'F' then c as int - 'A' as int + 10
    else 0
  }

  predicate IsDigit(c: char, base: nat) {
    ('0' <= c <= '9' || 'A' <= c <= 'F') && DigitValue(c) < base
  }

  lemma DtoaValue(d: nat, base: nat)
    requires d < base <= 16
    ensures IsDigit(Dtoa(d), base) && DigitValue(Dtoa(d)) == d
    ensures Dtoa(d) == "0123456789ABCDEF"[d]
  {
  }

  /** The digits of a positive number, most significant first; none for zero. */
  function Digits(n: nat, base: nat): string
    requires 2 <= base <= 16
  {
    if n == 0 then "" else Digits(n / base, base) + [Dtoa(n % base)]
  }

  function UintText(n: nat, base: nat): string
    requires 2 <= base <= 16
  {
    if n == 0 then "0" else Digits(n, base)
  }

  function IntText(n: int, base: nat): string
    requires 2 <= base <= 16
  {
    if n < 0 then "-" + UintText(-n, base) else UintText(n, base)
  }

  /** Positional evaluation, the independent reading of a numeral. */
  function Eval(text: string, base: nat): int {
    if text == "" then 0 else base * Eval(text[..|text| - 1], base) + DigitValue(text[|text| - 1])
  }

  function Parse(text: string): int {
    if text != "" && text[0] == '-' then -Eval(text[1..], 10) else Eval(text, 10)
  }

  lemma EvalSnoc(t: string, c: char, base: nat)
    ensures Eval(t + [c], base) == base * Eval(t, base) + DigitValue(c)
  {
    assert (t + [c])[..|t|] == t;
  }

  /** A number read back from its digits is the number. */
  lemma {:induction false} EvalDigits(n: nat, base: nat)
    requires 2 <= base <= 16
    ensures Eval(Digits(n, base), base) == n
    decreases n
  {
    hide Dtoa, DigitValue;
    if n > 0 {
      EvalDigits(n / base, base);
      EvalSnoc(Digits(n / base, base), Dtoa(n % base), base);
      DtoaValue(n % base, base);
      DivMod(n, base);
    }
  }

  lemma {:induction false} DigitsAreDigits(n: nat, base: nat)
    requires 2 <= base <= 16
    ensures forall k :: 0 <= k < |Digits(n, base)| ==> IsDigit(Digits(n, base)[k], base)
    decreases n
  {
    if n > 0 {
      DigitsAreDigits(n / base, base);
      DtoaValue(n % base, base);
    }
  }

  lemma EmptyQuotient(n: nat, base: nat)
    requires base > 0 && n / base <= 0
    ensures n / base == 0 && n % base == n
  {
    DivMod(n, base);
  }

  lemma {:induction false} NoLeadingZero(n: nat, base: nat)
    requires 2 <= base <= 16 && n > 0
    ensures |Digits(n, base)| > 0 && DigitValue(Digits(n, base)[0]) != 0
    decreases n
  {
    hide Dtoa, DigitValue;
    DivMod(n, base);
    if n / base > 0 {
      NoLeadingZero(n / base, base);
      assert Digits(n, base) == Digits(n / base, base) + [Dtoa(n % base)];
    } else {
      EmptyQuotient(n, base);
      assert Digits(n, base) == [Dtoa(n)];
      DtoaValue(n, base);
    }
  }

  /** A numeral: only digits, no leading zero, and the number when evaluated. */
  predicate IsNumeral(t: string, n: nat, base: nat) {
    && |t| > 0 && (forall k :: 0 <= k < |t| ==> IsDigit(t[k], base))
    && (|t| > 1 ==> t[0] != '0')
    && Eval(t, base) == n
  }

  lemma UintTextReads(n: nat, base: nat)
    requires 2 <= base <= 16
    ensures IsNumeral(UintText(n, base), n, base)
  {
    EvalDigits(n, base);
    DigitsAreDigits(n, base);
    if n > 0 {
      NoLeadingZero(n, base);
    } else {
      assert Eval("0"[..0], base) == 0;
    }
  }

  /** Every number has one numeral only, so what `kprint_uint` prints is the numeral. */
  lemma {:induction false} NumeralUnique(t: string, n: nat, base: nat)
    requires 2 <= base <= 16 && IsNumeral(t, n, base)
    ensures t == UintText(n, base)
    decreases |t|
  {
    hide Eval, Digits, UintText, IsDigit, DigitValue, Dtoa;
    var front, c := t[..|t| - 1], t[|t| - 1];
    assert t == front + [c];
    EvalSnoc(front, c, base);
    DigitOf(c, base);
    EvalNatural(front, base);
    var q := Eval(front, base);
    Quotient(n, base, q, DigitValue(c));
    UintSnoc(n, base);
    if front != "" {
      LeadingDigit(front, base);
      MulMonotonic(1, base, 1, q);
      NumeralUnique(front, q, base);
    } else {
      EvalNone(base);
    }
  }

  lemma UintSnoc(n: nat, base: nat)
    requires 2 <= base <= 16
    ensures 0 <= n / base
    ensures UintText(n, base) ==
            (if n < base then "" else UintText(n / base, base)) + [Dtoa(n % base)]
  {
    DivMod(n, base);
    if n < base {
      Quotient(n, base, 0, n);
      assert n > 0 ==> Digits(n, base) == Digits(0, base) + [Dtoa(n)];
      assert Digits(0, base) == "" && "" + [Dtoa(n)] == [Dtoa(n)];
    }
  }

  lemma EvalNone(base: nat)
    ensures Eval("", base) == 0
  {
  }

  lemma DigitOf(c: char, base: nat)
    requires IsDigit(c, base) && base <= 16
    ensures DigitValue(c) < base && c == Dtoa(DigitValue(c))
    ensures c != '0' ==> DigitValue(c) > 0
  {
  }

  lemma {:induction false} EvalNatural(t: string, base: nat)
    ensures Eval(t, base) >= 0
  {
    if t != "" {
      EvalNatural(t[..|t| - 1], base);
      MulMonotonic(0, base, 0, Eval(t[..|t| - 1], base));
    }
  }

  /** Digits that do not start with a zero are not zero. */
  lemma {:induction false} LeadingDigit(t: string, base: nat)
    requires 2 <= base <= 16 && t != "" && t[0] != '0' && forall k :: 0 <= k < |t| ==> IsDigit(t[k], base)
    ensures Eval(t, base) > 0
  {
    DigitOf(t[|t| - 1], base);
    if |t| > 1 {
      LeadingDigit(t[..|t| - 1], base);
      MulMonotonic(1, base, 1, Eval(t[..|t| - 1], base));
    }
  }

  /** Signed text: the numeral of the magnitude, after a minus sign if the number is negative. */
  lemma IntTextReads(n: int)
    ensures n >= 0 ==> IsNumeral(IntText(n, 10), n, 10)
    ensures n < 0 ==> IntText(n, 10) != "" && IntText(n, 10)[0] == '-' && IsNumeral(IntText(n, 10)[1..], -n, 10)
  {
    hide UintText, IsNumeral;
    UintTextReads(if n < 0 then -n else n, 10);
    if n < 0 {
      assert IntText(n, 10)[1..] == UintText(-n, 10);
    }
  }

  /** Decimal text reads back as the same signed number, the minimum included. */
  lemma ParseIntText(n: int)
    ensures Parse(IntText(n, 10)) == n
  {
    UintTextReads(if n < 0 then -n else n, 10);
    if n < 0 {
      assert IntText(n, 10)[1..] == UintText(-n, 10);
    } else {
      assert IsDigit(IntText(n, 10)[0], 10);
    }
  }

  lemma IntTextInjective(n: int, m: int)
    requires IntText(n, 10) == IntText(m, 10)
    ensures n == m
  {
    ParseIntText(n);
    ParseIntText(m);
  }

  // ---- How many digits --------------------------------------------------------------------------

  function Pow(base: nat, k: nat): nat {
    if k == 0 then 1 else base * Pow(base, k - 1)
  }

  /** A number has at most `k` digits exactly when it is below `base` to the `k`. */
  lemma {:induction false} DigitCount(n: nat, base: nat, k: nat)
    requires 2 <= base <= 16
    ensures |Digits(n, base)| <= k <==> n < Pow(base, k)
    decreases k
  {
    if n == 0 {
      PowPositive(base, k);
    } else if k > 0 {
      DigitCount(n / base, base, k - 1);
      DivBelow(n, base, Pow(base, k - 1));
    }
  }

  lemma {:induction false} PowPositive(base: nat, k: nat)
    requires base > 0
    ensures Pow(base, k) > 0
  {
    if k > 0 {
      PowPositive(base, k - 1);
    }
  }

  lemma DivBelow(n: nat, base: nat, p: nat)
    requires base > 0
    ensures n / base < p <==> n < base * p
  {
    var d, m := n / base, n % base;
    assert n == base * d + m;
    if d < p {
      assert base * (d + 1) <= base * p;
    } else {
      assert base * p <= base * d;
    }
  }

  lemma {:induction false} PowGrows(base: nat, base': nat, k: nat)
    requires 0 < base <= base'
    ensures Pow(base, k) <= Pow(base', k)
  {
    if k > 0 {
      PowGrows(base, base', k - 1);
      MulMonotonic(base, base', Pow(base, k - 1), Pow(base', k - 1));
    }
  }

  /** Twenty digits are enough for 64 bits from base 10 up. */
  lemma TwentyDigits(n: nat, base: nat)
    requires 10 <= base <= 16 && n < UINT64_LIMIT
    ensures |Digits(n, base)| <= 20
  {
    assert Pow(10, 5) == 10_0000;
    assert Pow(10, 10) == 100_0000_0000;
    assert Pow(10, 15) == 1000_0000_0000_0000;
    assert Pow(10, 20) == 1_0000_0000_0000_0000_0000;
    PowGrows(10, base, 20);
    DigitCount(n, base, 20);
  }
}
