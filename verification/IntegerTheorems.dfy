// The digits that print_integer generates: what they read back to, and how many there are.
module IntegerTheorems {
  import opened Bits
  import opened Sequences
  import opened IntegerText

  // ------------------------------------------------------------ digits

  lemma {:induction false} NumeralIsReversed(value: nat, base: Base, uppercase: bool)
    ensures Reverse(DigitsRev(value, base, uppercase)) == Numeral(value, base, uppercase)
    decreases value
  {
    if value > 0 {
      NumeralIsReversed(value / base, base, uppercase);
      var rest := DigitsRev(value / base, base, uppercase);
      assert ([Digit(value % base, uppercase)] + rest)[1..] == rest;
    }
  }

  lemma Powers()
    ensures Pow(8, 22) == 4 * LIMIT_64 && Pow(16, 16) == LIMIT_64 && Pow(10, 20) == 100000000000000000000
    ensures Pow(2, 32) == 0x1_0000_0000
  {
    PowAdd(8, 11, 11);
    PowAdd(16, 8, 8);
    PowAdd(10, 10, 10);
    PowAdd(2, 8, 8);
    PowAdd(2, 16, 16);
    assert Pow(8, 11) == 0x2_0000_0000 && Pow(16, 8) == 0x1_0000_0000;
    assert Pow(10, 10) == 10000000000 && Pow(2, 8) == 256;
  }

  lemma Monotone(b: nat, p: nat, q: nat)
    ensures p <= q ==> b * p <= b * q
  {
  }

  lemma DivBelow(v: nat, b: nat, p: nat)
    requires b > 0 && v < b * p
    ensures 0 <= v / b < p
  {
    DivNonNegative(v, b);
    Monotone(b, p, v / b);
    assert v == b * (v / b) + v % b;
  }

  lemma {:induction false} NumeralLength(value: nat, base: Base, uppercase: bool, k: nat)
    requires value < Pow(base, k)
    ensures |Numeral(value, base, uppercase)| <= k
    decreases value
  {
    if value > 0 {
      assert k > 0;
      DivBelow(value, base, Pow(base, k - 1));
      NumeralLength(value / base, base, uppercase, k - 1);
    }
  }

  lemma NumeralFits(value: nat, base: Base, uppercase: bool)
    requires base != 2 && value < LIMIT_64
    ensures |Numeral(value, base, uppercase)| <= 22
    ensures base == 16 ==> |Numeral(value, base, uppercase)| <= 16
    ensures base == 10 ==> |Numeral(value, base, uppercase)| <= 20
  {
    Powers();
    NumeralLength(value, base, uppercase, if base == 8 then 22 else if base == 10 then 20 else 16);
  }

  lemma {:induction false} NoLeadingZero(value: nat, base: Base, uppercase: bool)
    requires value > 0
    ensures Numeral(value, base, uppercase) != "" && Numeral(value, base, uppercase)[0] != '0'
    decreases value
  {
    if value / base == 0 {
      assert value % base == value;
    } else {
      NoLeadingZero(value / base, base, uppercase);
    }
  }

  lemma {:induction false} DigitsAreDigits(value: nat, base: Base, uppercase: bool, i: nat)
    requires i < |Numeral(value, base, uppercase)|
    ensures var c := Numeral(value, base, uppercase)[i];
      DigitValue(c) < base && ('0' <= c <= '9' || 'a' <= c <= 'f' || 'A' <= c <= 'F')
    decreases value
  {
    DivNonNegative(value, base);
    var front, digit := Numeral(value / base, base, uppercase), Digit(value % base, uppercase);
    assert Numeral(value, base, uppercase) == front + [digit];
    if i < |front| {
      DigitsAreDigits(value / base, base, uppercase, i);
    } else {
      DigitRoundTrip(value % base, uppercase);
    }
  }

  // Reading digits in the base, most significant first.
  function ReadDigits(s: string, base: nat): nat
  {
    if s == "" then 0 else ReadDigits(s[..|s| - 1], base) * base + DigitValue(s[|s| - 1])
  }

  lemma {:induction false} NumeralReadsBack(value: nat, base: Base, uppercase: bool)
    ensures ReadDigits(Numeral(value, base, uppercase), base) == value
    decreases value
  {
    if value > 0 {
      DivNonNegative(value, base);
      var q, r := value / base, value % base;
      NumeralReadsBack(q, base, uppercase);
      ReadOneMore(Numeral(q, base, uppercase), Digit(r, uppercase), base);
      DigitRoundTrip(r, uppercase);
      assert ReadDigits(Numeral(value, base, uppercase), base) == q * base + r;
    }
  }

  lemma DigitRoundTrip(d: nat, uppercase: bool)
    requires d < 16
    ensures DigitValue(Digit(d, uppercase)) == d
  {
  }

  lemma ReadOneMore(s: string, c: char, base: nat)
    ensures ReadDigits(s + [c], base) == ReadDigits(s, base) * base + DigitValue(c)
  {
    assert (s + [c])[..|s|] == s;
  }

  lemma OneDigitMore(low: string, d: char, value: nat, base: nat, p: nat)
    requires base > 0 && p > 0 && DigitValue(d) == value % base && value / base >= 0
    requires ReadDigits(low, base) == value / base % p
    ensures base * p > 0 && ReadDigits(low + [d], base) == value % (base * p)
  {
    ReadOneMore(low, d, base);
    ModSplit(value, base, p);
  }

  lemma FirstDigit(value: nat, base: Base, uppercase: bool)
    requires value > 0
    ensures value / base >= 0
    ensures DigitsRev(value, base, uppercase) ==
      [Digit(value % base, uppercase)] + DigitsRev(value / base, base, uppercase)
    ensures DigitValue(Digit(value % base, uppercase)) == value % base
  {
  }

  lemma {:induction false} LowDigits(value: nat, base: Base, uppercase: bool, k: nat)
    requires k <= |DigitsRev(value, base, uppercase)|
    ensures ReadDigits(Reverse(DigitsRev(value, base, uppercase)[..k]), base) == value % Pow(base, k)
    decreases k
  {
    hide DigitsRev, DigitValue, Digit, ReadDigits;
    if k == 0 {
      NoDigits(base);
      assert Reverse(DigitsRev(value, base, uppercase)[..0]) == "";
    } else {
      SomeDigits(value, base, uppercase);
      FirstDigit(value, base, uppercase);
      var d, rest := DigitsRev(value, base, uppercase), DigitsRev(value / base, base, uppercase);
      LowDigits(value / base, base, uppercase, k - 1);
      assert d[..k][1..] == rest[..k - 1];
      OneDigitMore(Reverse(rest[..k - 1]), d[0], value, base, Pow(base, k - 1));
    }
  }

  lemma NoDigits(base: nat)
    ensures ReadDigits("", base) == 0
  {
  }

  lemma SomeDigits(value: nat, base: Base, uppercase: bool)
    requires DigitsRev(value, base, uppercase) != ""
    ensures value > 0
  {
  }

  lemma ModSplit(v: nat, b: nat, p: nat)
    requires b > 0 && p > 0
    ensures b * p > 0 && v % (b * p) == (v / b) % p * b + v % b
  {
    DivNonNegative(v, b);
    Monotone(b, 1, p);
    var n := v / b;
    DivNonNegative(n, p);
    var q, r := n / p, n % p;
    Distribute(b, p, q, r);
    Monotone(b, r + 1, p);
    DivModUnique(v, b * p, q, b * r + v % b);
  }

  lemma Distribute(b: nat, p: nat, q: nat, r: nat)
    ensures b * (p * q + r) == q * (b * p) + b * r
  {
  }

  // The digits read back to the whole value, in binary to its low 32 bits.
  lemma GeneratedReadsBack(value: nat, base: Base, flags: Flags)
    requires value < LIMIT_64
    ensures |Generated(value, base, flags)| <= PRINTF_INTEGER_BUFFER_SIZE
    ensures ReadDigits(Generated(value, base, flags), base) == if base == 2 then value % 0x1_0000_0000 else value
  {
    if base != 2 {
      WholeNumeral(value, base, flags);
      NumeralReadsBack(value, base, flags.uppercase);
    } else if value > 0 {
      LowBits(value, flags.uppercase);
    }
  }

  // Outside binary the buffer holds all digits.
  lemma WholeNumeral(value: nat, base: Base, flags: Flags)
    requires base != 2 && value < LIMIT_64
    ensures |Generated(value, base, flags)| <= 22
    ensures value > 0 ==> Generated(value, base, flags) == Numeral(value, base, flags.uppercase)
  {
    NumeralIsReversed(value, base, flags.uppercase);
    NumeralFits(value, base, flags.uppercase);
  }

  lemma LowBits(value: nat, uppercase: bool)
    ensures ReadDigits(Reverse(Cut(DigitsRev(value, 2, uppercase))), 2) == value % 0x1_0000_0000
  {
    var d := DigitsRev(value, 2, uppercase);
    Powers();
    if |d| > 32 {
      LowDigits(value, 2, uppercase, 32);
    } else {
      NumeralIsReversed(value, 2, uppercase);
      NumeralReadsBack(value, 2, uppercase);
      LengthBounds(value, uppercase);
      PowMonotone(|d|, 32);
    }
  }

  lemma {:induction false} LengthBounds(value: nat, uppercase: bool)
    ensures value < Pow(2, |DigitsRev(value, 2, uppercase)|)
  {
    if value > 0 {
      LengthBounds(value / 2, uppercase);
    }
  }

  lemma {:induction false} PowMonotone(j: nat, k: nat)
    requires j <= k
    ensures Pow(2, j) <= Pow(2, k)
    decreases k
  {
    if j < k {
      PowMonotone(j, k - 1);
    }
  }
}
