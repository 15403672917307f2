// print_broken_up_decimal of src/printf.c: a number given by its integral and
// fractional parts, fractional counting units of the last decimal place.
module DecimalText {
  import opened Bits
  import opened IntegerText
  import T = IntegerTheorems
  import S = IntegerStandard
  import opened FormatText
  import opened FormatGrammar

  // The buffer is as long as that of print_integer.
  const PRINTF_DECIMAL_BUFFER_SIZE: nat := PRINTF_INTEGER_BUFFER_SIZE

  datatype Components = Components(integral: nat, fractional: nat, negative: bool)

  // --count, for an unsigned int
  function Down(count: nat): nat
  {
    (count - 1) % LIMIT_32
  }

  // Trailing zeros are skipped for %g.
  function Trim(fractional: nat, count: nat): (nat, nat)
  {
    if fractional > 0 && fractional % 10 == 0 then Trim(fractional / 10, Down(count)) else (fractional, count)
  }

  function PushFraction(t: string, fractional: nat, count: nat): (string, nat)
    decreases fractional
  {
    if |t| >= PRINTF_DECIMAL_BUFFER_SIZE then (t, count)
    else
      var t' := Push(t, Digit(fractional % 10, false));
      if fractional / 10 == 0 then (t', Down(count)) else PushFraction(t', fractional / 10, Down(count))
  }

  function PushZeros(t: string, count: nat): string
  {
    Repeat('0', Min(count, Short(|t|, PRINTF_DECIMAL_BUFFER_SIZE))) + t
  }

  function PushIntegral(t: string, n: nat): string
    decreases n
  {
    if |t| >= PRINTF_DECIMAL_BUFFER_SIZE then t
    else
      var t' := Push(t, Digit(n % 10, false));
      if n / 10 == 0 then t' else PushIntegral(t', n / 10)
  }

  // adapt is FLAGS_ADAPT_EXP, which %g sets.
  function PushFractionPart(t: string, c: Components, precision: nat, adapt: bool, hash: bool): string
  {
    if precision == 0 then (if hash then Push(t, '.') else t)
    else
      var (fractional, count) :=
        if adapt && !hash && c.fractional > 0 then Trim(c.fractional, precision) else (c.fractional, precision);
      if fractional > 0 || !adapt || hash then
        var (t', left) := PushFraction(t, fractional, count);
        Push(PushZeros(t', left), '.')
      else t
  }

  // The number without sign and padding, before text t
  function Unsigned(t: string, c: Components, precision: nat, adapt: bool, hash: bool): string
  {
    PushIntegral(PushFractionPart(t, c, precision, adapt, hash), c.integral)
  }

  function Completed(t: string, negative: bool, width: nat, flags: Flags): string
  {
    IntegerText.Signed(if !flags.left && flags.zeropad then Fill(t, width) else t, negative, flags)
  }

  // What print_broken_up_decimal emits, for a buffer that starts with t.
  function DecimalField(t: string, c: Components, precision: nat, width: nat, adapt: bool, flags: Flags): string
  {
    var w := InnerWidth(width, c.negative, flags);
    Padding(Completed(Unsigned(t, c, precision, adapt, flags.hash), c.negative, w, flags), w, flags)
  }

  // ------------------------------------------------------------ reading back

  function Pow10(k: nat): nat
  {
    Pow(10, k)
  }

  lemma {:induction false} ReadConcat(a: string, b: string)
    ensures T.ReadDigits(a + b, 10) == T.ReadDigits(a, 10) * Pow10(|b|) + T.ReadDigits(b, 10)
    decreases |b|
  {
    if b == "" {
      assert a + b == a;
    } else {
      var front, n := b[..|b| - 1], |b| - 1;
      assert (a + b)[..|a + b| - 1] == a + front;
      ReadConcat(a, front);
      Shift(T.ReadDigits(a, 10), Pow10(n), T.ReadDigits(front, 10), DigitValue(b[n]));
    }
  }

  lemma Shift(x: nat, p: nat, y: nat, d: nat)
    ensures (x * p + y) * 10 + d == x * (10 * p) + (y * 10 + d)
  {
    Associate(x, p, 10);
    assert x * (p * 10) == x * (10 * p);
  }

  // Decimal as the digit loops see it: one digit, or the digits of a tenth and one more
  lemma DecimalStep(n: nat, t: string)
    ensures 0 <= n / 10 && 0 <= n % 10 < 10 && |Decimal(n)| > 0
    ensures n / 10 == 0 ==> Decimal(n) + t == [Digit(n % 10, false)] + t && |Decimal(n)| == 1
    ensures n / 10 > 0 ==> Decimal(n) + t == Decimal(n / 10) + ([Digit(n % 10, false)] + t)
    ensures n / 10 > 0 ==> n / 10 < n && |Decimal(n)| == |Decimal(n / 10)| + 1
  {
    DivNonNegative(n, 10);
    if n / 10 == 0 {
      assert n % 10 == n;
      assert n > 0 ==> Numeral(n, 10, false) == Numeral(0, 10, false) + [Digit(n, false)];
    }
  }

  lemma {:induction false} IntegralPushed(t: string, n: nat)
    requires |t| + |Decimal(n)| <= 32
    ensures PushIntegral(t, n) == Decimal(n) + t
    decreases n
  {
    DecimalStep(n, t);
    var q, t' := n / 10, [Digit(n % 10, false)] + t;
    if q > 0 {
      IntegralPushed(t', q);
    }
  }

  lemma {:induction false} FractionPushed(t: string, n: nat, count: nat)
    requires |t| + |Decimal(n)| <= 32 && |Decimal(n)| <= count < LIMIT_32
    ensures PushFraction(t, n, count) == (Decimal(n) + t, count - |Decimal(n)|)
    decreases n
  {
    DecimalStep(n, t);
    var q, t' := n / 10, [Digit(n % 10, false)] + t;
    assert Down(count) == count - 1;
    if q > 0 {
      FractionPushed(t', q, count - 1);
    }
  }

  lemma DecimalReads(n: nat)
    ensures T.ReadDigits(Decimal(n), 10) == n
  {
    T.NumeralReadsBack(n, 10, false);
    if n == 0 {
      assert Decimal(n)[..0] == "";
    }
  }

  lemma DecimalLength(n: nat, k: nat)
    requires n < Pow10(k) && k > 0
    ensures 0 < |Decimal(n)| <= k
  {
    T.NumeralLength(n, 10, false, k);
    if n > 0 {
      T.NoLeadingZero(n, 10, false);
    }
  }

  // The fraction, padded with zeros to count digits
  function FractionText(fractional: nat, count: nat): string
  {
    Repeat('0', Short(|Decimal(fractional)|, count)) + Decimal(fractional)
  }

  lemma FractionReads(fractional: nat, count: nat)
    requires fractional < Pow10(count) && count > 0
    ensures |FractionText(fractional, count)| == count
    ensures T.ReadDigits(FractionText(fractional, count), 10) == fractional
  {
    DecimalLength(fractional, count);
    DecimalReads(fractional);
    S.LeadingZeros(Short(|Decimal(fractional)|, count), Decimal(fractional), 10);
  }

  // Trimming divides by a power of ten, and leaves a last digit that is not zero.
  lemma {:induction false} TrimDivides(fractional: nat, count: nat)
    requires 0 < fractional < Pow10(count) && count < LIMIT_32
    ensures var (f, k) := Trim(fractional, count);
      && 0 < k <= count && 0 < f < Pow10(k) && f % 10 != 0 && f * Pow10(count - k) == fractional
    decreases fractional
  {
    assert count > 0;
    if fractional % 10 == 0 {
      DivNonNegative(fractional, 10);
      T.DivBelow(fractional, 10, Pow10(count - 1));
      TrimDivides(fractional / 10, count - 1);
      var (f, k) := Trim(fractional / 10, count - 1);
      Tenfold(f, Pow10(count - 1 - k), fractional / 10);
    } else {
      assert fractional * 1 == fractional;
    }
  }

  lemma Tenfold(f: nat, p: nat, x: nat)
    requires f * p == x
    ensures f * (10 * p) == 10 * x
  {
    Associate(f, p, 10);
  }

  // The decimal places that are shown
  function Places(c: Components, precision: nat, adapt: bool, hash: bool): (nat, nat)
  {
    if precision == 0 then (0, 0)
    else if adapt && !hash && c.fractional > 0 then Trim(c.fractional, precision)
    else if adapt && !hash then (0, 0)
    else (c.fractional, precision)
  }

  // The point is missing exactly when no places are shown and '#' is not given.
  function Plain(c: Components, precision: nat, adapt: bool, hash: bool): string
  {
    var (f, k) := Places(c, precision, adapt, hash);
    Decimal(c.integral) + if k > 0 then "." + FractionText(f, k) else if hash then "." else ""
  }

  lemma PlacesFacts(c: Components, precision: nat, adapt: bool, hash: bool)
    requires c.fractional < Pow10(precision) && precision < LIMIT_32
    ensures var (f, k) := Places(c, precision, adapt, hash);
      && k <= precision && f < Pow10(k) && f * Pow10(precision - k) == c.fractional
      && (adapt && !hash && k > 0 ==> f % 10 != 0)
  {
    if precision > 0 && adapt && !hash && c.fractional > 0 {
      TrimDivides(c.fractional, precision);
    } else {
      assert c.fractional * 1 == c.fractional && 0 * Pow10(precision) == 0;
    }
  }

  lemma {:induction false} FractionBounded(t: string, n: nat, count: nat)
    requires |t| <= 32
    ensures |PushFraction(t, n, count).0| <= 32
    decreases n
  {
    if |t| < 32 && n / 10 != 0 {
      FractionBounded(Push(t, Digit(n % 10, false)), n / 10, Down(count));
    }
  }

  lemma {:induction false} IntegralBounded(t: string, n: nat)
    requires |t| <= 32
    ensures |PushIntegral(t, n)| <= 32
    decreases n
  {
    if |t| < 32 && n / 10 != 0 {
      IntegralBounded(Push(t, Digit(n % 10, false)), n / 10);
    }
  }

  // Whatever the number, the buffer is never overrun.
  lemma UnsignedBounded(c: Components, precision: nat, adapt: bool, hash: bool)
    ensures |Unsigned("", c, precision, adapt, hash)| <= 32
  {
    if precision > 0 {
      var (fractional, count) :=
        if adapt && !hash && c.fractional > 0 then Trim(c.fractional, precision) else (c.fractional, precision);
      FractionBounded("", fractional, count);
    }
    IntegralBounded(PushFractionPart("", c, precision, adapt, hash), c.integral);
  }

  // The text is integral part, point and places if and only if they fit the buffer.
  lemma UnsignedText(c: Components, precision: nat, adapt: bool, hash: bool)
    requires c.fractional < Pow10(precision) && precision < LIMIT_32
    ensures Unsigned("", c, precision, adapt, hash) == Plain(c, precision, adapt, hash)
      <==> |Plain(c, precision, adapt, hash)| <= PRINTF_DECIMAL_BUFFER_SIZE
  {
    UnsignedBounded(c, precision, adapt, hash);
    if |Plain(c, precision, adapt, hash)| <= 32 {
      PlacesFacts(c, precision, adapt, hash);
      var (f, k) := Places(c, precision, adapt, hash);
      if k > 0 {
        FractionReads(f, k);
      }
      DecimalStep(c.integral, "");
      FractionPart(c, precision, adapt, hash);
      IntegralPushed(PushFractionPart("", c, precision, adapt, hash), c.integral);
    }
  }

  lemma FractionPart(c: Components, precision: nat, adapt: bool, hash: bool)
    requires c.fractional < Pow10(precision) && precision < LIMIT_32 && Places(c, precision, adapt, hash).1 <= 31
    ensures var (f, k) := Places(c, precision, adapt, hash);
      PushFractionPart("", c, precision, adapt, hash) ==
        if k > 0 then "." + FractionText(f, k) else if hash then "." else ""
  {
    PlacesFacts(c, precision, adapt, hash);
    var (f, k) := Places(c, precision, adapt, hash);
    if k > 0 {
      DecimalLength(f, k);
      FractionPushed("", f, k);
      assert Decimal(f) + "" == Decimal(f);
    }
  }

  // The digits that the text shows
  function Shown(c: Components, precision: nat, adapt: bool, hash: bool): string
  {
    var (f, k) := Places(c, precision, adapt, hash);
    Decimal(c.integral) + if k > 0 then FractionText(f, k) else ""
  }

  lemma ShownReads(c: Components, precision: nat, adapt: bool, hash: bool)
    requires c.fractional < Pow10(precision) && precision < LIMIT_32
    ensures var (f, k) := Places(c, precision, adapt, hash);
      T.ReadDigits(Shown(c, precision, adapt, hash), 10) == c.integral * Pow10(k) + f
  {
    PlacesFacts(c, precision, adapt, hash);
    DecimalReads(c.integral);
    var (f, k) := Places(c, precision, adapt, hash);
    if k > 0 {
      FractionReads(f, k);
      ReadConcat(Decimal(c.integral), FractionText(f, k));
    } else {
      assert Decimal(c.integral) + "" == Decimal(c.integral);
    }
  }

  // The digits of the text, read as one number, give integral * 10^precision + fractional,
  // up to the trailing zeros that %g leaves out.
  lemma DecimalReadsBack(c: Components, precision: nat, adapt: bool, hash: bool)
    requires c.fractional < Pow10(precision) && precision < LIMIT_32
    ensures |Plain(c, precision, adapt, hash)| <= PRINTF_DECIMAL_BUFFER_SIZE ==>
      Unsigned("", c, precision, adapt, hash) == Plain(c, precision, adapt, hash)
    ensures var (f, k) := Places(c, precision, adapt, hash);
      && k <= precision && (adapt && !hash && k > 0 ==> f % 10 != 0)
      && T.ReadDigits(Shown(c, precision, adapt, hash), 10) * Pow10(precision - k)
           == c.integral * Pow10(precision) + c.fractional
  {
    hide Unsigned, Plain, Places, Shown, T.ReadDigits;
    UnsignedText(c, precision, adapt, hash);
    PlacesFacts(c, precision, adapt, hash);
    ShownReads(c, precision, adapt, hash);
    var (f, k) := Places(c, precision, adapt, hash);
    PowAdd(10, k, precision - k);
    Scale(c.integral, Pow10(k), Pow10(precision - k), f);
  }

  lemma Scale(i: nat, p: nat, q: nat, f: nat)
    ensures (i * p + f) * q == i * (p * q) + f * q
  {
    Associate(i, p, q);
  }

  // As for integers: no more than 32 characters are needed, or a lost space is made up.
  predicate FitsBuffer(plain: string, negative: bool, width: nat, flags: Flags)
  {
    var sign := StandardSign(negative, flags);
    && (S.ZeroPadding(flags) ==> width <= PRINTF_DECIMAL_BUFFER_SIZE)
    && (|sign| + |plain| <= PRINTF_DECIMAL_BUFFER_SIZE ||
        (sign == " " && |plain| == PRINTF_DECIMAL_BUFFER_SIZE < width && !flags.left))
  }

  // Sign, digits and padding come as the standard asks for if and only if they fit.
  lemma FieldIsJustified(c: Components, precision: nat, width: nat, adapt: bool, flags: Flags)
    requires c.fractional < Pow10(precision) && precision < LIMIT_32
    ensures var plain := Plain(c, precision, adapt, flags.hash);
      DecimalField("", c, precision, width, adapt, flags) ==
        Justified(StandardSign(c.negative, flags), plain, width, flags.(precision := false))
      <==> FitsBuffer(plain, c.negative, width, flags)
  {
    hide Unsigned, Plain, Justified, Padding, Completed;
    var plain, text := Plain(c, precision, adapt, flags.hash), Unsigned("", c, precision, adapt, flags.hash);
    var sign := StandardSign(c.negative, flags);
    UnsignedText(c, precision, adapt, flags.hash);
    UnsignedBounded(c, precision, adapt, flags.hash);
    PlainHasNoSpace(c, precision, adapt, flags.hash);
    if FitsBuffer(plain, c.negative, width, flags) {
      if |sign| + |plain| <= 32 {
        SignJustified(plain, c.negative, width, flags);
      } else {
        SpaceMadeUp(plain, c.negative, width, flags);
      }
    } else if S.ZeroPadding(flags) {
      ZerosDiffer(text, plain, c.negative, width, flags);
    } else {
      TextDiffers(text, plain, c.negative, width, flags);
    }
  }

  lemma DecimalHasNoSpace(n: nat, k: nat)
    requires k < |Decimal(n)|
    ensures Decimal(n)[k] != ' '
  {
    if n > 0 {
      T.DigitsAreDigits(n, 10, false, k);
    }
  }

  lemma PlainHasNoSpace(c: Components, precision: nat, adapt: bool, hash: bool)
    requires c.fractional < Pow10(precision) && precision < LIMIT_32
    ensures var plain := Plain(c, precision, adapt, hash);
      plain != "" && plain[0] != ' ' && plain[|plain| - 1] != ' '
  {
    var plain, d := Plain(c, precision, adapt, hash), Decimal(c.integral);
    var (f, k) := Places(c, precision, adapt, hash);
    PlacesFacts(c, precision, adapt, hash);
    DecimalStep(c.integral, "");
    DecimalHasNoSpace(c.integral, 0);
    DecimalHasNoSpace(c.integral, |d| - 1);
    if k > 0 {
      DecimalLength(f, k);
      DecimalHasNoSpace(f, |Decimal(f)| - 1);
    }
  }

  lemma SignJustified(d: string, negative: bool, width: nat, flags: Flags)
    requires |StandardSign(negative, flags)| + |d| <= 32 && (S.ZeroPadding(flags) ==> width <= 32)
    ensures var w := InnerWidth(width, negative, flags);
      Padding(Completed(d, negative, w, flags), w, flags) ==
        Justified(StandardSign(negative, flags), d, width, flags.(precision := false))
  {
    var w, sign := InnerWidth(width, negative, flags), StandardSign(negative, flags);
    if S.ZeroPadding(flags) {
      assert Completed(d, negative, w, flags) == sign + Repeat('0', Short(|sign| + |d|, width)) + d;
    } else {
      S.SignPushed(d, negative, flags);
      var spaces := Repeat(' ', Short(|sign| + |d|, width));
      assert spaces + (sign + d) == spaces + sign + d;
    }
  }

  // The space that the full buffer does not take is one of the padding.
  lemma SpaceMadeUp(d: string, negative: bool, width: nat, flags: Flags)
    requires StandardSign(negative, flags) == " " && |d| == 32 < width && !flags.left && !flags.zeropad
    ensures var w := InnerWidth(width, negative, flags);
      Padding(Completed(d, negative, w, flags), w, flags) == Justified(" ", d, width, flags.(precision := false))
  {
    assert Completed(d, negative, width, flags) == d;
    assert Repeat(' ', width - 32) + d == Repeat(' ', width - 33) + " " + d;
  }

  lemma CompletedBounded(t: string, negative: bool, w: nat, flags: Flags)
    requires |t| <= 32
    ensures |Completed(t, negative, w, flags)| <= 32
  {
  }

  lemma ZerosDiffer(t: string, plain: string, negative: bool, width: nat, flags: Flags)
    requires |t| <= 32 && S.ZeroPadding(flags) && !FitsBuffer(plain, negative, width, flags)
    ensures var w := InnerWidth(width, negative, flags);
      Padding(Completed(t, negative, w, flags), w, flags) !=
        Justified(StandardSign(negative, flags), plain, width, flags.(precision := false))
  {
    CompletedBounded(t, negative, InnerWidth(width, negative, flags), flags);
  }

  lemma TextDiffers(t: string, plain: string, negative: bool, width: nat, flags: Flags)
    requires |t| <= 32 && !S.ZeroPadding(flags) && !FitsBuffer(plain, negative, width, flags)
    requires plain != "" && plain[0] != ' ' && plain[|plain| - 1] != ' '
    ensures var w := InnerWidth(width, negative, flags);
      Padding(Completed(t, negative, w, flags), w, flags) !=
        Justified(StandardSign(negative, flags), plain, width, flags.(precision := false))
  {
    hide Justified;
    var f, done := flags.(precision := false), Completed(t, negative, width, flags);
    CompletedBounded(t, negative, width, flags);
    assert Padding(done, width, flags) == Padding(done, width, f);
    S.PaddingDiffers(done, StandardSign(negative, flags), plain, width, f);
  }
}
