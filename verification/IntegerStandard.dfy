// The integer field of src/printf.c against section 7.19.6.1 of ISO/IEC 9899:1999:
// they agree exactly when the field fits the 32-byte buffer.
module IntegerStandard {
  import opened Bits
  import opened IntegerText
  import opened IntegerTheorems

  // How format_string_loop calls print_integer for the standard's specifiers: only
  // signed, decimal numbers have a sign, only the others an alternative form, and a
  // precision cancels the '0' flag.
  predicate AsCalled(value: nat, negative: bool, base: Base, precision: nat, flags: Flags)
  {
    && value < LIMIT_64 && base != 2 && !flags.pointer
    && (base == 10 ==> !flags.hash)
    && (base != 10 ==> StandardSign(negative, flags) == "")
    && (flags.precision ==> !flags.zeropad)
    && (!flags.precision ==> precision == 0)
  }

  predicate ZeroPadding(flags: Flags)
  {
    flags.zeropad && !flags.left
  }

  // Digits with the zeros that the precision asks for.
  function DigitCount(value: nat, base: Base, precision: nat, flags: Flags): nat
  {
    Max(|Numeral(value, base, flags.uppercase)|, if flags.precision then precision else 1)
  }

  // No more than 32 characters are needed; a lost space may be made up by padding.
  predicate FitsBuffer(value: nat, negative: bool, base: Base, precision: nat, width: nat, flags: Flags)
  {
    var count, prefix := DigitCount(value, base, precision, flags), Prefix(value, negative, base, flags);
    && (ZeroPadding(flags) ==> width <= PRINTF_INTEGER_BUFFER_SIZE)
    && (count + |prefix| <= PRINTF_INTEGER_BUFFER_SIZE ||
        (prefix == " " && count == PRINTF_INTEGER_BUFFER_SIZE < width && !flags.left))
  }

  // ------------------------------------------------------------ the parts

  lemma GeneratedFacts(value: nat, base: Base, precision: nat, flags: Flags)
    requires value < LIMIT_64 && base != 2 && (!flags.precision ==> precision == 0)
    ensures var d := Generated(value, base, flags);
      && (value > 0 ==> d == Numeral(value, base, flags.uppercase) && d != "" && d[0] != '0')
      && |d| <= 22 && (base == 16 ==> |d| <= 16) && (base == 10 ==> |d| <= 20)
      && DigitCount(value, base, precision, flags) == Max(|d|, precision)
  {
    WholeNumeral(value, base, flags);
    NumeralFits(value, base, flags.uppercase);
    if value > 0 {
      NoLeadingZero(value, base, flags.uppercase);
    }
  }

  predicate ExtraZero(value: nat, n: nat, base: Base, precision: nat, flags: Flags)
  {
    WithoutHash(value, base, flags).hash && base == 8 && precision <= n
  }

  // The body, as precision zeros before the generated digits.
  lemma BodyForm(value: nat, base: Base, precision: nat, flags: Flags)
    requires value < LIMIT_64 && base != 2 && (!flags.precision ==> precision == 0)
    ensures var d := Generated(value, base, flags);
      Body(value, base, precision, flags) ==
        (if ExtraZero(value, |d|, base, precision, flags) then "0" else "") + Repeat('0', Short(|d|, precision)) + d
  {
    var d, numeral := Generated(value, base, flags), Numeral(value, base, flags.uppercase);
    var digits := Repeat('0', Short(|d|, precision)) + d;
    assert digits == Repeat('0', Short(|numeral|, if flags.precision then precision else 1)) + numeral by {
      GeneratedFacts(value, base, precision, flags);
    }
    assert ExtraZero(value, |d|, base, precision, flags) <==> flags.hash && base == 8 && (digits == "" || digits[0] != '0') by {
      GeneratedFacts(value, base, precision, flags);
    }
    assert "0" + Repeat('0', Short(|d|, precision)) + d == "0" + digits;
    assert "" + Repeat('0', Short(|d|, precision)) + d == digits;
  }

  // Body and numerals are digits, not spaces.
  lemma BodyHasNoSpace(value: nat, base: Base, precision: nat, flags: Flags, i: nat)
    requires value < LIMIT_64 && base != 2 && (!flags.precision ==> precision == 0)
    requires i < |Body(value, base, precision, flags)|
    ensures Body(value, base, precision, flags)[i] != ' '
  {
    hide Body, Numeral, DigitCount, ExtraZero;
    BodyForm(value, base, precision, flags);
    GeneratedFacts(value, base, precision, flags);
    var d := Generated(value, base, flags);
    var z := |Body(value, base, precision, flags)| - |d|;
    if i >= z && value > 0 {
      DigitsAreDigits(value, base, flags.uppercase, i - z);
    }
  }

  // ------------------------------------------------------------ without zero padding

  function CodeText(value: nat, negative: bool, base: Base, precision: nat, width: nat, flags: Flags): string
  {
    Finished(Generated(value, base, flags), negative, base, precision, width, WithoutHash(value, base, flags))
  }

  lemma DirectPrefixed(value: nat, negative: bool, base: Base, precision: nat, width: nat, flags: Flags)
    requires AsCalled(value, negative, base, precision, flags) && !ZeroPadding(flags)
    ensures var d, f := Generated(value, base, flags), WithoutHash(value, base, flags);
      var r := Fill(d, precision);
      var f' := OctalHash(|d|, |r|, base, f);
      CodeText(value, negative, base, precision, width, flags) ==
        Signed(if f'.hash then Push(PushLetter(r, base, f'), '0') else r, negative, f')
  {
    var d, f := Generated(value, base, flags), WithoutHash(value, base, flags);
    var r := Fill(d, precision);
    assert Padded(d, precision, width, f) == r;
    if !flags.precision {
      assert r == d && TakeBack(r, |d|, base) == r;
    }
  }

  // Without an extra octal zero the body is the digits filled up to the precision.
  lemma BodyFilled(value: nat, base: Base, precision: nat, flags: Flags)
    requires value < LIMIT_64 && base != 2 && base != 8 && (!flags.precision ==> precision == 0)
    requires DigitCount(value, base, precision, flags) <= 32
    ensures Body(value, base, precision, flags) == Fill(Generated(value, base, flags), precision)
    ensures |Body(value, base, precision, flags)| == DigitCount(value, base, precision, flags)
  {
    GeneratedFacts(value, base, precision, flags);
    BodyForm(value, base, precision, flags);
  }

  lemma DirectDecimal(value: nat, negative: bool, base: Base, precision: nat, width: nat, flags: Flags)
    requires base == 10
    requires AsCalled(value, negative, base, precision, flags) && !ZeroPadding(flags)
    requires DigitCount(value, base, precision, flags) + |Prefix(value, negative, base, flags)| <= 32
    ensures CodeText(value, negative, base, precision, width, flags) ==
      Prefix(value, negative, base, flags) + Body(value, base, precision, flags)
  {
    hide Body, Generated, CodeText, DigitCount, Fill, Push, IntegerText.Signed;
    BodyFilled(value, base, precision, flags);
    var r := Body(value, base, precision, flags);
    assert CodeText(value, negative, base, precision, width, flags) == Signed(r, negative, flags) by {
      DirectPrefixed(value, negative, base, precision, width, flags);
      assert WithoutHash(value, base, flags) == flags;
    }
    assert Prefix(value, negative, base, flags) == StandardSign(negative, flags) by {
      assert StandardSign(negative, flags) + "" == StandardSign(negative, flags);
    }
    SignPushed(r, negative, flags);
  }

  lemma SignPushed(t: string, negative: bool, flags: Flags)
    requires |t| + |StandardSign(negative, flags)| <= 32
    ensures Signed(t, negative, flags) == StandardSign(negative, flags) + t
  {
    assert "" + t == t;
  }

  lemma DirectHexCode(value: nat, negative: bool, base: Base, precision: nat, width: nat, flags: Flags)
    requires base == 16
    requires AsCalled(value, negative, base, precision, flags) && !ZeroPadding(flags)
    requires DigitCount(value, base, precision, flags) <= 32
    ensures var r, f := Body(value, base, precision, flags), WithoutHash(value, base, flags);
      CodeText(value, negative, base, precision, width, flags) ==
        if f.hash then Push(PushLetter(r, base, f), '0') else r
  {
    BodyFilled(value, base, precision, flags);
    DirectPrefixed(value, negative, base, precision, width, flags);
  }

  lemma DirectHex(value: nat, negative: bool, base: Base, precision: nat, width: nat, flags: Flags)
    requires base == 16
    requires AsCalled(value, negative, base, precision, flags) && !ZeroPadding(flags)
    requires DigitCount(value, base, precision, flags) + |Prefix(value, negative, base, flags)| <= 32
    ensures CodeText(value, negative, base, precision, width, flags) ==
      Prefix(value, negative, base, flags) + Body(value, base, precision, flags)
  {
    DirectHexCode(value, negative, base, precision, width, flags);
    HexBody(value, negative, base, precision, flags);
  }

  lemma HexBody(value: nat, negative: bool, base: Base, precision: nat, flags: Flags)
    requires base == 16 && AsCalled(value, negative, base, precision, flags)
    requires DigitCount(value, base, precision, flags) + |Prefix(value, negative, base, flags)| <= 32
    ensures var r, f := Body(value, base, precision, flags), WithoutHash(value, base, flags);
      (if f.hash then Push(PushLetter(r, base, f), '0') else r) == Prefix(value, negative, base, flags) + r
  {
    hide Body, DigitCount, Push, PushLetter;
    BodyFilled(value, base, precision, flags);
    HexPrefix(value, negative, base, precision, flags);
    PushesHex(Body(value, base, precision, flags), base, WithoutHash(value, base, flags));
  }

  lemma HexPrefix(value: nat, negative: bool, base: Base, precision: nat, flags: Flags)
    requires base == 16 && AsCalled(value, negative, base, precision, flags)
    ensures Prefix(value, negative, base, flags) ==
      if WithoutHash(value, base, flags).hash then (if flags.uppercase then "0X" else "0x") else ""
    ensures WithoutHash(value, base, flags).uppercase == flags.uppercase
  {
    assert "" + "0X" == "0X" && "" + "0x" == "0x" && "" + "" == "";
  }

  lemma PushesHex(r: string, base: Base, flags: Flags)
    requires base == 16 && (flags.hash ==> |r| <= 30)
    ensures (if flags.hash then Push(PushLetter(r, base, flags), '0') else r) ==
      (if flags.hash then (if flags.uppercase then "0X" else "0x") else "") + r
  {
    var x := if flags.uppercase then 'X' else 'x';
    assert ['0'] + ([x] + r) == ['0', x] + r;
    assert "" + r == r;
  }

  lemma DirectOctal(value: nat, negative: bool, base: Base, precision: nat, width: nat, flags: Flags)
    requires base == 8
    requires AsCalled(value, negative, base, precision, flags) && !ZeroPadding(flags)
    requires DigitCount(value, base, precision, flags) + |Prefix(value, negative, base, flags)| <= 32
    ensures CodeText(value, negative, base, precision, width, flags) ==
      Prefix(value, negative, base, flags) + Body(value, base, precision, flags)
  {
    hide Body, Generated, CodeText, DigitCount, Numeral, Fill;
    GeneratedFacts(value, base, precision, flags);
    BodyForm(value, base, precision, flags);
    DirectPrefixed(value, negative, base, precision, width, flags);
    var d := Generated(value, base, flags);
    FillIs(d, precision);
    OctalPushed(value, negative, d, base, precision, flags);
    assert Prefix(value, negative, base, flags) == "" by {
      assert "" + "" == "";
    }
    var body := Body(value, base, precision, flags);
    assert "" + body == body;
  }

  lemma FillIs(d: string, n: nat)
    requires Max(|d|, n) <= 32
    ensures Fill(d, n) == Repeat('0', Short(|d|, n)) + d && |Fill(d, n)| == Max(|d|, n)
  {
  }

  // The alternative form of an octal number, unless the precision gives it a zero
  lemma OctalPushed(value: nat, negative: bool, d: string, base: Base, precision: nat, flags: Flags)
    requires base == 8 && StandardSign(negative, flags) == "" && |d| <= 22 && precision <= 32
    ensures var f, r := WithoutHash(value, base, flags), Repeat('0', Short(|d|, precision)) + d;
      var f' := OctalHash(|d|, |r|, base, f);
      Signed(if f'.hash then Push(PushLetter(r, base, f'), '0') else r, negative, f') ==
        (if ExtraZero(value, |d|, base, precision, flags) then "0" else "") + Repeat('0', Short(|d|, precision)) + d
  {
    hide Push;
    var f, r := WithoutHash(value, base, flags), Repeat('0', Short(|d|, precision)) + d;
    var f', extra := OctalHash(|d|, |r|, base, f), ExtraZero(value, |d|, base, precision, flags);
    assert f'.hash == extra && StandardSign(negative, f') == "";
    OctalText(d, precision, extra);
  }

  lemma OctalText(d: string, precision: nat, extra: bool)
    requires |d| <= 22 && (extra ==> precision <= |d|)
    ensures var r := Repeat('0', Short(|d|, precision)) + d;
      (if extra then Push(r, '0') else r) == (if extra then "0" else "") + Repeat('0', Short(|d|, precision)) + d
  {
    var zeros := Repeat('0', Short(|d|, precision));
    assert "" + zeros + d == zeros + d && "0" + zeros + d == ['0'] + (zeros + d);
  }

  lemma DirectText(value: nat, negative: bool, base: Base, precision: nat, width: nat, flags: Flags)
    requires AsCalled(value, negative, base, precision, flags) && !ZeroPadding(flags)
    requires DigitCount(value, base, precision, flags) + |Prefix(value, negative, base, flags)| <= 32
    ensures CodeText(value, negative, base, precision, width, flags) ==
      Prefix(value, negative, base, flags) + Body(value, base, precision, flags)
  {
    if base == 10 {
      DirectDecimal(value, negative, base, precision, width, flags);
    } else if base == 16 {
      DirectHex(value, negative, base, precision, width, flags);
    } else {
      DirectOctal(value, negative, base, precision, width, flags);
    }
  }

  lemma DirectExact(value: nat, negative: bool, base: Base, precision: nat, width: nat, flags: Flags)
    requires AsCalled(value, negative, base, precision, flags) && !ZeroPadding(flags)
    requires FitsBuffer(value, negative, base, precision, width, flags)
    ensures IntegerField(value, negative, base, precision, width, flags) ==
      StandardField(value, negative, base, precision, width, flags)
  {
    var prefix, body := Prefix(value, negative, base, flags), Body(value, base, precision, flags);
    if DigitCount(value, base, precision, flags) + |prefix| <= 32 {
      DirectText(value, negative, base, precision, width, flags);
      JustifiedIsPadding(prefix, body, width, flags);
    } else {
      SpaceMadeUp(value, negative, base, precision, width, flags);
    }
  }

  lemma JustifiedIsPadding(prefix: string, body: string, width: nat, flags: Flags)
    requires !ZeroPadding(flags)
    ensures Padding(prefix + body, width, flags) == Justified(prefix, body, width, flags)
  {
    var spaces := Repeat(' ', Short(|prefix| + |body|, width));
    assert spaces + (prefix + body) == spaces + prefix + body;
  }

  lemma SpaceMadeUp(value: nat, negative: bool, base: Base, precision: nat, width: nat, flags: Flags)
    requires AsCalled(value, negative, base, precision, flags) && !ZeroPadding(flags) && !flags.left
    requires Prefix(value, negative, base, flags) == " " && DigitCount(value, base, precision, flags) == 32 < width
    ensures IntegerField(value, negative, base, precision, width, flags) ==
      StandardField(value, negative, base, precision, width, flags)
  {
    assert base == 10 && WithoutHash(value, base, flags) == flags;
    BodyFilled(value, base, precision, flags);
    var body := Body(value, base, precision, flags);
    assert CodeText(value, negative, base, precision, width, flags) == body by {
      DirectPrefixed(value, negative, base, precision, width, flags);
    }
    SpaceIsPadding(body, width);
  }

  lemma SpaceIsPadding(body: string, width: nat)
    requires |body| == 32 < width
    ensures Repeat(' ', width - 32) + body == Repeat(' ', width - 33) + " " + body
  {
  }

  lemma PrefixedFits(t: string, n: nat, base: Base, precision: nat, width: nat, flags: Flags)
    requires |t| <= 32
    ensures |Prefixed(t, n, base, precision, width, flags)| <= 32
  {
  }

  lemma FinishedFits(d: string, negative: bool, base: Base, precision: nat, width: nat, flags: Flags)
    requires |d| <= 32
    ensures |Finished(d, negative, base, precision, width, flags)| <= 32
  {
    var w := InnerWidth(width, negative, flags);
    var padded := Padded(d, precision, w, flags);
    PrefixedFits(padded, |d|, base, precision, w, OctalHash(|d|, |padded|, base, flags));
  }

  lemma CodeTextFits(value: nat, negative: bool, base: Base, precision: nat, width: nat, flags: Flags)
    requires value < LIMIT_64 && base != 2
    ensures |CodeText(value, negative, base, precision, width, flags)| <= 32
  {
    WholeNumeral(value, base, flags);
    FinishedFits(Generated(value, base, flags), negative, base, precision, width, WithoutHash(value, base, flags));
  }

  // Too long for the buffer, the field differs from the standard's.
  lemma DirectDiffers(value: nat, negative: bool, base: Base, precision: nat, width: nat, flags: Flags)
    requires AsCalled(value, negative, base, precision, flags) && !ZeroPadding(flags)
    requires !FitsBuffer(value, negative, base, precision, width, flags)
    ensures IntegerField(value, negative, base, precision, width, flags) !=
      StandardField(value, negative, base, precision, width, flags)
  {
    hide StandardField, Justified, Padding, Prefix, Body, Generated, Finished, DigitCount;
    var t := CodeText(value, negative, base, precision, width, flags);
    var prefix, body := Prefix(value, negative, base, flags), Body(value, base, precision, flags);
    CodeTextFits(value, negative, base, precision, width, flags);
    FieldParts(value, negative, base, precision, width, flags);
    BodyLength(value, base, precision, flags);
    PrefixStart(value, negative, base, flags);
    BodyHasNoSpace(value, base, precision, flags, 0);
    BodyHasNoSpace(value, base, precision, flags, |body| - 1);
    PaddingDiffers(t, prefix, body, width, flags);
  }

  lemma FieldParts(value: nat, negative: bool, base: Base, precision: nat, width: nat, flags: Flags)
    requires !ZeroPadding(flags)
    ensures IntegerField(value, negative, base, precision, width, flags) ==
      Padding(CodeText(value, negative, base, precision, width, flags), width, flags)
    ensures StandardField(value, negative, base, precision, width, flags) ==
      Justified(Prefix(value, negative, base, flags), Body(value, base, precision, flags), width, flags)
  {
  }

  lemma BodyLength(value: nat, base: Base, precision: nat, flags: Flags)
    requires value < LIMIT_64 && base != 2 && (!flags.precision ==> precision == 0)
    ensures var body, count := Body(value, base, precision, flags), DigitCount(value, base, precision, flags);
      && (count > 22 ==> |body| == count) && |body| <= Max(count, 23) && (base == 10 && !flags.hash ==> |body| == count)
  {
    GeneratedFacts(value, base, precision, flags);
    BodyForm(value, base, precision, flags);
  }

  lemma PrefixStart(value: nat, negative: bool, base: Base, flags: Flags)
    requires base != 10 ==> StandardSign(negative, flags) == ""
    requires base == 10 ==> !flags.hash
    ensures var prefix := Prefix(value, negative, base, flags);
      |prefix| <= 2 && (prefix == "" || prefix[0] != ' ' || prefix == " ")
  {
    assert StandardSign(negative, flags) + "" == StandardSign(negative, flags);
  }

  // A text within the buffer is not a longer text with its padding.
  lemma PaddingDiffers(t: string, prefix: string, body: string, width: nat, flags: Flags)
    requires !ZeroPadding(flags) && |t| <= 32 < |prefix| + |body|
    requires body != "" && body[0] != ' ' && body[|body| - 1] != ' '
    requires prefix == "" || prefix[0] != ' ' || prefix == " "
    requires prefix == " " && |body| == 32 < width ==> flags.left
    ensures Padding(t, width, flags) != Justified(prefix, body, width, flags)
  {
    var code, standard := Padding(t, width, flags), Justified(prefix, body, width, flags);
    var length := |prefix| + |body|;
    if width >= length {
      if flags.left {
        assert standard[length - 1] == body[|body| - 1] && code[length - 1] == ' ';
      } else {
        SpacesWhereText(t, prefix, body, width, flags);
      }
    }
  }

  // The standard's text begins where the shorter text is still padded.
  lemma SpacesWhereText(t: string, prefix: string, body: string, width: nat, flags: Flags)
    requires !flags.left && !flags.zeropad && |t| <= 32 < |prefix| + |body| <= width && body != "" && body[0] != ' '
    requires prefix == " " ==> |body| > 32
    requires prefix == "" || prefix[0] != ' ' || prefix == " "
    ensures Padding(t, width, flags) != Justified(prefix, body, width, flags)
  {
    var i := width - |prefix| - |body|;
    var code, standard := Padding(t, width, flags), Justified(prefix, body, width, flags);
    assert code[i] == ' ';
    if prefix == "" {
      assert standard[i] == body[0];
    } else if prefix[0] != ' ' {
      assert standard[i] == prefix[0];
    } else {
      assert standard[i + 1] == body[0] && code[i + 1] == ' ';
    }
  }

  // ------------------------------------------------------------ with zero padding

  lemma ZeroDiffers(value: nat, negative: bool, base: Base, precision: nat, width: nat, flags: Flags)
    requires AsCalled(value, negative, base, precision, flags) && ZeroPadding(flags) && width > 32
    ensures IntegerField(value, negative, base, precision, width, flags) !=
      StandardField(value, negative, base, precision, width, flags)
  {
    CodeTextFits(value, negative, base, precision, width, flags);
  }

  // With zero padding, print_integer emits its buffer as it is.
  lemma ZeroField(value: nat, negative: bool, base: Base, precision: nat, width: nat, flags: Flags)
    requires AsCalled(value, negative, base, precision, flags) && ZeroPadding(flags)
    ensures precision == 0 && !flags.precision
    ensures var d, f, w := Generated(value, base, flags), WithoutHash(value, base, flags), InnerWidth(width, negative, flags);
      var r := Fill(d, w);
      var f' := OctalHash(|d|, |r|, base, f);
      IntegerField(value, negative, base, precision, width, flags) ==
        Signed(Prefixed(r, |d|, base, precision, w, f'), negative, f')
  {
    hide Generated, Prefixed, IntegerText.Signed, Fill;
    var d, f, w := Generated(value, base, flags), WithoutHash(value, base, flags), InnerWidth(width, negative, flags);
    assert Padded(d, precision, w, f) == Fill(d, w) by {
      NothingMore(d, w, precision);
    }
  }

  lemma NothingMore(d: string, w: nat, precision: nat)
    requires precision == 0
    ensures Fill(Fill(d, w), precision) == Fill(d, w)
  {
  }

  lemma ZeroDecimal(value: nat, negative: bool, base: Base, precision: nat, width: nat, flags: Flags)
    requires base == 10 && AsCalled(value, negative, base, precision, flags) && ZeroPadding(flags) && width <= 32
    ensures IntegerField(value, negative, base, precision, width, flags) ==
      StandardField(value, negative, base, precision, width, flags)
  {
    GeneratedFacts(value, base, precision, flags);
    ZeroField(value, negative, base, precision, width, flags);
    BodyFilled(value, base, precision, flags);
    SignThenZeros(Generated(value, base, flags), negative, width, flags);
    assert WithoutHash(value, base, flags) == flags;
    assert Prefix(value, negative, base, flags) == StandardSign(negative, flags);
    assert Body(value, base, precision, flags) == Generated(value, base, flags);
  }

  lemma SignThenZeros(d: string, negative: bool, width: nat, flags: Flags)
    requires ZeroPadding(flags) && !flags.precision && |d| <= 20 && width <= 32
    ensures Signed(Fill(d, InnerWidth(width, negative, flags)), negative, flags) ==
      Justified(StandardSign(negative, flags), d, width, flags)
  {
  }

  lemma ZeroOctalCode(value: nat, negative: bool, base: Base, precision: nat, width: nat, flags: Flags)
    requires base == 8 && AsCalled(value, negative, base, precision, flags) && ZeroPadding(flags) && width <= 32
    ensures var d := Generated(value, base, flags);
      IntegerField(value, negative, base, precision, width, flags) ==
        if ExtraZero(value, |d|, base, precision, flags) && width <= |d| then "0" + d else Fill(d, width)
  {
    hide Generated, IntegerField, DigitCount, Fill, Prefixed;
    GeneratedFacts(value, base, precision, flags);
    ZeroField(value, negative, base, precision, width, flags);
    var d, f := Generated(value, base, flags), WithoutHash(value, base, flags);
    assert InnerWidth(width, negative, flags) == width;
    FillIs(d, width);
    if width <= |d| {
      assert Fill(d, width) == d;
      OctalUnpadded(d, precision, width, f);
    } else {
      OctalPadded(Fill(d, width), |d|, precision, width, f);
    }
  }

  lemma OctalUnpadded(d: string, precision: nat, width: nat, flags: Flags)
    requires |d| <= 22
    ensures Prefixed(d, |d|, 8, precision, width, OctalHash(|d|, |d|, 8, flags)) ==
      if flags.hash || flags.pointer then "0" + d else d
  {
  }

  lemma OctalPadded(r: string, n: nat, precision: nat, width: nat, flags: Flags)
    requires n < |r| && !flags.pointer
    ensures Prefixed(r, n, 8, precision, width, OctalHash(n, |r|, 8, flags)) == r
  {
  }

  lemma ZeroOctal(value: nat, negative: bool, base: Base, precision: nat, width: nat, flags: Flags)
    requires base == 8 && AsCalled(value, negative, base, precision, flags) && ZeroPadding(flags) && width <= 32
    ensures IntegerField(value, negative, base, precision, width, flags) ==
      StandardField(value, negative, base, precision, width, flags)
  {
    hide Generated, Body, IntegerField, Justified, ExtraZero, Fill, Numeral, DigitCount;
    GeneratedFacts(value, base, precision, flags);
    BodyForm(value, base, precision, flags);
    ZeroOctalCode(value, negative, base, precision, width, flags);
    var d := Generated(value, base, flags);
    var extra := if ExtraZero(value, |d|, base, precision, flags) then "0" else "";
    assert Prefix(value, negative, base, flags) == "";
    assert Body(value, base, precision, flags) == extra + d;
    OctalZeros(d, ExtraZero(value, |d|, base, precision, flags), width, flags);
  }

  // Padding zeros stand for the alternative form's zero.
  lemma OctalZeros(d: string, extra: bool, width: nat, flags: Flags)
    requires ZeroPadding(flags) && !flags.precision && |d| <= 22 && width <= 32
    ensures Justified("", (if extra then "0" else "") + d, width, flags) ==
      if extra && width <= |d| then "0" + d else Fill(d, width)
  {
    var body := (if extra then "0" else "") + d;
    assert "" + Repeat('0', Short(|body|, width)) + body == Repeat('0', Short(|body|, width)) + body;
  }

  lemma ZeroHex(value: nat, negative: bool, base: Base, precision: nat, width: nat, flags: Flags)
    requires base == 16 && AsCalled(value, negative, base, precision, flags) && ZeroPadding(flags) && width <= 32
    ensures IntegerField(value, negative, base, precision, width, flags) ==
      StandardField(value, negative, base, precision, width, flags)
  {
    GeneratedFacts(value, base, precision, flags);
    var d, f := Generated(value, base, flags), WithoutHash(value, base, flags);
    assert Body(value, base, precision, flags) == d by {
      BodyFilled(value, base, precision, flags);
    }
    assert IntegerField(value, negative, base, precision, width, flags) ==
      Prefixed(Fill(d, width), |d|, base, precision, width, f) by {
      ZeroField(value, negative, base, precision, width, flags);
      assert InnerWidth(width, negative, flags) == width && OctalHash(|d|, |Fill(d, width)|, base, f) == f;
    }
    var prefix := Prefix(value, negative, base, flags);
    assert StandardField(value, negative, base, precision, width, flags) == Justified(prefix, d, width, flags);
    if f.hash {
      assert prefix == if flags.uppercase then "0X" else "0x";
      HexPrefixed(d, Fill(d, width), precision, width, f);
    } else {
      assert prefix == "";
      NoPrefix(d, width, flags);
    }
  }

  lemma NoPrefix(d: string, width: nat, flags: Flags)
    requires ZeroPadding(flags) && !flags.precision && |d| <= 22 && width <= 32
    ensures Justified("", d, width, flags) == Fill(d, width)
  {
    assert "" + Repeat('0', Short(|d|, width)) + d == Repeat('0', Short(|d|, width)) + d;
  }

  // Two padding zeros, if there are as many, make room for the prefix.
  lemma HexPrefixed(d: string, r: string, precision: nat, width: nat, flags: Flags)
    requires (flags.hash || flags.pointer) && ZeroPadding(flags) && !flags.precision && precision == 0
    requires 0 < |d| <= 16 && width <= 32
    requires r == Repeat('0', Short(|d|, width)) + d
    ensures Prefixed(r, |d|, 16, precision, width, flags) ==
      Justified(if flags.uppercase then "0X" else "0x", d, width, flags)
  {
    hide TakeBack, Repeat, Push, PushLetter;
    var x := if flags.uppercase then 'X' else 'x';
    var zeros := Repeat('0', Short(2 + |d|, width));
    var a := if |r| == width then TakeBack(r, |d|, 16) else r;
    assert a == zeros + d by {
      ZerosTakenBack(d, r, width);
    }
    HexPushed(a, flags);
    assert ['0', x] + a == ['0', x] + zeros + d;
  }

  lemma HexPushed(a: string, flags: Flags)
    requires |a| <= 30
    ensures Push(PushLetter(a, 16, flags), '0') == (if flags.uppercase then "0X" else "0x") + a
  {
    var x := if flags.uppercase then 'X' else 'x';
    assert ['0'] + ([x] + a) == ['0', x] + a;
  }

  lemma ZerosTakenBack(d: string, r: string, width: nat)
    requires 0 < |d| <= 16 && r == Repeat('0', Short(|d|, width)) + d
    ensures (if |r| == width then TakeBack(r, |d|, 16) else r) == Repeat('0', Short(2 + |d|, width)) + d
  {
  }

  // ------------------------------------------------------------ the theorem

  // The field is the standard's text if, and only if, it fits the buffer.
  lemma FieldIsStandard(value: nat, negative: bool, base: Base, precision: nat, width: nat, flags: Flags)
    requires AsCalled(value, negative, base, precision, flags)
    ensures IntegerField(value, negative, base, precision, width, flags) ==
        StandardField(value, negative, base, precision, width, flags)
      <==> FitsBuffer(value, negative, base, precision, width, flags)
  {
    if !ZeroPadding(flags) {
      if FitsBuffer(value, negative, base, precision, width, flags) {
        DirectExact(value, negative, base, precision, width, flags);
      } else {
        DirectDiffers(value, negative, base, precision, width, flags);
      }
    } else if width > 32 {
      ZeroDiffers(value, negative, base, precision, width, flags);
    } else {
      NumeralFits(value, base, flags.uppercase);
      if base == 10 {
        ZeroDecimal(value, negative, base, precision, width, flags);
      } else if base == 8 {
        ZeroOctal(value, negative, base, precision, width, flags);
      } else {
        ZeroHex(value, negative, base, precision, width, flags);
      }
    }
  }

  // Precisions up to 30, and widths up to 32 under '0', are always right.
  lemma SmallFieldsAreStandard(value: nat, negative: bool, base: Base, precision: nat, width: nat, flags: Flags)
    requires AsCalled(value, negative, base, precision, flags)
    requires precision <= 30 && (ZeroPadding(flags) ==> width <= 32)
    ensures IntegerField(value, negative, base, precision, width, flags) ==
      StandardField(value, negative, base, precision, width, flags)
  {
    NumeralFits(value, base, flags.uppercase);
    FieldIsStandard(value, negative, base, precision, width, flags);
  }

  // ------------------------------------------------------------ pointers

  const POINTER_WIDTH: nat := 18

  const POINTER_FLAGS: Flags := NO_FLAGS.(zeropad := true, pointer := true)

  lemma PointerCode(value: nat)
    requires 0 < value < LIMIT_64
    ensures var d := Generated(value, 16, POINTER_FLAGS);
      IntegerField(value, false, 16, 0, POINTER_WIDTH, POINTER_FLAGS) ==
        Prefixed(Fill(d, POINTER_WIDTH), |d|, 16, 0, POINTER_WIDTH, POINTER_FLAGS)
  {
    var d := Generated(value, 16, POINTER_FLAGS);
    assert Padded(d, 0, POINTER_WIDTH, POINTER_FLAGS) == Fill(d, POINTER_WIDTH);
  }

  // %p of a pointer that is not null: 0x and 16 digits, which read back to it.
  lemma PointerText(value: nat)
    requires 0 < value < LIMIT_64
    ensures var digits := Numeral(value, 16, false);
      && 0 < |digits| <= 16
      && IntegerField(value, false, 16, 0, POINTER_WIDTH, POINTER_FLAGS) == "0x" + Repeat('0', 16 - |digits|) + digits
      && ReadDigits(Repeat('0', 16 - |digits|) + digits, 16) == value
  {
    hide Generated, IntegerField, Prefixed, Numeral, Fill, DigitCount, ReadDigits;
    GeneratedFacts(value, 16, 0, POINTER_FLAGS);
    PointerCode(value);
    FillIs(Generated(value, 16, POINTER_FLAGS), POINTER_WIDTH);
    var d := Numeral(value, 16, false);
    HexPrefixed(d, Fill(d, POINTER_WIDTH), 0, POINTER_WIDTH, POINTER_FLAGS);
    NumeralReadsBack(value, 16, false);
    LeadingZeros(16 - |d|, d, 16);
  }

  lemma {:induction false} LeadingZeros(n: nat, d: string, base: nat)
    ensures ReadDigits(Repeat('0', n) + d, base) == ReadDigits(d, base)
    decreases |d| + n
  {
    var s := Repeat('0', n) + d;
    if d != "" {
      assert s[..|s| - 1] == Repeat('0', n) + d[..|d| - 1];
      LeadingZeros(n, d[..|d| - 1], base);
    } else if n > 0 {
      assert s[..|s| - 1] == Repeat('0', n - 1) + "";
      LeadingZeros(n - 1, d, base);
    }
  }
}
