// What the directives of the formatter print, against the standard's fields as read off
// their text.
module StandardDirective {
  import opened Bits
  import opened IntegerText
  import T = IntegerTheorems
  import opened IntegerStandard
  import opened FormatText
  import opened FormatGrammar
  import opened FormatItems
  import opened FormatStandard
  import opened StandardText

  // ------------------------------------------------------------ reading the text

  // The flags that say what the argument is
  predicate SameRest(a: Flags, b: Flags)
  {
    && a.charArg == b.charArg && a.shortArg == b.shortArg && a.longArg == b.longArg && a.longLongArg == b.longLongArg
    && a.precision == b.precision && a.pointer == b.pointer && a.uppercase == b.uppercase
  }

  predicate Marked(r: Flags, left: bool, plus: bool, space: bool, hash: bool, zeropad: bool)
  {
    r.left == left && r.plus == plus && r.space == space && r.hash == hash && r.zeropad == zeropad
  }

  lemma MinusFlag(flags: Flags)
    ensures Marked(SetFlag('-', flags), true, flags.plus, flags.space, flags.hash, flags.zeropad)
    ensures SameRest(SetFlag('-', flags), flags)
  {
  }

  lemma PlusFlag(flags: Flags)
    ensures Marked(SetFlag('+', flags), flags.left, true, flags.space, flags.hash, flags.zeropad)
    ensures SameRest(SetFlag('+', flags), flags)
  {
  }

  lemma SpaceFlag(flags: Flags)
    ensures Marked(SetFlag(' ', flags), flags.left, flags.plus, true, flags.hash, flags.zeropad)
    ensures SameRest(SetFlag(' ', flags), flags)
  {
  }

  lemma HashFlag(flags: Flags)
    ensures Marked(SetFlag('#', flags), flags.left, flags.plus, flags.space, true, flags.zeropad)
    ensures SameRest(SetFlag('#', flags), flags)
  {
  }

  lemma ZeroFlag(flags: Flags)
    ensures Marked(SetFlag('0', flags), flags.left, flags.plus, flags.space, flags.hash, true)
    ensures SameRest(SetFlag('0', flags), flags)
  {
  }

  lemma OneFlag(c: char, flags: Flags)
    requires IsFlag(c)
    ensures Marked(SetFlag(c, flags), flags.left || c == '-', flags.plus || c == '+', flags.space || c == ' ',
                   flags.hash || c == '#', flags.zeropad || c == '0')
    ensures SameRest(SetFlag(c, flags), flags)
  {
    hide SetFlag, Marked, SameRest;
    if c == '-' { MinusFlag(flags); }
    if c == '+' { PlusFlag(flags); }
    if c == ' ' { SpaceFlag(flags); }
    if c == '#' { HashFlag(flags); }
    if c == '0' { ZeroFlag(flags); }
  }

  // The flags are those whose characters occur.
  lemma {:induction false} FlagsSet(s: string, flags: Flags)
    requires AllFlags(s)
    ensures Marked(FlagsOf(s, flags), flags.left || '-' in s, flags.plus || '+' in s, flags.space || ' ' in s,
                   flags.hash || '#' in s, flags.zeropad || '0' in s)
    ensures SameRest(FlagsOf(s, flags), flags)
    decreases |s|
  {
    hide SetFlag;
    if s != "" {
      assert s == [s[0]] + s[1..];
      OneFlag(s[0], flags);
      FlagsSet(s[1..], SetFlag(s[0], flags));
    }
  }

  lemma {:induction false} ValueOfIsRead(x: string)
    requires OnlyDigits(x)
    ensures T.ReadDigits(x, 10) == ValueOf(x)
    decreases |x|
  {
    if x != "" {
      ValueOfIsRead(x[..|x| - 1]);
    }
  }

  lemma NumberIsValue(x: string)
    requires AllDigits(x)
    ensures OnlyDigits(x) && NumberOf(x, 0) == ValueOf(x) % LIMIT_32
  {
    ValueOfIsRead(x);
    NumberIsModulo(x);
  }

  lemma StarRead(args: seq<Arg>, i: nat)
    requires i < |args| && args[i].IntArg?
    ensures ToSigned(args[i].value, LIMIT_32) == StarValue(args, i)
  {
  }

  // The flags of a directive, and the size of its argument
  predicate Reads(r: Flags, flags: Flags, limit: nat)
  {
    && Marked(r, flags.left, flags.plus, flags.space, flags.hash, flags.zeropad)
    && r.precision == flags.precision && r.pointer == flags.pointer && r.uppercase == flags.uppercase
    && ArgLimit(r) == limit
  }

  // No length modifier yet
  predicate Unsized(flags: Flags)
  {
    !flags.longArg && !flags.longLongArg && !flags.shortArg && !flags.charArg
  }

  lemma ShortSet(flags: Flags)
    requires Unsized(flags)
    ensures Reads(LengthFlags("h", flags), flags, TypeSize("h"))
  {
  }

  lemma CharSet(flags: Flags)
    requires Unsized(flags)
    ensures Reads(LengthFlags("hh", flags), flags, TypeSize("hh"))
  {
  }

  lemma LongLongSet(flags: Flags)
    ensures Reads(LengthFlags("ll", flags), flags, TypeSize("ll"))
  {
    assert "ll"[0] == 'l' && |"ll"| == 2;
    var r := LengthFlags("ll", flags);
    assert r.longLongArg;
  }

  lemma LongSet(s: string, flags: Flags)
    requires s == "l" || s == "t" || s == "j" || s == "z"
    ensures Reads(LengthFlags(s, flags), flags, TypeSize(s))
  {
    assert LengthFlags(s, flags) == flags.(longArg := true);
  }

  lemma LengthSet(s: string, c: char, flags: Flags)
    requires LengthStands(s, c) && Unsized(flags)
    ensures Reads(LengthFlags(s, flags), flags, TypeSize(s))
  {
    if s == "h" {
      ShortSet(flags);
    } else if s == "hh" {
      CharSet(flags);
    } else if s == "ll" {
      LongLongSet(flags);
    } else if s != "" {
      LongSet(s, flags);
    }
  }

  // What the loop has collected is what the text says; numbers are taken modulo 2^32, and
  // a negative precision as zero.
  predicate Agrees(c: Cursor, item: Item, m: Marks)
    requires item.Conversion? && c.Cursor?
  {
    && Marked(c.flags, m.left, m.plus, m.space, m.alt, m.zero)
    && (c.flags.precision <==> !item.precision.NoPrecision?) && !c.flags.pointer && !c.flags.uppercase
    && c.width == m.width % LIMIT_32 && c.precision == (if m.precision < 0 then 0 else m.precision % LIMIT_32)
    && ArgLimit(c.flags) == TypeSize(item.length)
  }

  lemma WidthTaken(item: Item, args: seq<Arg>)
    requires item.Conversion? && WellFormed(item) && HasStars(item, args)
    ensures var c, m := TakeWidth(item.width, Cursor(0, args, FlagsOf(item.flags, NO_FLAGS), 0, 0)), MarksOf(item, args);
      && c.Cursor? && Marked(c.flags, m.left, m.plus, m.space, m.alt, m.zero) && SameRest(c.flags, NO_FLAGS)
      && c.width == m.width % LIMIT_32 && c.precision == 0 && c.args == args[if item.width.StarWidth? then 1 else 0..]
  {
    hide FlagsOf, NumberOf, ValueOf, Wrapped;
    FlagsSet(item.flags, NO_FLAGS);
    if item.width.Columns? {
      NumberIsValue(item.width.digits);
    } else if item.width.StarWidth? {
      StarRead(args, 0);
      LeftSet(FlagsOf(item.flags, NO_FLAGS));
    }
  }

  lemma LeftSet(flags: Flags)
    ensures var r := flags.(left := true);
      Marked(r, true, flags.plus, flags.space, flags.hash, flags.zeropad) && SameRest(r, flags)
  {
  }

  // Reading a precision, or not
  predicate KeepsMarks(r: Flags, flags: Flags, precision: bool)
  {
    && Marked(r, flags.left, flags.plus, flags.space, flags.hash, flags.zeropad) && Unsized(r) == Unsized(flags)
    && r.precision == precision && r.pointer == flags.pointer && r.uppercase == flags.uppercase
  }

  lemma PrecisionSet(flags: Flags)
    ensures KeepsMarks(flags, flags, flags.precision) && KeepsMarks(flags.(precision := true), flags, true)
  {
  }

  lemma PrecisionTaken(item: Item, args: seq<Arg>, c: Cursor)
    requires item.Conversion? && WellFormed(item) && HasStars(item, args) && c.Cursor? && !c.flags.precision
    requires c.precision == 0 && c.args == args[if item.width.StarWidth? then 1 else 0..]
    ensures var d, p := TakePrecision(item.precision, c), MarksOf(item, args).precision;
      && d.Cursor? && d.args == args[Stars(item)..] && d.width == c.width
      && d.precision == (if p < 0 then 0 else p % LIMIT_32)
      && KeepsMarks(d.flags, c.flags, !item.precision.NoPrecision?)
  {
    hide NumberOf, ValueOf, Wrapped, KeepsMarks;
    PrecisionSet(c.flags);
    if item.precision.Digits? {
      NumberIsValue(item.precision.digits);
    } else if item.precision.StarPrecision? {
      StarRead(args, if item.width.StarWidth? then 1 else 0);
    }
  }

  lemma TextCollected(item: Item, args: seq<Arg>)
    requires item.Conversion? && WellFormed(item) && HasStars(item, args)
    ensures var c := Collected(item, args);
      c.Cursor? && Agrees(c, item, MarksOf(item, args)) && c.args == args[Stars(item)..]
  {
    hide FlagsOf, LengthFlags, TakeWidth, TakePrecision, MarksOf, ArgLimit, HasStars;
    WidthTaken(item, args);
    var c := TakeWidth(item.width, Cursor(0, args, FlagsOf(item.flags, NO_FLAGS), 0, 0));
    PrecisionTaken(item, args, c);
    LengthSet(item.length, item.spec, TakePrecision(item.precision, c).flags);
  }

  // ------------------------------------------------------------ the parts of a field

  lemma LetterIsDigit(spec: char, d: nat)
    requires IsIntegerSpecifier(spec) && d < BaseOf(spec)
    ensures |Letters(spec)| == BaseOf(spec) && Digit(d, spec == 'X') == Letters(spec)[d]
  {
  }

  lemma {:induction false} NumeralIsSpelled(v: nat, spec: char)
    requires IsIntegerSpecifier(spec)
    ensures Numeral(v, BaseOf(spec), spec == 'X') == Spelled(v, Letters(spec))
    decreases v
  {
    hide Letters, Digit;
    LetterIsDigit(spec, 0);
    if v > 0 {
      var base := BaseOf(spec);
      DivNonNegative(v, base);
      LetterIsDigit(spec, v % base);
      NumeralIsSpelled(v / base, spec);
    }
  }

  // Flags as the text gives them, for the field
  predicate Shows(flags: Flags, m: Marks)
  {
    Marked(flags, m.left, m.plus, m.space, m.alt, m.zero) && flags.precision == (m.precision >= 0)
  }

  lemma PrefixIsText(spec: char, value: int, flags: Flags, m: Marks)
    requires IsIntegerSpecifier(spec) && Shows(flags, m)
    requires value < 0 ==> spec == 'd' || spec == 'i'
    ensures var f := IntegerFlags(spec, BaseOf(spec), flags);
      Prefix(Abs(value), value < 0, BaseOf(spec), f) == PrefixText(spec, value, m)
  {
  }

  lemma BodyIsText(spec: char, value: int, flags: Flags, m: Marks)
    requires IsIntegerSpecifier(spec) && Shows(flags, m)
    ensures var precision := if m.precision < 0 then 0 else m.precision;
      Body(Abs(value), BaseOf(spec), precision, IntegerFlags(spec, BaseOf(spec), flags)) == DigitsText(spec, value, m)
  {
    hide Numeral, Letters;
    NumeralIsSpelled(Abs(value), spec);
  }

  lemma TimesIsRepeat(n: nat, c: char)
    ensures Times(n, c) == Repeat(c, n)
  {
  }

  lemma JustifiedIsLaid(prefix: string, body: string, width: nat, flags: Flags)
    ensures Justified(prefix, body, width, flags) ==
      Laid(prefix, body, flags.left, flags.zeropad && !flags.precision, width)
  {
    TimesIsRepeat(Short(|prefix| + |body|, width), ' ');
    TimesIsRepeat(Short(|prefix| + |body|, width), '0');
  }

  // The standard's field of the model is that of the text.
  lemma FieldIsLaid(spec: char, value: int, width: nat, flags: Flags, m: Marks)
    requires IsIntegerSpecifier(spec) && Shows(flags, m) && width == m.width
    requires value < 0 ==> spec == 'd' || spec == 'i'
    ensures var f, precision := IntegerFlags(spec, BaseOf(spec), flags), if m.precision < 0 then 0 else m.precision;
      StandardField(Abs(value), value < 0, BaseOf(spec), precision, width, f) == IntegerLaid(spec, value, m)
  {
    hide Prefix, Body, PrefixText, DigitsText, Justified, Laid;
    var base := BaseOf(spec);
    var f, precision := IntegerFlags(spec, base, flags), if m.precision < 0 then 0 else m.precision;
    PrefixIsText(spec, value, flags, m);
    BodyIsText(spec, value, flags, m);
    JustifiedIsLaid(Prefix(Abs(value), value < 0, base, f), Body(Abs(value), base, precision, f), width, f);
    SettledFlags(spec, base, flags);
  }

  lemma SettledFlags(spec: char, base: Base, flags: Flags)
    ensures var f := IntegerFlags(spec, base, flags);
      && f.left == flags.left && f.precision == flags.precision && f.zeropad == (flags.zeropad && !flags.precision)
      && f.pointer == flags.pointer
  {
  }

  lemma ValueIsConverted(spec: char, v: int, length: string, flags: Flags)
    requires IsIntegerSpecifier(spec) && ArgLimit(flags) == TypeSize(length)
    ensures IntegerValue(spec, v, flags) == Wrapped(v, TypeSize(length), spec == 'd' || spec == 'i')
  {
  }

  lemma FitsSame(spec: char, value: int, width: nat, flags: Flags, m: Marks)
    requires IsIntegerSpecifier(spec) && Shows(flags, m) && width == m.width && !flags.pointer
    requires value < 0 ==> spec == 'd' || spec == 'i'
    requires Abs(value) < LIMIT_64
    ensures var f, precision := IntegerFlags(spec, BaseOf(spec), flags), if m.precision < 0 then 0 else m.precision;
      FitsBuffer(Abs(value), value < 0, BaseOf(spec), precision, width, f) <==> FitsIn32(spec, value, m)
  {
    hide Prefix, PrefixText, Body, DigitsText, Numeral;
    var base := BaseOf(spec);
    var f, precision := IntegerFlags(spec, base, flags), if m.precision < 0 then 0 else m.precision;
    PrefixIsText(spec, value, flags, m);
    BodyIsText(spec, value, flags, m);
    SettledFlags(spec, base, flags);
    BodyCount(Abs(value), base, precision, f);
    PrefixIsShort(spec, value, m);
  }

  lemma PrefixIsShort(spec: char, value: int, m: Marks)
    ensures |PrefixText(spec, value, m)| <= 2
  {
  }

  // Only a short octal number has a digit more than its count.
  lemma BodyCount(value: nat, base: Base, precision: nat, flags: Flags)
    requires value < LIMIT_64 && base != 2 && (!flags.precision ==> precision == 0)
    ensures var n, count := |Body(value, base, precision, flags)|, DigitCount(value, base, precision, flags);
      n == count || (n == count + 1 && base == 8 && count <= 22)
  {
    T.NumeralFits(value, base, flags.uppercase);
  }

  // ------------------------------------------------------------ integers

  // When the code prints what it should: the field fits the buffer, or a precision of
  // zero will do for one that is negative; numbers in the format are below 2^32.
  predicate IsPrintedRight(item: Item, args: seq<Arg>)
    requires IsIntegerCall(item, args)
  {
    var m, value := MarksOf(item, args), Converted(item, args);
    && m.width < LIMIT_32
    && if TakesNegative(item, args) then ZeroWillDo(item.spec, value, m) else FitsIn32(item.spec, value, m)
  }

  // The standard's field of an integer conversion
  function StandardOf(item: Item, args: seq<Arg>): string
    requires IsIntegerCall(item, args)
  {
    IntegerLaid(item.spec, Converted(item, args), MarksOf(item, args))
  }

  lemma PerformsInteger(item: Item, args: seq<Arg>)
    requires IsIntegerCall(item, args) && WellFormed(item)
    ensures var c, step := Collected(item, args), Perform(item, args);
      && c.Cursor? && Agrees(c, item, MarksOf(item, args)) && c.args == args[Stars(item)..]
      && step == Step(IntegerConversion(item.spec, args[Stars(item)].value, c.width, c.precision, c.flags), c.i + 1,
                      args[Stars(item) + 1..])
  {
    hide Collected, IntegerConversion, MarksOf, Agrees, WellFormed, HasStars;
    TextCollected(item, args);
    assert args[Stars(item)..][1..] == args[Stars(item) + 1..];
  }

  lemma NegativeMarks(item: Item, args: seq<Arg>)
    requires item.Conversion? && HasStars(item, args) && HasNumbers(item)
    ensures var p := MarksOf(item, args).precision;
      && (TakesNegative(item, args) <==> p < 0 && !item.precision.NoPrecision?)
      && (item.precision.NoPrecision? ==> p < 0) && p >= -1
  {
  }

  // Section 7.19.6.1 for any %d, %i, %u, %o, %x and %X, with any flags, width, precision
  // and length modifier: the conversion prints the standard's field if and only if the
  // condition above holds.
  lemma ConversionIsStandard(item: Item, args: seq<Arg>)
    requires IsIntegerCall(item, args) && WellFormed(item)
    ensures var step := Perform(item, args);
      && step.Step? && step.args == args[Stars(item) + 1..]
      && (step.text == StandardOf(item, args) <==> IsPrintedRight(item, args))
  {
    hide Perform, Collected, IntegerConversion, IntegerLaid, MarksOf;
    hide WellFormed, HasStars, HasNumbers, TakesNegative, FitsIn32;
    var c, m := Collected(item, args), MarksOf(item, args);
    PerformsInteger(item, args);
    NegativeMarks(item, args);
    if m.width >= LIMIT_32 || m.precision >= LIMIT_32 {
      TooLarge(item, args, c);
    } else if TakesNegative(item, args) {
      NegativeIsStandard(item, args, c);
    } else {
      FittingIsStandard(item, args, c);
    }
  }

  lemma ConvertedFacts(item: Item, args: seq<Arg>)
    requires IsIntegerCall(item, args)
    ensures var value := Converted(item, args);
      Abs(value) < LIMIT_64 && (value < 0 ==> item.spec == 'd' || item.spec == 'i')
  {
  }

  lemma FittingIsStandard(item: Item, args: seq<Arg>, c: Cursor)
    requires IsIntegerCall(item, args) && WellFormed(item) && !TakesNegative(item, args)
    requires c.Cursor? && Agrees(c, item, MarksOf(item, args))
    requires MarksOf(item, args).width < LIMIT_32 && MarksOf(item, args).precision < LIMIT_32
    ensures IntegerConversion(item.spec, args[Stars(item)].value, c.width, c.precision, c.flags) == StandardOf(item, args)
      <==> FitsIn32(item.spec, Converted(item, args), MarksOf(item, args))
  {
    hide MarksOf, WellFormed, HasStars, HasNumbers, TakesNegative, StandardField, IntegerLaid;
    hide IntegerConversion, FitsBuffer, FitsIn32, IntegerValue, IntegerFlags;
    var m, value, v := MarksOf(item, args), Converted(item, args), args[Stars(item)].value;
    NegativeMarks(item, args);
    ConvertedFacts(item, args);
    ValueIsConverted(item.spec, v, item.length, c.flags);
    DirectiveIsStandard(item.spec, v, c.width, c.precision, c.flags);
    FieldIsLaid(item.spec, value, c.width, c.flags, m);
    FitsSame(item.spec, value, c.width, c.flags, m);
  }

  lemma NegativeIsStandard(item: Item, args: seq<Arg>, c: Cursor)
    requires IsIntegerCall(item, args) && WellFormed(item) && TakesNegative(item, args)
    requires c.Cursor? && Agrees(c, item, MarksOf(item, args)) && MarksOf(item, args).width < LIMIT_32
    ensures IntegerConversion(item.spec, args[Stars(item)].value, c.width, c.precision, c.flags) == StandardOf(item, args)
      <==> ZeroWillDo(item.spec, Converted(item, args), MarksOf(item, args))
  {
    hide MarksOf, WellFormed, HasStars, HasNumbers, TakesNegative, StandardField, IntegerLaid;
    hide Prefix, PrefixText, Body, DigitsText, IntegerConversion, IntegerValue, IntegerFlags;
    var m, value, v := MarksOf(item, args), Converted(item, args), args[Stars(item)].value;
    var flags := c.flags.(precision := false);
    NegativeMarks(item, args);
    ConvertedFacts(item, args);
    PrecisionCleared(c.flags);
    ValueIsConverted(item.spec, v, item.length, flags);
    NegativePrecision(item.spec, v, c.width, c.flags);
    FieldIsLaid(item.spec, value, c.width, flags, m);
    PrefixIsText(item.spec, value, flags, m);
    BodyIsText(item.spec, value, flags, m);
    SettledFlags(item.spec, BaseOf(item.spec), flags);
    HashSettled(item.spec, flags);
  }

  lemma PrecisionCleared(flags: Flags)
    ensures var r := flags.(precision := false);
      && Marked(r, flags.left, flags.plus, flags.space, flags.hash, flags.zeropad)
      && !r.precision && r.pointer == flags.pointer && ArgLimit(r) == ArgLimit(flags)
  {
  }

  lemma HashSettled(spec: char, flags: Flags)
    requires IsIntegerSpecifier(spec)
    ensures IntegerFlags(spec, BaseOf(spec), flags).hash && BaseOf(spec) == 8 <==> flags.hash && spec == 'o'
  {
  }

  // Numbers of 2^32 and more are taken modulo 2^32; the field is then too short.
  lemma TooLarge(item: Item, args: seq<Arg>, c: Cursor)
    requires IsIntegerCall(item, args) && WellFormed(item)
    requires c.Cursor? && Agrees(c, item, MarksOf(item, args))
    requires MarksOf(item, args).width >= LIMIT_32 || MarksOf(item, args).precision >= LIMIT_32
    ensures IntegerConversion(item.spec, args[Stars(item)].value, c.width, c.precision, c.flags) != StandardOf(item, args)
    ensures !IsPrintedRight(item, args)
  {
    hide MarksOf, WellFormed, HasStars, HasNumbers, TakesNegative, IntegerConversion, DigitsText, PrefixText;
    var m, value := MarksOf(item, args), Converted(item, args);
    NegativeMarks(item, args);
    LongDigits(item.spec, value, m);
    ConversionIsShort(item.spec, args[Stars(item)].value, c.width, c.precision, c.flags);
  }

  lemma LongDigits(spec: char, value: int, m: Marks)
    ensures |DigitsText(spec, value, m)| >= m.precision
    ensures |IntegerLaid(spec, value, m)| >= |DigitsText(spec, value, m)|
  {
  }

  lemma ConversionIsShort(spec: char, v: int, width: nat, precision: nat, flags: Flags)
    requires IsIntegerSpecifier(spec)
    ensures |IntegerConversion(spec, v, width, precision, flags)| <= Max(32, width)
  {
    var value, base := IntegerValue(spec, v, flags), BaseOf(spec);
    ValueFits(spec, v, flags);
    CodeTextFits(Abs(value), value < 0, base, precision, width, IntegerFlags(spec, base, flags));
  }

  lemma DirectiveTextStands(item: Item)
    requires IsDirectiveText(item) && item.spec in "diuoxXcsp"
    ensures WellFormed(item)
  {
    assert EndText(item)[0] == if item.length == "" then item.spec else item.length[0];
    assert TailText(item)[0] == if item.precision.NoPrecision? then EndText(item)[0] else '.';
    assert HeadText(item)[0] == match item.width
      case NoWidth => TailText(item)[0]
      case Columns(digits) => digits[0]
      case StarWidth => '*';
  }

  // Wherever such a directive stands in a format, the loop takes it as a whole and prints
  // the standard's field if and only if the condition holds.
  lemma StandardInteger(f: string, i: nat, item: Item, args: seq<Arg>)
    requires IsDirectiveText(item) && IsIntegerCall(item, args) && Has(f, i, Unparse(item))
    ensures var step := Directive(f, i, args);
      && step.Step? && step.next == i + |Unparse(item)| && step.args == args[Stars(item) + 1..]
      && (step.text == StandardOf(item, args) <==> IsPrintedRight(item, args))
  {
    hide Directive, Perform, Unparse, StandardOf, IsPrintedRight, WellFormed, Has;
    DirectiveTextStands(item);
    ConversionIsStandard(item, args);
    DirectiveRead(f, i, item, args);
  }

  // The same of any directive of any format: it is the text of a conversion, and prints
  // that conversion's field if and only if the condition holds.
  lemma IntegerDirective(f: string, i: nat, args: seq<Arg>) returns (item: Item)
    requires i < |f| && f[i] == '%' && Directive(f, i, args).Step?
    requires IsIntegerSpecifier(f[Directive(f, i, args).next - 1])
    ensures WellFormed(item) && Has(f, i, Unparse(item)) && IsIntegerCall(item, args)
    ensures var step := Directive(f, i, args);
      && step.next == i + |Unparse(item)| && step.args == args[Stars(item) + 1..]
      && (step.text == StandardOf(item, args) <==> IsPrintedRight(item, args))
  {
    hide Directive, ItemAt, PlacesAt, Perform, StandardOf, IsPrintedRight, WellFormed;
    DirectiveHasItem(f, i, args);
    item := ItemAt(f, i);
    SpecIsLast(f, i, item);
    CallPerforms(item, args);
    ConversionIsStandard(item, args);
  }

  lemma SpecIsLast(f: string, i: nat, item: Item)
    requires Has(f, i, Unparse(item)) && i < |f| && f[i] == '%' && WellFormed(item)
    ensures item.Conversion? && item.spec == f[i + |Unparse(item)| - 1]
  {
    var x := Unparse(item);
    assert f[i] == x[0] && f[i + |x| - 1] == f[i..i + |x|][|x| - 1] == x[|x| - 1];
  }

  lemma CallPerforms(item: Item, args: seq<Arg>)
    requires WellFormed(item) && item.Conversion? && IsIntegerSpecifier(item.spec) && Perform(item, args).Step?
    ensures IsIntegerCall(item, args)
  {
    hide FlagsOf, LengthFlags, IntegerConversion, NumberOf;
  }

  lemma {:induction false} SpelledReadsBack(v: nat)
    ensures OnlyDigits(Spelled(v, "0123456789")) && ValueOf(Spelled(v, "0123456789")) == v
    ensures v > 0 ==> Spelled(v, "0123456789") != ""
    decreases v
  {
    if v > 0 {
      var front, last := Spelled(v / 10, "0123456789"), "0123456789"[v % 10];
      SpelledReadsBack(v / 10);
      assert (front + [last])[..|front|] == front;
      DecimalLetter(v % 10);
    }
  }

  lemma DecimalLetter(d: nat)
    requires d < 10
    ensures '0' <= "0123456789"[d] <= '9' && "0123456789"[d] as int - '0' as int == d
  {
  }

  const PLAIN: Marks := Marks(false, false, false, false, false, 0, -1)

  lemma PlainDigits(v: nat)
    requires v < LIMIT_64
    ensures var digits := DigitsText('d', v, PLAIN);
      0 < |digits| <= 20 && OnlyDigits(digits) && ValueOf(digits) == v
  {
    var s := Spelled(v, "0123456789");
    SpelledReadsBack(v);
    NumeralIsSpelled(v, 'd');
    T.NumeralFits(v, 10, false);
    if v == 0 {
      assert Times(1, '0') + s == "0";
      assert "0"[..0] == "";
    } else {
      assert Times(0, '0') + s == s;
    }
  }

  lemma PlainLaid(v: int, digits: string)
    requires digits == DigitsText('d', v, PLAIN) && 0 < |digits| <= 20
    ensures IntegerLaid('d', v, PLAIN) == (if v < 0 then "-" else "") + digits && FitsIn32('d', v, PLAIN)
  {
    hide DigitsText;
    var prefix := if v < 0 then "-" else "";
    assert Times(0, ' ') + prefix + digits == prefix + digits;
  }

  lemma PlainSays(v: int, digits: string)
    requires digits != "" && OnlyDigits(digits) && ValueOf(digits) == if v < 0 then -v else v
    ensures SaysNumber((if v < 0 then "-" else "") + digits, v)
  {
    if v < 0 {
      assert ("-" + digits)[1..] == digits;
    } else {
      assert "" + digits == digits;
    }
  }

  lemma PlainCall(length: string, v: int)
    requires LengthStands(length, 'd') && -(TypeSize(length) / 2) <= v < TypeSize(length) / 2
    ensures var item, args := Conversion("", NoWidth, NoPrecision, length, 'd'), [IntArg(v)];
      && WellFormed(item) && IsIntegerCall(item, args) && MarksOf(item, args) == PLAIN && Converted(item, args) == v
      && !TakesNegative(item, args)
  {
    var item := Conversion("", NoWidth, NoPrecision, length, 'd');
    assert EndText(item) == length + ['d'] && TailText(item) == EndText(item) && HeadText(item) == TailText(item);
  }

  // %d with any length modifier prints any value of its type so that it reads back.
  lemma SignedReadsBack(length: string, v: int)
    requires LengthStands(length, 'd') && -(TypeSize(length) / 2) <= v < TypeSize(length) / 2
    ensures var step := Perform(Conversion("", NoWidth, NoPrecision, length, 'd'), [IntArg(v)]);
      step.Step? && SaysNumber(step.text, v)
  {
    hide Perform, Spelled, ValueOf, WellFormed, IsIntegerCall, MarksOf, Converted, IntegerLaid, DigitsText, SaysNumber;
    hide FitsIn32, TakesNegative;
    var item, args := Conversion("", NoWidth, NoPrecision, length, 'd'), [IntArg(v)];
    PlainCall(length, v);
    ConversionIsStandard(item, args);
    PlainDigits(Abs(v));
    SameDigits(v);
    PlainLaid(v, DigitsText('d', v, PLAIN));
    PlainSays(v, DigitsText('d', v, PLAIN));
  }

  lemma SameDigits(v: int)
    ensures DigitsText('d', v, PLAIN) == DigitsText('d', Abs(v), PLAIN)
  {
  }

  // ------------------------------------------------------------ the other conversions

  lemma CollectedFor(item: Item, args: seq<Arg>)
    requires IsCall(item, args) && WellFormed(item)
    ensures var c := Collected(item, args);
      && c.Cursor? && Agrees(c, item, MarksOf(item, args)) && c.args != [] && c.args[0] == args[Stars(item)]
      && c.args[1..] == args[Stars(item) + 1..] && Perform(item, args) == Convert(item.spec, c)
  {
    hide MarksOf, WellFormed, HasStars, HasNumbers, Collected, Agrees, Convert;
    TextCollected(item, args);
    assert args[Stars(item)..][1..] == args[Stars(item) + 1..];
  }

  // %c prints an unsigned char, in its field.
  lemma CharIsStandard(item: Item, args: seq<Arg>)
    requires IsCall(item, args) && WellFormed(item) && item.spec == 'c' && item.length == ""
    requires args[Stars(item)].IntArg?
    ensures var step, m := Perform(item, args), MarksOf(item, args);
      && step.Step? && step.args == args[Stars(item) + 1..]
      && (step.text == CharLaid(Wrapped(args[Stars(item)].value, 0x100, false) as char, m) <==> m.width < LIMIT_32)
  {
    hide MarksOf, WellFormed, HasStars, HasNumbers, Collected, Perform, Wrapped;
    CollectedFor(item, args);
    var c, m := Collected(item, args), MarksOf(item, args);
    var x := ToUnsigned(args[Stars(item)].value, LIMIT_8) as char;
    assert x == Wrapped(args[Stars(item)].value, 0x100, false) as char by {
      CharValue(args[Stars(item)].value);
    }
    LaidAlone([x], c.flags, m);
    if m.width >= LIMIT_32 {
      assert |CharConversion(args[Stars(item)].value, c.width, c.flags)| <= LIMIT_32 - 1;
    }
  }

  lemma CharValue(v: int)
    ensures ToUnsigned(v, LIMIT_8) == Wrapped(v, 0x100, false)
  {
  }

  // Without prefix and zeros
  lemma LaidAlone(x: string, flags: Flags, m: Marks)
    requires flags.left == m.left
    ensures var spaces := Repeat(' ', Short(|x|, m.width));
      Laid("", x, m.left, false, m.width) == if flags.left then x + spaces else spaces + x
  {
    var missing := Short(|x|, m.width);
    TimesIsRepeat(missing, ' ');
    assert "" + x + Times(missing, ' ') == x + Times(missing, ' ');
    assert Times(missing, ' ') + "" + x == Times(missing, ' ') + x;
  }

  // %s prints the characters that the precision lets through, in their field; under a
  // negative precision only spaces, which is right for spaces within the width.
  lemma StringDirectiveIsStandard(item: Item, args: seq<Arg>)
    requires IsCall(item, args) && WellFormed(item) && item.spec == 's' && item.length == ""
    requires args[Stars(item)].StrArg? && |args[Stars(item)].text| <= INT_MAX
    requires MarksOf(item, args).width < LIMIT_32 && MarksOf(item, args).precision < LIMIT_32
    ensures var step, m, s := Perform(item, args), MarksOf(item, args), args[Stars(item)].text;
      && step.Step? && step.args == args[Stars(item) + 1..]
      && (step.text == StringLaid(s, m) <==>
          (TakesNegative(item, args) ==> |s| <= m.width && forall k :: 0 <= k < |s| ==> s[k] == ' '))
  {
    hide MarksOf, WellFormed, HasStars, HasNumbers, Collected, Perform, TakesNegative, StringConversion;
    CollectedFor(item, args);
    NegativeMarks(item, args);
    var c, m, s := Collected(item, args), MarksOf(item, args), args[Stars(item)].text;
    if TakesNegative(item, args) {
      var flags := c.flags.(precision := false);
      NegativePrecisionOfString(s, c.width, c.flags);
      StringIsLaid(s, c.width, 0, flags, m);
    } else {
      assert !c.flags.longArg;
      StringIsStandard(s, c.width, c.precision, c.flags);
      StringIsLaid(s, c.width, c.precision, c.flags, m);
    }
  }

  lemma StringIsLaid(s: string, width: nat, precision: nat, flags: Flags, m: Marks)
    requires flags.left == m.left && width == m.width && flags.precision == (m.precision >= 0)
    requires m.precision >= 0 ==> precision == m.precision
    ensures StandardString(s, width, precision, flags) == StringLaid(s, m)
  {
    var shown := if flags.precision then s[..Min(|s|, precision)] else s;
    assert s[..|s|] == s;
    JustifiedIsLaid("", shown, width, flags.(zeropad := false));
  }

  // A null string prints as "(null)", padded with spaces unless '0' is given without '-'.
  lemma NullStringPrints(item: Item, args: seq<Arg>)
    requires IsCall(item, args) && WellFormed(item) && item.spec == 's' && args[Stars(item)].NullStr?
    requires MarksOf(item, args).width < LIMIT_32
    ensures var step, m := Perform(item, args), MarksOf(item, args);
      && step.Step? && step.args == args[Stars(item) + 1..]
      && step.text == if m.zero && !m.left then "(null)" else Laid("", "(null)", m.left, false, m.width)
  {
    hide MarksOf, WellFormed, HasStars, HasNumbers, Collected, Perform;
    CollectedFor(item, args);
    LaidAlone("(null)", Collected(item, args).flags, MarksOf(item, args));
  }

  // %p prints a null pointer as "(nil)" and others as 0x and lower-case digits, 16 of them
  // unless '-' is given; the field has 18 columns whatever the width.
  lemma PointerPrints(item: Item, args: seq<Arg>)
    requires IsCall(item, args) && WellFormed(item) && item.spec == 'p' && args[Stars(item)].PtrArg?
    requires item.precision.NoPrecision? && '+' !in item.flags && ' ' !in item.flags
    requires args[Stars(item)].addr < LIMIT_64
    ensures var step, left, addr := Perform(item, args), MarksOf(item, args).left, args[Stars(item)].addr;
      && step.Step? && step.args == args[Stars(item) + 1..]
      && step.text ==
         if addr == 0 then if left then "(nil)" + Times(13, ' ') else "(nil)"
         else Laid("0x", Spelled(addr, "0123456789abcdef"), left, true, 18)
  {
    hide WellFormed, HasStars, HasNumbers, Collected, Perform, IntegerField, Laid, Spelled;
    CollectedFor(item, args);
    var c, addr := Collected(item, args), args[Stars(item)].addr;
    NegativeMarks(item, args);
    var f := c.flags.(zeropad := true, pointer := true);
    PointerFlags(c.flags);
    if addr == 0 {
      TimesIsRepeat(13, ' ');
    } else if c.flags.left {
      PointerOnLeft(addr, f);
    } else {
      PointerFilled(addr, f);
    }
  }

  lemma PointerFlags(flags: Flags)
    ensures var f := flags.(zeropad := true, pointer := true);
      && f.zeropad && f.pointer && f.left == flags.left && f.plus == flags.plus && f.space == flags.space
      && f.precision == flags.precision && f.uppercase == flags.uppercase
  {
  }

  lemma PointerFilled(addr: nat, f: Flags)
    requires 0 < addr < LIMIT_64
    requires f.zeropad && f.pointer && !f.left && !f.plus && !f.space && !f.precision && !f.uppercase
    ensures IntegerField(addr, false, 16, 0, 18, f) == Laid("0x", Spelled(addr, "0123456789abcdef"), false, true, 18)
  {
    hide Generated, Numeral, Spelled, Prefixed, Fill, Justified;
    NumeralIsSpelled(addr, 'x');
    GeneratedFacts(addr, 16, 0, f);
    var d := Numeral(addr, 16, false);
    FillIs(d, 18);
    HexPrefixed(d, Fill(d, 18), 0, 18, f);
    JustifiedIsLaid("0x", d, 18, f);
    FillIs(Fill(d, 18), 0);
    assert Padded(d, 0, 18, f) == Fill(d, 18);
  }

  lemma PointerOnLeft(addr: nat, f: Flags)
    requires 0 < addr < LIMIT_64
    requires f.zeropad && f.pointer && f.left && !f.plus && !f.space && !f.precision && !f.uppercase
    ensures IntegerField(addr, false, 16, 0, 18, f) == Laid("0x", Spelled(addr, "0123456789abcdef"), true, true, 18)
  {
    hide Generated, Numeral, Spelled, Fill, Justified, Push, PushLetter, TakeBack;
    NumeralIsSpelled(addr, 'x');
    GeneratedFacts(addr, 16, 0, f);
    var d := Numeral(addr, 16, false);
    FillIs(d, 0);
    assert Padded(d, 0, 18, f) == d;
    HexPushed(d, f);
    JustifiedIsLaid("0x", d, 18, f);
    assert Finished(d, false, 16, 0, 18, f) == "0x" + d;
  }

  // Any other specifier is put out as it is, so that "%%" prints '%'.
  lemma OthersEcho(item: Item, args: seq<Arg>)
    requires item.Conversion? && WellFormed(item) && HasStars(item, args) && item.spec !in "diuoxXbcspfFeEgGn"
    ensures var step := Perform(item, args);
      step.Step? && step.text == [item.spec] && step.args == args[Stars(item)..]
  {
    hide MarksOf, WellFormed, HasStars, Collected;
    TextCollected(item, args);
  }

  // %b, an extension, prints the low 32 bits, so that they read back.
  lemma BinaryReadsBack(v: nat)
    requires v < LIMIT_32
    ensures var step := Perform(Conversion("", NoWidth, NoPrecision, "", 'b'), [IntArg(v)]);
      step.Step? && T.ReadDigits(step.text, 2) == v
  {
    hide Generated, T.ReadDigits;
    var f := IntegerFlags('b', 2, NO_FLAGS);
    var d := Generated(v, 2, f);
    T.GeneratedReadsBack(v, 2, f);
    FillIs(d, 0);
    assert Repeat('0', 0) + d == d && Repeat(' ', 0) + d == d;
    assert Finished(d, false, 2, 0, 0, WithoutHash(v, 2, f)) == d;
  }

  lemma BinaryDigits(v: nat, flags: Flags)
    requires 0 < v < 0x4000_0000
    ensures 0 < |Generated(v, 2, flags)| <= 30
  {
    PowAdd(2, 15, 15);
    assert Pow(2, 15) == 0x8000;
    T.NumeralLength(v, 2, flags.uppercase, 30);
    T.NumeralIsReversed(v, 2, flags.uppercase);
    assert Numeral(v, 2, flags.uppercase) != "";
  }

  // With '#' and up to 30 bits they follow "0b".
  lemma BinaryPrefixed(v: nat)
    requires 0 < v < 0x4000_0000
    ensures var step := Perform(Conversion("#", NoWidth, NoPrecision, "", 'b'), [IntArg(v)]);
      && step.Step? && "0b" <= step.text && T.ReadDigits(step.text[2..], 2) == v
  {
    hide Generated, T.ReadDigits, Finished, Push, PushLetter;
    var hash := NO_FLAGS.(hash := true);
    assert FlagsOf("#", NO_FLAGS) == hash by {
      assert SetFlag('#', NO_FLAGS) == hash && "#"[1..] == "";
    }
    var f := IntegerFlags('b', 2, hash);
    var d := Generated(v, 2, f);
    T.GeneratedReadsBack(v, 2, f);
    BinaryDigits(v, f);
    BinaryFinished(d, f);
    assert Repeat(' ', 0) + ("0b" + d) == "0b" + d;
  }

  lemma BinaryFinished(d: string, f: Flags)
    requires 0 < |d| <= 30 && f.hash && !f.plus && !f.space && !f.left && !f.zeropad && !f.precision
    ensures Finished(d, false, 2, 0, 0, f) == "0b" + d
  {
    FillIs(d, 0);
    assert Padded(d, 0, 0, f) == d;
    assert ['0'] + (['b'] + d) == "0b" + d;
  }

  // A format that ends within a directive, after '%', '*', '.' or a length modifier, ends
  // the output.
  lemma CutDirectivesStop(f: string, args: seq<Arg>)
    requires args != [] && args[0].IntArg?
    requires f == "%" || f == "%." || f == "%*" || f == "%.*" || f == "%l" || f == "%ll" || f == "%h" || f == "%hh" ||
             f == "%j" || f == "%z" || f == "%t"
    ensures Prints(f, 0, args, "")
  {
    hide Directive;
    if f == "%" || f == "%." || f == "%*" || f == "%.*" {
      CutNumbers(f, args);
    } else {
      CutLengths(f, args);
    }
  }

  lemma CutNumbers(f: string, args: seq<Arg>)
    requires args != [] && args[0].IntArg? && (f == "%" || f == "%." || f == "%*" || f == "%.*")
    ensures Directive(f, 0, args) == Stop
  {
    assert |f| > 1 ==> ParseFlags(f, 1, NO_FLAGS) == (NO_FLAGS, 1);
  }

  lemma CutLengths(f: string, args: seq<Arg>)
    requires f == "%l" || f == "%ll" || f == "%h" || f == "%hh" || f == "%j" || f == "%z" || f == "%t"
    ensures Directive(f, 0, args) == Stop
  {
    hide SetFlag, ParseNumber, Convert;
    assert ParseFlags(f, 1, NO_FLAGS) == (NO_FLAGS, 1);
  }
}
