// Directives against sections 7.19.6.1 and 7.19.6.5 of ISO/IEC 9899:1999.
module FormatStandard {
  import opened Bits
  import opened IntegerText
  import T = IntegerTheorems
  import opened IntegerStandard
  import opened FormatText
  import opened FormatGrammar
  import opened Printf

  // The conversions of the standard; 'b' is an extension.
  predicate IsStandardInteger(c: char)
  {
    IsInteger(c) && c != 'b'
  }

  predicate FromLoop(flags: Flags, precision: nat)
  {
    !flags.pointer && (!flags.precision ==> precision == 0)
  }

  lemma SetFlagKeeps(c: char, flags: Flags)
    ensures var r := SetFlag(c, flags); r.pointer == flags.pointer && r.precision == flags.precision
  {
    var z, l, p, s, h := flags.(zeropad := true), flags.(left := true), flags.(plus := true), flags.(space := true), flags.(hash := true);
    assert z.pointer == l.pointer == p.pointer == s.pointer == h.pointer == flags.pointer;
    assert z.precision == l.precision == p.precision == s.precision == h.precision == flags.precision;
  }

  lemma {:induction false} FlagsFromLoop(f: string, i: nat, flags: Flags)
    requires !flags.pointer && !flags.precision
    ensures !ParseFlags(f, i, flags).0.pointer && !ParseFlags(f, i, flags).0.precision
    decreases |f| - i
  {
    if i < |f| && IsFlag(f[i]) {
      SetFlagKeeps(f[i], flags);
      FlagsFromLoop(f, i + 1, SetFlag(f[i], flags));
    }
  }

  // Parsing a directive never makes up a precision.
  lemma DirectiveFromLoop(f: string, i: nat, args: seq<Arg>)
    ensures var c := ParseDirective(f, i, args); c.Cursor? ==> FromLoop(c.flags, c.precision)
  {
    if i < |f| {
      HeadFromLoop(f, i, args);
      if ParseHead(f, i, args).Cursor? {
        PrecisionFromLoop(f, ParseHead(f, i, args));
      }
    }
  }

  lemma HeadFromLoop(f: string, i: nat, args: seq<Arg>)
    ensures var c := ParseHead(f, i, args); c.Cursor? ==> FromLoop(c.flags, c.precision) && c.precision == 0
  {
    FlagsFromLoop(f, i, NO_FLAGS);
  }

  lemma PrecisionFromLoop(f: string, c: Cursor)
    requires c.Cursor? && FromLoop(c.flags, c.precision)
    ensures var d := ParsePrecision(f, c); d.Cursor? ==> FromLoop(d.flags, d.precision)
  {
    PrecisionFlags(f, c);
    var taken := c.flags.(precision := true);
    assert !taken.pointer && taken.precision;
  }

  lemma PrecisionFlags(f: string, c: Cursor)
    requires c.Cursor?
    ensures var d := ParsePrecision(f, c); d.Cursor? ==> d == c || d.flags == c.flags.(precision := true)
  {
  }

  // The field of an integer directive, as the standard describes it.
  function StandardConversion(spec: char, v: int, width: nat, precision: nat, flags: Flags): string
  {
    var value, f := IntegerValue(spec, v, flags), IntegerFlags(spec, BaseOf(spec), flags);
    StandardField(Abs(value), value < 0, BaseOf(spec), precision, width, f)
  }

  lemma ValueFits(spec: char, v: int, flags: Flags)
    ensures Abs(IntegerValue(spec, v, flags)) < LIMIT_64
    ensures spec != 'd' && spec != 'i' ==> IntegerValue(spec, v, flags) >= 0
  {
  }

  // Any %d, %i, %u, %o, %x or %X directive prints the standard's field exactly when the
  // field fits print_integer's buffer.
  lemma DirectiveIsStandard(spec: char, v: int, width: nat, precision: nat, flags: Flags)
    requires IsStandardInteger(spec) && FromLoop(flags, precision)
    ensures IntegerConversion(spec, v, width, precision, flags) == StandardConversion(spec, v, width, precision, flags)
      <==> FitsBuffer(Abs(IntegerValue(spec, v, flags)), IntegerValue(spec, v, flags) < 0, BaseOf(spec), precision, width,
                      IntegerFlags(spec, BaseOf(spec), flags))
  {
    ValueFits(spec, v, flags);
    var value, f := IntegerValue(spec, v, flags), IntegerFlags(spec, BaseOf(spec), flags);
    assert AsCalled(Abs(value), value < 0, BaseOf(spec), precision, f);
    FieldIsStandard(Abs(value), value < 0, BaseOf(spec), precision, width, f);
  }

  // ------------------------------------------------------------ a negative precision argument

  // The field for a precision of zero is that for an omitted precision unless the value
  // is zero, or the '0' flag, which a precision cancels, would have padded.
  lemma ZeroForOmitted(value: nat, negative: bool, base: Base, width: nat, flags: Flags)
    requires value < LIMIT_64 && base != 2 && !flags.precision && !flags.pointer
    ensures var taken := flags.(precision := true, zeropad := false);
      StandardField(value, negative, base, 0, width, taken) == StandardField(value, negative, base, 0, width, flags)
      <==> (value != 0 || (flags.hash && base == 8)) &&
           (ZeroPadding(flags) ==> width <= |Prefix(value, negative, base, flags)| + |Body(value, base, 0, flags)|)
  {
    var taken := flags.(precision := true, zeropad := false);
    var prefix := Prefix(value, negative, base, flags);
    assert Prefix(value, negative, base, taken) == prefix;
    hide Justified, Body, Prefix;
    OmittedBody(value, base, flags);
    var body := Body(value, base, 0, flags);
    if value != 0 || (flags.hash && base == 8) {
      if ZeroPadding(flags) && width > |prefix| + |body| {
        SpacesAreNotZeros(value, negative, base, width, flags);
      } else {
        NothingPadded(prefix, body, width, taken, flags);
      }
    } else {
      PrefixOfZero(negative, base, flags);
      ZeroIsMissing(prefix, width, taken, flags);
    }
  }

  lemma NothingPadded(prefix: string, body: string, width: nat, taken: Flags, flags: Flags)
    requires taken.left == flags.left && taken.precision && !flags.precision
    requires ZeroPadding(flags) ==> width <= |prefix| + |body|
    ensures Justified(prefix, body, width, taken) == Justified(prefix, body, width, flags)
  {
    assert Repeat(' ', 0) + prefix + body == prefix + Repeat('0', 0) + body;
  }

  lemma PrefixOfZero(negative: bool, base: Base, flags: Flags)
    ensures var prefix := Prefix(0, negative, base, flags); |prefix| <= 1 && (prefix != "" ==> prefix[0] != '0')
  {
  }

  lemma OmittedBody(value: nat, base: Base, flags: Flags)
    requires value < LIMIT_64 && base != 2 && !flags.precision
    ensures var taken := flags.(precision := true, zeropad := false);
      Body(value, base, 0, taken) == if value == 0 && !(flags.hash && base == 8) then "" else Body(value, base, 0, flags)
    ensures value == 0 ==> Body(value, base, 0, flags) == "0"
  {
    var numeral := Numeral(value, base, flags.uppercase);
    assert Repeat('0', 0) + numeral == numeral;
    if value > 0 {
      T.NoLeadingZero(value, base, flags.uppercase);
    } else {
      assert Repeat('0', 1) + numeral == "0" && "0" + "" == "0";
    }
  }

  lemma SpacesAreNotZeros(value: nat, negative: bool, base: Base, width: nat, flags: Flags)
    requires value < LIMIT_64 && base != 2 && !flags.precision && ZeroPadding(flags)
    requires width > |Prefix(value, negative, base, flags)| + |Body(value, base, 0, flags)|
    ensures var taken := flags.(precision := true, zeropad := false);
      var prefix, body := Prefix(value, negative, base, flags), Body(value, base, 0, flags);
      Justified(prefix, body, width, taken) != Justified(prefix, body, width, flags)
  {
    var taken := flags.(precision := true, zeropad := false);
    var prefix, body := Prefix(value, negative, base, flags), Body(value, base, 0, flags);
    var spaced, zeroed := Justified(prefix, body, width, taken), Justified(prefix, body, width, flags);
    var missing := width - |prefix| - |body|;
    assert zeroed[|prefix| + missing - 1] == '0';
    if |prefix| == 0 {
      assert spaced[missing - 1] == ' ';
    } else {
      SignWhereZero(prefix, body, missing);
    }
  }

  // The last padding zero stands where the other text has its prefix's last character.
  lemma SignWhereZero(prefix: string, body: string, missing: nat)
    requires missing > 0 && prefix != "" && prefix[|prefix| - 1] != '0'
    ensures Repeat(' ', missing) + prefix + body != prefix + Repeat('0', missing) + body
  {
    var at := |prefix| + missing - 1;
    assert (Repeat(' ', missing) + prefix + body)[at] == prefix[|prefix| - 1];
    assert (prefix + Repeat('0', missing) + body)[at] == '0';
  }

  lemma ZeroIsMissing(prefix: string, width: nat, taken: Flags, flags: Flags)
    requires taken == flags.(precision := true, zeropad := false) && !flags.precision
    requires |prefix| <= 1 && (prefix != "" ==> prefix[0] != '0')
    ensures Justified(prefix, "", width, taken) != Justified(prefix, "0", width, flags)
  {
    var a, b := Justified(prefix, "", width, taken), Justified(prefix, "0", width, flags);
    if |a| == |b| {
      if flags.left {
        assert b[|prefix|] == '0' && a[|prefix|] == ' ';
      } else {
        assert b[width - 1] == '0';
        assert a[width - 1] == if prefix == "" then ' ' else prefix[0];
      }
    }
  }

  // Parsing ".*" with a negative argument leaves the precision flag and zero.
  lemma NegativeArgumentRead(f: string, c: Cursor)
    requires c.Cursor? && Has(f, c.i, ".*") && c.i + 2 < |f|
    requires c.args != [] && c.args[0].IntArg? && ToSigned(c.args[0].value, LIMIT_32) < 0
    ensures ParsePrecision(f, c) ==
      Cursor(c.i + 2, c.args[1..], c.flags.(precision := true), c.width, 0)
  {
    HasTail(f, c.i, ".*");
    HasTail(f, c.i + 1, ".*"[1..]);
  }

  // When a zero precision does no harm
  predicate ZeroIsHarmless(spec: char, v: int, width: nat, flags: Flags)
  {
    var value, base := IntegerValue(spec, v, flags), BaseOf(spec);
    var f := IntegerFlags(spec, base, flags);
    && (value != 0 || (f.hash && base == 8))
    && (ZeroPadding(f) ==> width <= |Prefix(Abs(value), value < 0, base, f)| + |Body(Abs(value), base, 0, f)|)
  }

  // Section 7.19.6.1 takes a negative precision argument as if the precision were
  // omitted. The code takes it as zero: its field is the standard's exactly when that
  // does no harm.
  lemma NegativePrecision(spec: char, v: int, width: nat, taken: Flags)
    requires IsStandardInteger(spec) && taken.precision && !taken.pointer
    ensures var flags := taken.(precision := false);
      IntegerConversion(spec, v, width, 0, taken) == StandardConversion(spec, v, width, 0, flags)
      <==> ZeroIsHarmless(spec, v, width, flags)
  {
    hide StandardField, Justified, Body, Prefix, FitsBuffer;
    var flags := taken.(precision := false);
    var value, base := IntegerValue(spec, v, flags), BaseOf(spec);
    var f, g := IntegerFlags(spec, base, flags), IntegerFlags(spec, base, taken);
    assert taken == flags.(precision := true);
    TakenFlags(spec, base, flags);
    SettledKeeps(spec, base, flags);
    TakenValue(spec, v, flags);
    ValueFits(spec, v, flags);
    ZeroPrecisionFits(Abs(value), value < 0, base, width, g);
    DirectiveIsStandard(spec, v, width, 0, taken);
    ZeroForOmitted(Abs(value), value < 0, base, width, f);
  }

  lemma TakenFlags(spec: char, base: Base, flags: Flags)
    requires !flags.precision
    ensures IntegerFlags(spec, base, flags.(precision := true)) ==
      IntegerFlags(spec, base, flags).(precision := true, zeropad := false)
  {
  }

  lemma SettledKeeps(spec: char, base: Base, flags: Flags)
    ensures var f := IntegerFlags(spec, base, flags); f.pointer == flags.pointer && f.precision == flags.precision
  {
  }

  lemma TakenValue(spec: char, v: int, flags: Flags)
    ensures IntegerValue(spec, v, flags.(precision := true)) == IntegerValue(spec, v, flags)
  {
    var taken := flags.(precision := true);
    assert ArgLimit(taken) == ArgLimit(flags);
  }

  lemma ZeroPrecisionFits(value: nat, negative: bool, base: Base, width: nat, flags: Flags)
    requires value < LIMIT_64 && base != 2 && !flags.zeropad && flags.precision
    requires (base != 10 ==> StandardSign(negative, flags) == "")
    ensures FitsBuffer(value, negative, base, 0, width, flags)
  {
    T.NumeralFits(value, base, flags.uppercase);
  }

  // The directive of a conversion with a '*' precision and a negative argument for it
  lemma NegativePrecisionPerforms(item: Item, args: seq<Arg>)
    requires item.Conversion? && item.precision == StarPrecision && IsStandardInteger(item.spec)
    requires var c := TakeWidth(item.width, Cursor(0, args, FlagsOf(item.flags, NO_FLAGS), 0, 0));
      && c.Cursor? && |c.args| >= 2 && c.args[0].IntArg? && c.args[1].IntArg?
      && ToSigned(c.args[0].value, LIMIT_32) < 0
    ensures var c := TakeWidth(item.width, Cursor(0, args, FlagsOf(item.flags, NO_FLAGS), 0, 0));
      var v, step := c.args[1].value, Perform(item, args);
      var flags := LengthFlags(item.length, c.flags.(precision := true)).(precision := false);
      && step.Step? && step.args == c.args[2..]
      && (step.text == StandardConversion(item.spec, v, c.width, 0, flags)
          <==> ZeroIsHarmless(item.spec, v, c.width, flags))
  {
    hide IntegerConversion, StandardConversion, ZeroIsHarmless;
    var c := TakeWidth(item.width, Cursor(0, args, FlagsOf(item.flags, NO_FLAGS), 0, 0));
    FlagsOfLoop(item.flags, NO_FLAGS);
    NegativePrecision(item.spec, c.args[1].value, c.width, LengthFlags(item.length, c.flags.(precision := true)));
    assert c.args[1..][1..] == c.args[2..];
  }

  lemma {:induction false} FlagsOfLoop(s: string, flags: Flags)
    ensures var r := FlagsOf(s, flags); r.precision == flags.precision && r.pointer == flags.pointer
    decreases |s|
  {
    if s != "" {
      SetFlagKeeps(s[0], flags);
      FlagsOfLoop(s[1..], SetFlag(s[0], flags));
    }
  }

  // ------------------------------------------------------------ strings

  // The field of %s without a length modifier: at most precision characters of the
  // string, all without a precision
  function StandardString(s: string, width: nat, precision: nat, flags: Flags): string
  {
    Justified("", if flags.precision then s[..Min(|s|, precision)] else s, width, flags.(zeropad := false))
  }

  lemma StringIsStandard(s: string, width: nat, precision: nat, flags: Flags)
    requires FromLoop(flags, precision) && !flags.longArg && |s| <= INT_MAX
    ensures StringConversion(s, width, precision, flags) == StandardString(s, width, precision, flags)
  {
    var shown := if flags.precision then s[..Min(|s|, precision)] else s;
    var spaces := Repeat(' ', Short(|shown|, width));
    assert "" + shown + spaces == shown + spaces && spaces + "" + shown == spaces + shown;
  }

  // A negative precision argument counts as omitted, so the whole string should come.
  // The code shows nothing of it, which is the same only for spaces within the width.
  lemma NegativePrecisionOfString(s: string, width: nat, taken: Flags)
    requires taken.precision
    ensures StringConversion(s, width, 0, taken) == StandardString(s, width, 0, taken.(precision := false))
      <==> |s| <= width && forall k :: 0 <= k < |s| ==> s[k] == ' '
  {
    var code, standard := StringConversion(s, width, 0, taken), StandardString(s, width, 0, taken.(precision := false));
    var missing := Short(|s|, width);
    assert code == Repeat(' ', width);
    var at := if taken.left then 0 else missing;
    if |s| <= width {
      assert forall k :: 0 <= k < |s| ==> standard[at + k] == s[k];
      assert code == standard ==> forall k :: 0 <= k < |s| ==> s[k] == code[at + k];
    }
  }

  // ------------------------------------------------------------ two such calls

  // printf("%.*d", -1, 0) prints nothing, where the standard asks for "0".
  lemma NegativePrecisionLosesZero()
    ensures Prints("%.*d", 0, [IntArg(-1), IntArg(0)], "")
    ensures StandardConversion('d', 0, 0, 0, NO_FLAGS) == "0"
  {
    hide StandardConversion, ZeroIsHarmless;
    var item, args := Conversion("", NoWidth, StarPrecision, "", 'd'), [IntArg(-1), IntArg(0)];
    assert Unparse(item) == "%.*d" && "%.*d"[0..4] == "%.*d";
    NoZeroPrinted(NO_FLAGS.(precision := true));
    assert args[1..] == [IntArg(0)];
    assert Perform(item, args) == Step("", 1, []);
    EndPrints("%.*d", []);
    ItemPrints("%.*d", 0, item, args, 4, "");
    ZeroExpected();
  }

  lemma NoZeroPrinted(flags: Flags)
    requires flags == NO_FLAGS.(precision := true)
    ensures IntegerConversion('d', 0, 0, 0, flags) == ""
  {
  }

  lemma ZeroExpected()
    ensures StandardConversion('d', 0, 0, 0, NO_FLAGS) == "0"
  {
  }

  const ZEROS: Flags := NO_FLAGS.(zeropad := true)

  // printf("%033d", 1) does not print the standard's field, 32 zeros and the digit: the
  // buffer holds 32 characters.
  lemma WideZerosAreCut()
    ensures Prints("%033d", 0, [IntArg(1)], IntegerConversion('d', 1, 33, 0, ZEROS))
    ensures IntegerConversion('d', 1, 33, 0, ZEROS) != StandardConversion('d', 1, 33, 0, ZEROS)
  {
    hide IntegerConversion, StandardConversion;
    var item, args := Conversion("0", Columns("33"), NoPrecision, "", 'd'), [IntArg(1)];
    assert Unparse(item) == "%033d" && "%033d"[0..5] == "%033d";
    assert NumberOf("33", 0) == 33;
    assert Perform(item, args) == Step(IntegerConversion('d', 1, 33, 0, ZEROS), 1, []);
    EndPrints("%033d", []);
    ItemPrints("%033d", 0, item, args, 5, "");
    DirectiveIsStandard('d', 1, 33, 0, ZEROS);
  }

  // printf("%.*s", -1, "abc") prints nothing, where the standard asks for "abc".
  lemma NegativePrecisionLosesString()
    ensures Prints("%.*s", 0, [IntArg(-1), StrArg("abc")], "")
    ensures StandardString("abc", 0, 0, NO_FLAGS) == "abc"
  {
    var item := Conversion("", NoWidth, StarPrecision, "", 's');
    assert Unparse(item) == "%.*s" && "%.*s"[0..4] == "%.*s";
    var args := [IntArg(-1), StrArg("abc")];
    assert args[1..] == [StrArg("abc")];
    assert Perform(item, args).Step? && Perform(item, args).text == "";
    EndPrints("%.*s", Perform(item, args).args);
    ItemPrints("%.*s", 0, item, args, 4, "");
  }

  // ------------------------------------------------------------ truncation

  // What the standard asks of snprintf: as many characters as leave room for the NUL,
  // then the NUL, and nothing else.
  predicate IsTruncated(before: string, after: string, offset: nat, text: string, n: nat)
    requires 0 < n && offset + n <= |before| == |after|
  {
    var stored := Min(|text|, n - 1);
    && after[offset..offset + stored] == text[..stored] && after[offset + stored] == NUL
    && after[..offset] == before[..offset] && after[offset + stored + 1..] == before[offset + stored + 1..]
  }

  lemma TruncatedTo(before: string, offset: nat, text: string, n: nat)
    requires 0 < n && offset + n <= |before|
    ensures var stored := Min(|text|, Min(n, INT_MAX) - 1);
      Terminated(before, offset, text, n) == before[..offset] + (text[..stored] + [NUL]) + before[offset + stored + 1..]
  {
    var stored := Min(|text|, Min(n, INT_MAX) - 1);
    var put := text[..stored] + [NUL];
    assert put[..|put|] == put;
  }

  // After snprintf with a buffer of any size: the code takes sizes above INT_MAX as
  // INT_MAX, and so it does what the standard asks exactly when the size is no larger, or
  // the text shorter. What the text is does not depend on the size, nor does the result.
  lemma Truncation(before: string, offset: nat, text: string, n: nat)
    requires 0 < n && offset + n <= |before|
    ensures n <= INT_MAX || |text| < INT_MAX ==>
      IsTruncated(before, Terminated(before, offset, text, n), offset, text, n)
    ensures NUL !in text ==>
      (IsTruncated(before, Terminated(before, offset, text, n), offset, text, n) <==>
       n <= INT_MAX || |text| < INT_MAX)
  {
    hide Terminated;
    var after := Terminated(before, offset, text, n);
    TruncatedTo(before, offset, text, n);
    if n > INT_MAX && |text| >= INT_MAX {
      var stored := Min(|text|, n - 1);
      assert after[offset..offset + stored][INT_MAX - 1] == after[offset + INT_MAX - 1] == NUL;
      assert text[..stored][INT_MAX - 1] == text[INT_MAX - 1] && text[INT_MAX - 1] in text;
    }
  }

  // The result of a call is the length of the text, if it is an int.
  lemma ResultIsLength(text: string)
    ensures ToInt(|text|) == |text| <==> |text| <= INT_MAX
  {
  }
}
