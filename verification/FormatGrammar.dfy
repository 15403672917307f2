// The grammar of format strings. A format is a list of items; the loop of src/printf.c
// recovers each item from its text, and finds items in every format it can read.
module FormatGrammar {
  import opened IntegerText
  import opened IntegerTheorems
  import opened FormatText

  datatype Width = NoWidth | Columns(digits: string) | StarWidth

  datatype Precision = NoPrecision | Dot | Digits(digits: string) | StarPrecision

  // A conversion whose specifier is not one of the known letters puts it out.
  datatype Item =
    | Literal(c: char)
    | Conversion(flags: string, width: Width, precision: Precision, length: string, spec: char)

  // ------------------------------------------------------------ text

  // What %u, %x and %o print: a numeral, or "0"
  function Printed(v: nat, base: Base): string
  {
    if v == 0 then "0" else Numeral(v, base, false)
  }

  function Decimal(n: nat): string
  {
    Printed(n, 10)
  }

  function WidthText(w: Width): string
  {
    match w
    case NoWidth => ""
    case Columns(digits) => digits
    case StarWidth => "*"
  }

  function PrecisionText(p: Precision): string
  {
    match p
    case NoPrecision => ""
    case Dot => "."
    case Digits(digits) => "." + digits
    case StarPrecision => ".*"
  }

  // From the length modifier on, from the precision on, from the width on
  function EndText(item: Item): (r: string)
    requires item.Conversion?
    ensures r != ""
  {
    item.length + [item.spec]
  }

  function TailText(item: Item): (r: string)
    requires item.Conversion?
    ensures r != ""
  {
    PrecisionText(item.precision) + EndText(item)
  }

  function HeadText(item: Item): (r: string)
    requires item.Conversion?
    ensures r != ""
  {
    WidthText(item.width) + TailText(item)
  }

  function Unparse(item: Item): string
  {
    match item
    case Literal(c) => [c]
    case Conversion(flags, _, _, _, _) => "%" + (flags + HeadText(item))
  }

  function UnparseAll(items: seq<Item>): string
  {
    if items == [] then "" else Unparse(items[0]) + UnparseAll(items[1..])
  }

  predicate AllFlags(s: string)
  {
    forall i :: 0 <= i < |s| ==> IsFlag(s[i])
  }

  predicate AllDigits(s: string)
  {
    forall i :: 0 <= i < |s| ==> IsDigit(s[i])
  }

  // The width w is read as such before the character c.
  predicate WidthStands(w: Width, c: char)
  {
    match w
    case NoWidth => !IsDigit(c) && c != '*'
    case Columns(digits) => digits != "" && AllDigits(digits) && !IsDigit(c)
    case StarWidth => true
  }

  predicate PrecisionStands(p: Precision, c: char)
  {
    match p
    case NoPrecision => c != '.'
    case Dot => !IsDigit(c) && c != '*'
    case Digits(digits) => digits != "" && AllDigits(digits) && !IsDigit(c)
    case StarPrecision => true
  }

  predicate LengthStands(s: string, c: char)
  {
    if s == "" then c != 'l' && c != 'h' && c != 't' && c != 'j' && c != 'z'
    else if s == "l" then c != 'l'
    else if s == "h" then c != 'h'
    else s == "ll" || s == "hh" || s == "t" || s == "j" || s == "z"
  }

  // The text of the item can be read in only one way.
  predicate WellFormed(item: Item)
  {
    match item
    case Literal(c) => c != '%'
    case Conversion(flags, width, precision, length, spec) =>
      && AllFlags(flags) && !IsFlag(HeadText(item)[0])
      && WidthStands(width, TailText(item)[0])
      && PrecisionStands(precision, EndText(item)[0])
      && LengthStands(length, spec)
  }

  predicate AllWellFormed(items: seq<Item>)
  {
    items == [] || (WellFormed(items[0]) && AllWellFormed(items[1..]))
  }

  // ------------------------------------------------------------ meaning

  function FlagsOf(s: string, flags: Flags): Flags
  {
    if s == "" then flags else FlagsOf(s[1..], SetFlag(s[0], flags))
  }

  // What atou_ makes of digits
  function NumberOf(x: string, n: nat): nat
  {
    if x == "" then n else NumberOf(x[1..], (n * 10 + (x[0] as int - '0' as int)) % LIMIT_32)
  }

  function LengthFlags(s: string, flags: Flags): (r: Flags)
    ensures r.precision == flags.precision && r.pointer == flags.pointer
  {
    if s == "" then flags
    else if s[0] == 'h' then if |s| == 1 then flags.(shortArg := true) else flags.(shortArg := true, charArg := true)
    else if s[0] == 'l' && |s| > 1 then flags.(longArg := true, longLongArg := true)
    else flags.(longArg := true)
  }

  function TakeWidth(w: Width, c: Cursor): Cursor
    requires c.Cursor?
  {
    match w
    case NoWidth => c
    case Columns(digits) => c.(width := NumberOf(digits, 0))
    case StarWidth =>
      if c.args == [] || !c.args[0].IntArg? then Undefined
      else
        var v := ToSigned(c.args[0].value, LIMIT_32);
        c.(args := c.args[1..], width := Abs(v), flags := if v < 0 then c.flags.(left := true) else c.flags)
  }

  function TakePrecision(p: Precision, c: Cursor): Cursor
    requires c.Cursor?
  {
    match p
    case NoPrecision => c
    case Dot => c.(flags := c.flags.(precision := true))
    case Digits(digits) => c.(flags := c.flags.(precision := true), precision := NumberOf(digits, 0))
    case StarPrecision =>
      if c.args == [] || !c.args[0].IntArg? then Undefined
      else c.(flags := c.flags.(precision := true), args := c.args[1..],
              precision := PositivePart(ToSigned(c.args[0].value, LIMIT_32)))
  }

  function PositivePart(p: int): nat
  {
    if p > 0 then p else 0
  }

  // Flags, width, precision and length modifier of a conversion
  function Collected(item: Item, args: seq<Arg>): Cursor
    requires item.Conversion?
  {
    var c := TakeWidth(item.width, Cursor(0, args, FlagsOf(item.flags, NO_FLAGS), 0, 0));
    if !c.Cursor? then c
    else
      var d := TakePrecision(item.precision, c);
      if !d.Cursor? then d else d.(flags := LengthFlags(item.length, d.flags))
  }

  // What one item puts out, and the arguments that remain
  function Perform(item: Item, args: seq<Arg>): Step
  {
    match item
    case Literal(c) => Step([c], 0, args)
    case Conversion(_, _, _, _, spec) =>
      var c := Collected(item, args);
      if c.Cursor? then Convert(spec, c) else Unknown
  }

  predicate AllDefined(items: seq<Item>, args: seq<Arg>)
  {
    items == [] || (Perform(items[0], args).Step? && AllDefined(items[1..], Perform(items[0], args).args))
  }

  function PerformAll(items: seq<Item>, args: seq<Arg>): string
    requires AllDefined(items, args)
  {
    if items == [] then "" else Perform(items[0], args).text + PerformAll(items[1..], Perform(items[0], args).args)
  }

  // The arguments that a list of items leaves
  function ArgsAfter(items: seq<Item>, args: seq<Arg>): seq<Arg>
    requires AllDefined(items, args)
  {
    if items == [] then args else ArgsAfter(items[1..], Perform(items[0], args).args)
  }

  // ------------------------------------------------------------ numbers

  lemma {:induction false} NumberOfLast(x: string, c: char, n: nat)
    ensures NumberOf(x + [c], n) == (NumberOf(x, n) * 10 + (c as int - '0' as int)) % LIMIT_32
    decreases |x|
  {
    if x == "" {
      assert (x + [c])[1..] == "";
    } else {
      assert (x + [c])[1..] == x[1..] + [c];
      NumberOfLast(x[1..], c, (n * 10 + (x[0] as int - '0' as int)) % LIMIT_32);
    }
  }

  lemma TenfoldModulo(a: nat, d: nat)
    ensures (a % LIMIT_32 * 10 + d) % LIMIT_32 == (a * 10 + d) % LIMIT_32
  {
    assert a == a / LIMIT_32 * LIMIT_32 + a % LIMIT_32;
    assert a * 10 + d == a % LIMIT_32 * 10 + d + a / LIMIT_32 * 10 * LIMIT_32;
  }

  // atou_ gives the number that the digits spell, modulo 2^32.
  lemma {:induction false} NumberIsModulo(x: string)
    requires AllDigits(x)
    ensures NumberOf(x, 0) == ReadDigits(x, 10) % LIMIT_32
    decreases |x|
  {
    if x != "" {
      var n := |x| - 1;
      NumberIsModulo(x[..n]);
      NumberOfLast(x[..n], x[n], 0);
      assert x[..n] + [x[n]] == x;
      TenfoldModulo(ReadDigits(x[..n], 10), DigitValue(x[n]));
    }
  }

  lemma ZeroReads()
    ensures AllDigits("0") && NumberOf("0", 0) == 0
  {
    assert "0"[1..] == "";
  }

  // It reads a printed 32-bit number back.
  lemma DecimalReadsBack(v: nat)
    requires v < LIMIT_32
    ensures Decimal(v) != "" && AllDigits(Decimal(v)) && NumberOf(Decimal(v), 0) == v
    ensures v > 0 ==> Decimal(v)[0] != '0'
  {
    hide NumberOf, ReadDigits, Numeral;
    var x := Decimal(v);
    if v == 0 {
      ZeroReads();
    } else {
      forall k | 0 <= k < |x| ensures IsDigit(x[k]) {
        DigitsAreDigits(v, 10, false, k);
      }
      NoLeadingZero(v, 10, false);
      NumberIsModulo(x);
      NumeralReadsBack(v, 10, false);
    }
  }

  // ------------------------------------------------------------ parsing undoes unparsing

  // x stands at position i of f.
  predicate Has(f: string, i: nat, x: string)
  {
    i + |x| <= |f| && f[i..i + |x|] == x
  }

  lemma HasParts(f: string, i: nat, x: string, y: string, next: nat)
    requires Has(f, i, x + y) && next == i + |x|
    ensures Has(f, i, x) && Has(f, next, y) && (y != "" ==> next < |f| && f[next] == y[0])
  {
    assert f[i..i + |x|] == f[i..i + |x + y|][..|x|];
    assert f[next..next + |y|] == f[i..i + |x + y|][|x|..];
    assert y != "" ==> f[next] == f[next..next + |y|][0];
  }

  lemma HasTail(f: string, i: nat, x: string)
    requires Has(f, i, x) && x != ""
    ensures f[i] == x[0] && Has(f, i + 1, x[1..])
  {
    assert f[i] == f[i..i + |x|][0];
    assert f[i + 1..i + |x|] == f[i..i + |x|][1..];
  }

  lemma {:induction false} FlagsRead(f: string, i: nat, x: string, flags: Flags, next: nat)
    requires Has(f, i, x) && AllFlags(x) && next == i + |x| && !IsFlag(CharAt(f, next))
    ensures ParseFlags(f, i, flags) == (FlagsOf(x, flags), next)
    decreases |x|
  {
    if x != "" {
      HasTail(f, i, x);
      FlagsRead(f, i + 1, x[1..], SetFlag(x[0], flags), next);
    }
  }

  lemma {:induction false} NumberRead(f: string, i: nat, x: string, n: nat, next: nat)
    requires Has(f, i, x) && AllDigits(x) && next == i + |x| && !IsDigit(CharAt(f, next))
    ensures ParseNumber(f, i, n) == (NumberOf(x, n), next)
    decreases |x|
  {
    if x != "" {
      HasTail(f, i, x);
      NumberRead(f, i + 1, x[1..], (n * 10 + (x[0] as int - '0' as int)) % LIMIT_32, next);
    }
  }

  function Moved(c: Cursor, j: nat): Cursor
  {
    if c.Cursor? then c.(i := j) else c
  }

  lemma WidthRead(f: string, w: Width, c: Cursor, next: nat)
    requires c.Cursor? && Has(f, c.i, WidthText(w)) && next == c.i + |WidthText(w)|
    requires next < |f| && WidthStands(w, f[next]) && c.width == 0
    ensures ParseWidth(f, c) == Moved(TakeWidth(w, c), next)
  {
    match w
    case NoWidth =>
    case Columns(digits) =>
      NumberRead(f, c.i, digits, 0, next);
      HasTail(f, c.i, digits);
    case StarWidth =>
      HasTail(f, c.i, "*");
  }

  lemma PrecisionRead(f: string, p: Precision, c: Cursor, next: nat)
    requires c.Cursor? && Has(f, c.i, PrecisionText(p)) && next == c.i + |PrecisionText(p)|
    requires next < |f| && PrecisionStands(p, f[next]) && c.precision == 0
    ensures ParsePrecision(f, c) == Moved(TakePrecision(p, c), next)
  {
    var x := PrecisionText(p);
    if x != "" {
      HasTail(f, c.i, x);
      if |x| > 1 {
        HasTail(f, c.i + 1, x[1..]);
      }
      if p.Digits? {
        assert x[1..] == p.digits;
        NumberRead(f, c.i + 1, p.digits, 0, next);
      }
    }
  }

  lemma LengthRead(f: string, s: string, c: Cursor, next: nat)
    requires c.Cursor? && Has(f, c.i, s) && next == c.i + |s| && next < |f| && LengthStands(s, f[next])
    ensures ParseLength(f, c) == c.(i := next, flags := LengthFlags(s, c.flags))
  {
    if s != "" {
      HasTail(f, c.i, s);
      if |s| == 2 {
        HasTail(f, c.i + 1, s[1..]);
      }
    }
  }

  // Where the parts of a conversion stand
  datatype Places = Places(width: nat, precision: nat, length: nat, spec: nat)

  function PlacesOf(i: nat, item: Item): Places
    requires item.Conversion?
  {
    var j := i + 1 + |item.flags|;
    var k := j + |WidthText(item.width)|;
    var l := k + |PrecisionText(item.precision)|;
    Places(j, k, l, l + |item.length|)
  }

  // Each part stands at its place, before a character that ends it.
  ghost predicate PartsStand(f: string, i: nat, item: Item, p: Places)
    requires item.Conversion?
  {
    && i < |f| && f[i] == '%' && Has(f, i + 1, item.flags)
    && p.width < |f| && !IsFlag(f[p.width]) && Has(f, p.width, WidthText(item.width))
    && p.precision < |f| && WidthStands(item.width, f[p.precision])
    && Has(f, p.precision, PrecisionText(item.precision))
    && p.length < |f| && PrecisionStands(item.precision, f[p.length]) && Has(f, p.length, item.length)
    && p.spec < |f| && f[p.spec] == item.spec && i + |Unparse(item)| == p.spec + 1
  }

  lemma ConversionParts(f: string, i: nat, item: Item)
    requires item.Conversion? && WellFormed(item) && Has(f, i, Unparse(item))
    ensures PartsStand(f, i, item, PlacesOf(i, item))
  {
    var p := PlacesOf(i, item);
    HasParts(f, i, "%", item.flags + HeadText(item), i + 1);
    HasTail(f, i, "%");
    HasParts(f, i + 1, item.flags, HeadText(item), p.width);
    HasParts(f, p.width, WidthText(item.width), TailText(item), p.precision);
    HasParts(f, p.precision, PrecisionText(item.precision), EndText(item), p.length);
    HasParts(f, p.length, item.length, [item.spec], p.spec);
  }

  lemma TakeMoved(w: Width, p: Precision, c: Cursor, j: nat)
    requires c.Cursor?
    ensures TakeWidth(w, c.(i := j)) == Moved(TakeWidth(w, c), j)
    ensures TakePrecision(p, c.(i := j)) == Moved(TakePrecision(p, c), j)
    ensures TakeWidth(w, c).Cursor? ==> TakeWidth(w, c).precision == c.precision
    ensures TakeWidth(w, c) != Stopped && TakePrecision(p, c) != Stopped
  {
  }

  // From the precision on
  lemma TailRead(f: string, i: nat, item: Item, p: Places, c: Cursor)
    requires item.Conversion? && PartsStand(f, i, item, p) && p == PlacesOf(i, item) && LengthStands(item.length, item.spec)
    requires c.Cursor? && c.precision == 0
    ensures var d := TakePrecision(item.precision, c);
      && ParsePrecision(f, c.(i := p.precision)) == Moved(d, p.length)
      && (d.Cursor? ==>
          ParseLength(f, d.(i := p.length)) == d.(i := p.spec, flags := LengthFlags(item.length, d.flags)))
  {
    TakeMoved(item.width, item.precision, c, p.precision);
    PrecisionRead(f, item.precision, c.(i := p.precision), p.length);
    var d := TakePrecision(item.precision, c);
    if d.Cursor? {
      LengthRead(f, item.length, d.(i := p.length), p.spec);
    }
  }

  // The text after '%' parses to what the conversion says.
  lemma ConversionRead(f: string, i: nat, item: Item, args: seq<Arg>)
    requires item.Conversion? && WellFormed(item) && Has(f, i, Unparse(item))
    ensures ParseDirective(f, i + 1, args) == Moved(Collected(item, args), i + |Unparse(item)| - 1)
  {
    var c0, p := Cursor(0, args, FlagsOf(item.flags, NO_FLAGS), 0, 0), PlacesOf(i, item);
    ConversionParts(f, i, item);
    FlagsRead(f, i + 1, item.flags, NO_FLAGS, p.width);
    TakeMoved(item.width, item.precision, c0, p.width);
    WidthRead(f, item.width, c0.(i := p.width), p.precision);
    var c := TakeWidth(item.width, c0);
    if c.Cursor? {
      TailRead(f, i, item, p, c);
    }
  }

  // The same output and arguments; b goes on at next.
  predicate SameStep(a: Step, b: Step, next: nat)
  {
    if a.Step? then b == Step(a.text, next, a.args) else b == Unknown
  }

  lemma ConvertMoved(spec: char, c: Cursor, j: nat)
    requires c.Cursor?
    ensures SameStep(Convert(spec, c), Convert(spec, c.(i := j)), j + 1)
  {
  }

  lemma CollectedGoesOn(item: Item, args: seq<Arg>)
    requires item.Conversion?
    ensures Collected(item, args) != Stopped
  {
  }

  // The directive of a conversion's text is the conversion.
  lemma DirectiveRead(f: string, i: nat, item: Item, args: seq<Arg>)
    requires item.Conversion? && WellFormed(item) && Has(f, i, Unparse(item))
    ensures i < |f| && f[i] == '%' && SameStep(Perform(item, args), Directive(f, i, args), i + |Unparse(item)|)
  {
    hide ParseDirective, Directive, Convert, Collected, Unparse, Has;
    var c, m := Collected(item, args), i + |Unparse(item)| - 1;
    ConversionParts(f, i, item);
    ConversionRead(f, i, item, args);
    CollectedGoesOn(item, args);
    DirectiveIs(f, i, args);
    if c.Cursor? {
      ConvertMoved(item.spec, c, m);
    }
  }

  lemma FirstItem(f: string, i: nat, item: Item, args: seq<Arg>, next: nat)
    requires WellFormed(item) && Has(f, i, Unparse(item)) && Perform(item, args).Step?
    requires next == i + |Unparse(item)|
    ensures var step := Perform(item, args);
      && Render(f, i, args) == step.text + Render(f, next, step.args)
      && Defined(f, i, args) == Defined(f, next, step.args)
  {
    if item.Literal? {
      HasTail(f, i, Unparse(item));
    } else {
      DirectiveRead(f, i, item, args);
      var step := Perform(item, args);
      OneDirective(f, i, args, Step(step.text, next, step.args));
    }
  }

  lemma OneDirective(f: string, i: nat, args: seq<Arg>, step: Step)
    requires i < |f| && f[i] == '%' && step.Step? && Directive(f, i, args) == step
    ensures Render(f, i, args) == step.text + Render(f, step.next, step.args)
    ensures Defined(f, i, args) == Defined(f, step.next, step.args)
  {
  }

  lemma ItemPrints(f: string, i: nat, item: Item, args: seq<Arg>, next: nat, text: string)
    requires WellFormed(item) && Has(f, i, Unparse(item)) && Perform(item, args).Step?
    requires next == i + |Unparse(item)| && Prints(f, next, Perform(item, args).args, text)
    ensures Prints(f, i, args, Perform(item, args).text + text)
  {
    FirstItem(f, i, item, args, next);
  }

  // A format renders as its items do, one after the other, and then as the rest of it.
  lemma {:induction false} FormatIsItems(f: string, i: nat, items: seq<Item>, args: seq<Arg>, next: nat, text: string)
    requires AllWellFormed(items) && AllDefined(items, args)
    requires Has(f, i, UnparseAll(items)) && next == i + |UnparseAll(items)|
    requires Prints(f, next, ArgsAfter(items, args), text)
    ensures Prints(f, i, args, PerformAll(items, args) + text)
    decreases |items|
  {
    hide Perform, WellFormed, Unparse, Prints, Has;
    if items == [] {
      assert "" + text == text;
    } else {
      var step, rest, second := Perform(items[0], args), items[1..], i + |Unparse(items[0])|;
      HasParts(f, i, Unparse(items[0]), UnparseAll(rest), second);
      FormatIsItems(f, second, rest, step.args, next, text);
      var tail := PerformAll(rest, step.args) + text;
      ItemPrints(f, i, items[0], args, second, tail);
      assert PerformAll(items, args) + text == step.text + tail;
    }
  }

  // The whole format
  lemma RenderIsItems(items: seq<Item>, args: seq<Arg>)
    requires AllWellFormed(items) && AllDefined(items, args)
    ensures Prints(UnparseAll(items), 0, args, PerformAll(items, args))
  {
    var f := UnparseAll(items);
    assert f[0..|f|] == f;
    FormatIsItems(f, 0, items, args, |f|, "");
    assert PerformAll(items, args) + "" == PerformAll(items, args);
  }
}
