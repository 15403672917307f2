// The meaning of a format string: what format_string_loop of src/printf.c emits for it,
// directive by directive. A format is the text before its terminating NUL.
module FormatText {
  import opened Bits
  import opened IntegerText

  const INT_MAX: nat := 0x7FFF_FFFF
  const PRINTF_MAX_POSSIBLE_BUFFER_SIZE: nat := INT_MAX
  const NUL: char := '\0'

  // A variadic argument. Integers are taken modulo the width they are read with.
  datatype Arg = IntArg(value: int) | PtrArg(addr: nat) | StrArg(text: string) | NullStr

  function CharAt(f: string, i: nat): char
  {
    if i < |f| then f[i] else NUL
  }

  predicate IsDigit(c: char)
  {
    '0' <= c <= '9'
  }

  function ToUnsigned(v: int, modulus: nat): (r: nat)
    requires modulus > 0
    ensures r < modulus
  {
    v % modulus
  }

  // Two's complement
  function ToSigned(v: int, modulus: nat): int
    requires modulus > 0
  {
    var u := v % modulus;
    if 2 * u < modulus then u else u - modulus
  }

  const LIMIT_8: nat := 0x100
  const LIMIT_16: nat := 0x1_0000
  const LIMIT_32: nat := 0x1_0000_0000

  function Abs(v: int): nat
  {
    if v < 0 then -v else v
  }

  // ------------------------------------------------------------ parsing

  function SetFlag(c: char, flags: Flags): Flags
  {
    if c == '0' then flags.(zeropad := true)
    else if c == '-' then flags.(left := true)
    else if c == '+' then flags.(plus := true)
    else if c == ' ' then flags.(space := true)
    else flags.(hash := true)
  }

  predicate IsFlag(c: char)
  {
    c == '0' || c == '-' || c == '+' || c == ' ' || c == '#'
  }

  // parse_flags
  function ParseFlags(f: string, i: nat, flags: Flags): (r: (Flags, nat))
    ensures i <= r.1 <= Max(i, |f|)
    decreases |f| - i
  {
    if i < |f| && IsFlag(f[i]) then ParseFlags(f, i + 1, SetFlag(f[i], flags)) else (flags, i)
  }

  // atou_: the number that starts at i, from the value of its digits so far
  function ParseNumber(f: string, i: nat, n: nat): (r: (nat, nat))
    ensures i <= r.1 <= Max(i, |f|)
    decreases |f| - i
  {
    if i < |f| && IsDigit(f[i]) then ParseNumber(f, i + 1, (n * 10 + (f[i] as int - '0' as int)) % LIMIT_32)
    else (n, i)
  }

  // What the loop knows inside a directive. Stopped: the format ended and the loop
  // returned. Undefined: a wrong or missing argument, a format that ends where the loop
  // does not look, or a directive that is not modelled.
  datatype Cursor =
    | Cursor(i: nat, args: seq<Arg>, flags: Flags, width: nat, precision: nat)
    | Stopped
    | Undefined

  // ADVANCE_IN_FORMAT_STRING
  function Advance(f: string, c: Cursor): Cursor
    requires c.Cursor?
  {
    if c.i + 1 < |f| then c.(i := c.i + 1) else Stopped
  }

  function ParseWidth(f: string, c: Cursor): (r: Cursor)
    requires c.Cursor?
    ensures r.Cursor? ==> c.i <= r.i <= Max(c.i, |f|)
  {
    if IsDigit(CharAt(f, c.i)) then
      var (width, i) := ParseNumber(f, c.i, 0);
      c.(i := i, width := width)
    else if CharAt(f, c.i) != '*' then c
    else if c.args == [] || !c.args[0].IntArg? then Undefined
    else
      var w := ToSigned(c.args[0].value, LIMIT_32);
      var flags := if w < 0 then c.flags.(left := true) else c.flags;
      Advance(f, c.(args := c.args[1..], width := Abs(w), flags := flags))
  }

  function ParsePrecision(f: string, c: Cursor): (r: Cursor)
    requires c.Cursor?
    ensures r.Cursor? ==> c.i <= r.i <= Max(c.i, |f|)
  {
    if CharAt(f, c.i) != '.' then c
    else
      var d := Advance(f, c.(flags := c.flags.(precision := true)));
      if d.Stopped? then Stopped
      else if IsDigit(CharAt(f, d.i)) then
        var (precision, i) := ParseNumber(f, d.i, 0);
        d.(i := i, precision := precision)
      else if CharAt(f, d.i) != '*' then d
      else if d.args == [] || !d.args[0].IntArg? then Undefined
      else
        var p := ToSigned(d.args[0].value, LIMIT_32);
        Advance(f, d.(args := d.args[1..], precision := if p > 0 then p else 0))
  }

  function ParseLength(f: string, c: Cursor): (r: Cursor)
    requires c.Cursor?
    ensures r.Cursor? ==> c.i <= r.i <= Max(c.i, |f|) && r.precision == c.precision
    ensures r.Cursor? ==> r.flags.precision == c.flags.precision && r.flags.pointer == c.flags.pointer
  {
    match CharAt(f, c.i)
    case 'l' =>
      var d := Advance(f, c.(flags := c.flags.(longArg := true)));
      if !d.Cursor? || CharAt(f, d.i) != 'l' then d
      else Advance(f, d.(flags := c.flags.(longArg := true, longLongArg := true)))
    case 'h' =>
      var d := Advance(f, c.(flags := c.flags.(shortArg := true)));
      if !d.Cursor? || CharAt(f, d.i) != 'h' then d
      else Advance(f, d.(flags := c.flags.(shortArg := true, charArg := true)))
    case 't' => Advance(f, c.(flags := c.flags.(longArg := true)))
    case 'j' => Advance(f, c.(flags := c.flags.(longArg := true)))
    case 'z' => Advance(f, c.(flags := c.flags.(longArg := true)))
    case _ => c
  }

  // Flags and width, from the character after '%'
  function ParseHead(f: string, i: nat, args: seq<Arg>): (r: Cursor)
    ensures r.Cursor? ==> i <= r.i <= Max(i, |f|)
  {
    var (flags, j) := ParseFlags(f, i, NO_FLAGS);
    ParseWidth(f, Cursor(j, args, flags, 0, 0))
  }

  // From the character after '%' to the specifier.
  function ParseDirective(f: string, i: nat, args: seq<Arg>): (r: Cursor)
    ensures r.Cursor? ==> i <= r.i <= Max(i, |f|)
  {
    if i >= |f| then Stopped
    else
      var c := ParseHead(f, i, args);
      if !c.Cursor? then c
      else
        var d := ParsePrecision(f, c);
        if !d.Cursor? then d else ParseLength(f, d)
  }

  // ------------------------------------------------------------ fields

  predicate IsInteger(c: char)
  {
    c == 'd' || c == 'i' || c == 'u' || c == 'x' || c == 'X' || c == 'o' || c == 'b'
  }

  function BaseOf(c: char): Base
  {
    if c == 'x' || c == 'X' then 16 else if c == 'o' then 8 else if c == 'b' then 2 else 10
  }

  // The flags print_integer gets.
  function IntegerFlags(c: char, base: Base, flags: Flags): Flags
  {
    var signed := c == 'd' || c == 'i';
    flags.(signed := signed, uppercase := c == 'X', hash := flags.hash && base != 10,
           plus := flags.plus && signed, space := flags.space && signed,
           zeropad := flags.zeropad && !flags.precision)
  }

  function ArgLimit(flags: Flags): nat
  {
    if flags.longLongArg || flags.longArg then LIMIT_64
    else if flags.charArg then LIMIT_8
    else if flags.shortArg then LIMIT_16
    else LIMIT_32
  }

  // The value that the conversion reads, as its length modifier says.
  function IntegerValue(c: char, v: int, flags: Flags): int
  {
    if c == 'd' || c == 'i' then ToSigned(v, ArgLimit(flags)) else ToUnsigned(v, ArgLimit(flags))
  }

  function IntegerConversion(c: char, v: int, width: nat, precision: nat, flags: Flags): string
  {
    var value := IntegerValue(c, v, flags);
    IntegerField(Abs(value), value < 0, BaseOf(c), precision, width, IntegerFlags(c, BaseOf(c), flags))
  }

  function CharConversion(v: int, width: nat, flags: Flags): string
  {
    var c, spaces := ToUnsigned(v, LIMIT_8) as char, Repeat(' ', Short(1, width));
    if flags.left then [c] + spaces else spaces + [c]
  }

  // strnlen_s_
  function StrNLen(s: string, limit: nat): nat
  {
    Min(|s|, limit)
  }

  function StringConversion(s: string, width: nat, precision: nat, flags: Flags): string
  {
    var n := StrNLen(s, if precision > 0 then precision else PRINTF_MAX_POSSIBLE_BUFFER_SIZE);
    var l := if flags.precision then Min(n, precision) else n;
    var shown, spaces := if flags.precision then s[..Min(|s|, precision)] else s, Repeat(' ', Short(l, width));
    if flags.left then shown + spaces else spaces + shown
  }

  const POINTER_FIELD: nat := 18

  function PointerConversion(addr: nat, precision: nat, flags: Flags): string
  {
    var f := flags.(zeropad := true, pointer := true);
    if addr == 0 then Padding("(nil)", POINTER_FIELD, f)
    else IntegerField(addr, false, 16, precision, POINTER_FIELD, f)
  }

  // One directive: what it emits, where the format goes on, and the arguments left.
  datatype Step = Step(text: string, next: nat, args: seq<Arg>) | Stop | Unknown

  // Floating point conversions and %n are not modelled.
  predicate IsLeftOut(c: char)
  {
    c == 'f' || c == 'F' || c == 'e' || c == 'E' || c == 'g' || c == 'G' || c == 'n'
  }

  function Convert(spec: char, c: Cursor): (r: Step)
    requires c.Cursor?
    ensures r.Step? ==> r.next == c.i + 1
    ensures r != Stop
  {
    if IsInteger(spec) then
      if c.args == [] || !c.args[0].IntArg? then Unknown
      else Step(IntegerConversion(spec, c.args[0].value, c.width, c.precision, c.flags), c.i + 1, c.args[1..])
    else if spec == 'c' then
      if c.args == [] || !c.args[0].IntArg? then Unknown
      else Step(CharConversion(c.args[0].value, c.width, c.flags), c.i + 1, c.args[1..])
    else if spec == 's' then
      if c.args == [] || !(c.args[0].StrArg? || c.args[0].NullStr?) then Unknown
      else if c.args[0].NullStr? then Step(Padding("(null)", c.width, c.flags), c.i + 1, c.args[1..])
      else Step(StringConversion(c.args[0].text, c.width, c.precision, c.flags), c.i + 1, c.args[1..])
    else if spec == 'p' then
      if c.args == [] || !c.args[0].PtrArg? then Unknown
      else Step(PointerConversion(c.args[0].addr % LIMIT_64, c.precision, c.flags), c.i + 1, c.args[1..])
    else if IsLeftOut(spec) then Unknown
    else Step([spec], c.i + 1, c.args)
  }

  // The directive whose '%' is at i.
  function Directive(f: string, i: nat, args: seq<Arg>): (r: Step)
    ensures r.Step? ==> i + 2 <= r.next <= |f|
  {
    match ParseDirective(f, i + 1, args)
    case Stopped => Stop
    case Undefined => Unknown
    case Cursor(j, rest, flags, width, precision) =>
      if j >= |f| then Unknown else Convert(f[j], Cursor(j, rest, flags, width, precision))
  }

  lemma DirectiveIs(f: string, i: nat, args: seq<Arg>)
    ensures match ParseDirective(f, i + 1, args)
      case Stopped => Directive(f, i, args) == Stop
      case Undefined => Directive(f, i, args) == Unknown
      case Cursor(j, rest, flags, width, precision) =>
        Directive(f, i, args) == if j >= |f| then Unknown else Convert(f[j], Cursor(j, rest, flags, width, precision))
  {
  }

  // Does the format, from i on, have a meaning for these arguments?
  predicate Defined(f: string, i: nat, args: seq<Arg>)
    decreases |f| - i
  {
    if i >= |f| then true
    else if f[i] != '%' then Defined(f, i + 1, args)
    else
      match Directive(f, i, args)
      case Stop => true
      case Unknown => false
      case Step(_, next, rest) => Defined(f, next, rest)
  }

  // What the format, from i on, emits.
  function Render(f: string, i: nat, args: seq<Arg>): string
    decreases |f| - i
  {
    if i >= |f| then ""
    else if f[i] != '%' then [f[i]] + Render(f, i + 1, args)
    else
      match Directive(f, i, args)
      case Step(text, next, rest) => text + Render(f, next, rest)
      case _ => ""
  }

  // From i on, the format has a meaning for the arguments, and emits the text.
  predicate Prints(f: string, i: nat, args: seq<Arg>, text: string)
  {
    Defined(f, i, args) && Render(f, i, args) == text
  }

  lemma EndPrints(f: string, args: seq<Arg>)
    ensures Prints(f, |f|, args, "")
  {
  }
}
