// The fields of section 7.19.6.1 of ISO/IEC 9899:1999, read off the text of a directive:
// flag characters, digits, length modifier and specifier. Nothing here is shared with
// what the code is modelled by.
module StandardText {
  import opened Bits
  import opened FormatText
  import opened FormatGrammar

  // ------------------------------------------------------------ numbers

  // The value that a wraps to in a type of so many values
  function Wrapped(a: int, limit: nat, signed: bool): (r: int)
    requires limit > 0 && limit % 2 == 0
    ensures if signed then -(limit / 2) <= r < limit / 2 else 0 <= r < limit
  {
    var u := a % limit;
    if signed && u >= limit / 2 then u - limit else u
  }

  // It is the one value of the type that is congruent to a.
  lemma WrappedIsTheOne(a: int, limit: nat, signed: bool, v: int)
    requires limit > 0 && limit % 2 == 0
    requires if signed then -(limit / 2) <= v < limit / 2 else 0 <= v < limit
    ensures v == Wrapped(a, limit, signed) <==> (v - a) % limit == 0
  {
    var u, q := a % limit, a / limit;
    assert a == q * limit + u;
    if v == Wrapped(a, limit, signed) {
      var k := if v == u then -q else -q - 1;
      assert k * limit == if v == u then -q * limit else -q * limit - limit;
      DivModUnique(v - a, limit, k, 0);
    } else if (v - a) % limit == 0 {
      var k := (v - a) / limit;
      assert v == (q + k) * limit + u;
      DivModUnique(v, limit, q + k, u);
      DivModUnique(v, limit, if v < 0 then -1 else 0, if v < 0 then v + limit else v);
    }
  }

  // The number of values of the type that a length modifier stands for
  function TypeSize(length: string): nat
  {
    if length == "hh" then 0x100
    else if length == "h" then 0x1_0000
    else if length == "" then 0x1_0000_0000
    else 0x1_0000_0000_0000_0000
  }

  // The digits of a number, none for zero
  function Spelled(v: nat, letters: string): string
    requires |letters| >= 2
  {
    if v == 0 then "" else Spelled(v / |letters|, letters) + [letters[v % |letters|]]
  }

  // The number that decimal digits spell
  function ValueOf(digits: string): nat
    requires forall i :: 0 <= i < |digits| ==> '0' <= digits[i] <= '9'
  {
    if digits == "" then 0
    else 10 * ValueOf(digits[..|digits| - 1]) + (digits[|digits| - 1] as int - '0' as int)
  }

  function Times(n: nat, c: char): (r: string)
    ensures |r| == n
  {
    seq(n, _ => c)
  }

  // ------------------------------------------------------------ directives

  // The text of a directive: flag characters, then a width that does not start with a
  // zero, a precision, and a length modifier
  predicate IsDirectiveText(item: Item)
  {
    && item.Conversion? && HasNumbers(item)
    && (forall i :: 0 <= i < |item.flags| ==> item.flags[i] in "-+ #0")
    && (item.width.Columns? ==> item.width.digits != "" && item.width.digits[0] != '0')
    && (item.precision.Digits? ==> item.precision.digits != "")
    && item.length in {"", "h", "hh", "l", "ll", "j", "z", "t"}
  }

  // What a directive says: '-', '+', ' ', '#', '0', the field width and the precision,
  // -1 if there is none
  datatype Marks = Marks(left: bool, plus: bool, space: bool, alt: bool, zero: bool, width: nat, precision: int)

  // The argument of a '*', an int
  function StarValue(args: seq<Arg>, i: nat): int
    requires i < |args| && args[i].IntArg?
  {
    Wrapped(args[i].value, 0x1_0000_0000, true)
  }

  // The arguments for '*' come first, and are ints.
  predicate HasStars(item: Item, args: seq<Arg>)
    requires item.Conversion?
  {
    var w := if item.width.StarWidth? then 1 else 0;
    var n := w + if item.precision.StarPrecision? then 1 else 0;
    |args| >= n && forall i :: 0 <= i < n ==> args[i].IntArg?
  }

  function Stars(item: Item): nat
    requires item.Conversion?
  {
    (if item.width.StarWidth? then 1 else 0) + if item.precision.StarPrecision? then 1 else 0
  }

  predicate OnlyDigits(s: string)
  {
    forall i :: 0 <= i < |s| ==> '0' <= s[i] <= '9'
  }

  predicate HasNumbers(item: Item)
    requires item.Conversion?
  {
    && (item.width.Columns? ==> OnlyDigits(item.width.digits))
    && (item.precision.Digits? ==> OnlyDigits(item.precision.digits))
  }

  // A negative width is a '-' flag and a width; a negative precision counts as omitted.
  function MarksOf(item: Item, args: seq<Arg>): Marks
    requires item.Conversion? && HasStars(item, args) && HasNumbers(item)
  {
    var w := match item.width
      case NoWidth => 0
      case Columns(digits) => ValueOf(digits)
      case StarWidth => StarValue(args, 0);
    var p := match item.precision
      case NoPrecision => -1
      case Dot => 0
      case Digits(digits) => ValueOf(digits)
      case StarPrecision => StarValue(args, if item.width.StarWidth? then 1 else 0);
    Marks('-' in item.flags || w < 0, '+' in item.flags, ' ' in item.flags, '#' in item.flags, '0' in item.flags,
          if w < 0 then -w else w, if p < 0 then -1 else p)
  }

  // ------------------------------------------------------------ fields

  // Padding to the width: after the text for '-', with zeros before the digits, with
  // spaces before the text otherwise
  function Laid(prefix: string, digits: string, left: bool, zeros: bool, width: nat): (r: string)
    ensures |r| >= width && |r| >= |prefix| + |digits|
  {
    var missing := if |prefix| + |digits| < width then width - |prefix| - |digits| else 0;
    if left then prefix + digits + Times(missing, ' ')
    else if zeros then prefix + Times(missing, '0') + digits
    else Times(missing, ' ') + prefix + digits
  }

  predicate IsIntegerSpecifier(c: char)
  {
    c == 'd' || c == 'i' || c == 'u' || c == 'o' || c == 'x' || c == 'X'
  }

  function Letters(spec: char): (r: string)
    ensures |r| == 8 || |r| == 10 || |r| == 16
  {
    if spec == 'o' then "01234567"
    else if spec == 'x' then "0123456789abcdef"
    else if spec == 'X' then "0123456789ABCDEF"
    else "0123456789"
  }

  function SignText(negative: bool, plus: bool, space: bool): string
  {
    if negative then "-" else if plus then "+" else if space then " " else ""
  }

  function PrefixText(spec: char, value: int, m: Marks): string
  {
    if spec == 'd' || spec == 'i' then SignText(value < 0, m.plus, m.space)
    else if m.alt && value != 0 && spec == 'x' then "0x"
    else if m.alt && value != 0 && spec == 'X' then "0X"
    else ""
  }

  // At least as many digits as the precision says, one by default; '#' makes an octal
  // number start with a zero.
  function DigitsText(spec: char, value: int, m: Marks): string
  {
    var spelled := Spelled(if value < 0 then -value else value, Letters(spec));
    var least := if m.precision < 0 then 1 else m.precision;
    var digits := Times(if |spelled| < least then least - |spelled| else 0, '0') + spelled;
    if m.alt && spec == 'o' && (digits == "" || digits[0] != '0') then "0" + digits else digits
  }

  function IntegerLaid(spec: char, value: int, m: Marks): (r: string)
    ensures |r| >= m.width
  {
    Laid(PrefixText(spec, value, m), DigitsText(spec, value, m), m.left, m.zero && m.precision < 0, m.width)
  }

  // The value to convert, in the type of the directive
  function Converted(item: Item, args: seq<Arg>): int
    requires item.Conversion? && Stars(item) < |args| && args[Stars(item)].IntArg?
  {
    Wrapped(args[Stars(item)].value, TypeSize(item.length), item.spec == 'd' || item.spec == 'i')
  }

  // No more than 32 characters of sign, prefix and digits; a space that finds no room may
  // be made up by padding.
  predicate FitsIn32(spec: char, value: int, m: Marks)
  {
    var prefix, digits := PrefixText(spec, value, m), DigitsText(spec, value, m);
    && (m.zero && !m.left && m.precision < 0 ==> m.width <= 32)
    && (|prefix| + |digits| <= 32 || (prefix == " " && |digits| == 32 < m.width && !m.left))
  }

  // A precision of zero instead of none changes nothing.
  predicate ZeroWillDo(spec: char, value: int, m: Marks)
  {
    && (value != 0 || (m.alt && spec == 'o'))
    && (m.zero && !m.left ==> m.width <= |PrefixText(spec, value, m)| + |DigitsText(spec, value, m)|)
  }

  // The argument of a '*' precision is negative.
  predicate TakesNegative(item: Item, args: seq<Arg>)
    requires item.Conversion? && HasStars(item, args)
  {
    item.precision.StarPrecision? && StarValue(args, if item.width.StarWidth? then 1 else 0) < 0
  }

  // An integer conversion and its arguments
  predicate IsIntegerCall(item: Item, args: seq<Arg>)
  {
    && item.Conversion? && IsIntegerSpecifier(item.spec) && HasNumbers(item) && HasStars(item, args)
    && Stars(item) < |args| && args[Stars(item)].IntArg?
  }

  // ------------------------------------------------------------ other conversions

  // A conversion of one argument, with its other arguments
  predicate IsCall(item: Item, args: seq<Arg>)
  {
    item.Conversion? && HasNumbers(item) && HasStars(item, args) && Stars(item) < |args|
  }

  function CharLaid(c: char, m: Marks): string
  {
    Laid("", [c], m.left, false, m.width)
  }

  // The characters of a string that a precision lets through
  function StringLaid(s: string, m: Marks): string
  {
    Laid("", if 0 <= m.precision < |s| then s[..m.precision] else s, m.left, false, m.width)
  }

  // The number that a text says, with or without '-'
  predicate SaysNumber(text: string, v: int)
  {
    if text != "" && text[0] == '-' then text != "-" && OnlyDigits(text[1..]) && v == -(ValueOf(text[1..]) as int)
    else text != "" && OnlyDigits(text) && v == ValueOf(text)
  }
}
