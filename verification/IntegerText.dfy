// The text of an integer conversion: what print_integer of src/printf.c builds in its
// reversed buffer, and what section 7.19.6.1 of ISO/IEC 9899:1999 asks for.
module IntegerText {
  import opened Bits
  import opened Sequences

  const PRINTF_INTEGER_BUFFER_SIZE: nat := 32

  // printf_unsigned_value_t has 64 bits.
  const LIMIT_64: nat := 0x1_0000_0000_0000_0000

  type Base = b: nat | b == 2 || b == 8 || b == 10 || b == 16 witness 2

  datatype Flags = Flags(
    zeropad: bool,
    left: bool,
    plus: bool,
    space: bool,
    hash: bool,
    uppercase: bool,
    charArg: bool,
    shortArg: bool,
    longArg: bool,
    longLongArg: bool,
    precision: bool,
    signed: bool,
    pointer: bool)

  const NO_FLAGS: Flags :=
    Flags(false, false, false, false, false, false, false, false, false, false, false, false, false)

  function Repeat(c: char, n: nat): (r: string)
    ensures |r| == n && forall i :: 0 <= i < n ==> r[i] == c
  {
    seq(n, _ => c)
  }

  // What is missing to reach n characters.
  function Short(len: nat, n: nat): nat
  {
    if len < n then n - len else 0
  }

  // ------------------------------------------------------------ digits

  function Digit(d: nat, uppercase: bool): char
    requires d < 16
  {
    if d < 10 then ('0' as int + d) as char else ((if uppercase then 'A' else 'a') as int + d - 10) as char
  }

  function DigitValue(c: char): nat
  {
    if '0' <= c <= '9' then c as int - '0' as int
    else if 'a' <= c <= 'f' then c as int - 'a' as int + 10
    else if 'A' <= c <= 'F' then c as int - 'A' as int + 10
    else 0
  }

  // The digits of a value, least significant first; none for 0.
  function DigitsRev(value: nat, base: Base, uppercase: bool): string
  {
    if value == 0 then "" else [Digit(value % base, uppercase)] + DigitsRev(value / base, base, uppercase)
  }

  // ------------------------------------------------------------ what print_integer builds
  // The text in the buffer, read the way it is emitted: from the last character written.

  function Cut(b: string): string
  {
    if |b| > PRINTF_INTEGER_BUFFER_SIZE then b[..PRINTF_INTEGER_BUFFER_SIZE] else b
  }

  function Generated(value: nat, base: Base, flags: Flags): string
  {
    if value == 0 then (if flags.precision then "" else "0")
    else Reverse(Cut(DigitsRev(value, base, flags.uppercase)))
  }

  // Zero has no alternative form, except in octal with a precision.
  function WithoutHash(value: nat, base: Base, flags: Flags): Flags
  {
    if value == 0 && (!flags.precision || base == 16) then flags.(hash := false) else flags
  }

  function Push(t: string, c: char): string
  {
    if |t| < PRINTF_INTEGER_BUFFER_SIZE then [c] + t else t
  }

  function Fill(t: string, n: nat): string
  {
    Repeat('0', Short(|t|, Min(n, PRINTF_INTEGER_BUFFER_SIZE))) + t
  }

  // One column is kept for the sign.
  function InnerWidth(width: nat, negative: bool, flags: Flags): nat
  {
    if !flags.left && width > 0 && flags.zeropad && (negative || flags.plus || flags.space) then width - 1 else width
  }

  function Padded(t: string, precision: nat, width: nat, flags: Flags): string
  {
    Fill(if !flags.left && flags.zeropad then Fill(t, width) else t, precision)
  }

  // Padding zeros that give way to the prefix; n digits are not padding.
  function TakeBack(t: string, n: nat, base: Base): string
  {
    var a := if n < |t| then t[1..] else t;
    if a != "" && (base == 16 || base == 2) && n < |a| then a[1..] else a
  }

  function PushLetter(t: string, base: Base, flags: Flags): string
  {
    if base == 16 then Push(t, if flags.uppercase then 'X' else 'x')
    else if base == 2 then Push(t, 'b')
    else t
  }

  function Prefixed(t: string, n: nat, base: Base, precision: nat, width: nat, flags: Flags): string
  {
    if !flags.hash && !flags.pointer then t
    else
      var a := if !flags.precision && t != "" && (|t| == precision || |t| == width) then TakeBack(t, n, base) else t;
      Push(PushLetter(a, base, flags), '0')
  }

  function Sign(negative: bool, flags: Flags): string
  {
    if negative then "-" else if flags.plus then "+" else if flags.space then " " else ""
  }

  function Signed(t: string, negative: bool, flags: Flags): string
  {
    var s := Sign(negative, flags);
    if s == "" then t else Push(t, s[0])
  }

  // Zeros written for padding make the prefix of an octal number unnecessary.
  function OctalHash(n: nat, padded: nat, base: Base, flags: Flags): Flags
  {
    if base == 8 && padded > n then flags.(hash := false) else flags
  }

  // print_integer_finalization, up to the output
  function Finished(digits: string, negative: bool, base: Base, precision: nat, width: nat, flags: Flags): string
  {
    var w := InnerWidth(width, negative, flags);
    var padded := Padded(digits, precision, w, flags);
    var f := OctalHash(|digits|, |padded|, base, flags);
    Signed(Prefixed(padded, |digits|, base, precision, w, f), negative, f)
  }

  // out_rev_
  function Padding(t: string, width: nat, flags: Flags): string
  {
    var spaces := Repeat(' ', Short(|t|, width));
    if flags.left then t + spaces
    else if flags.zeropad then t
    else spaces + t
  }

  // What print_integer emits.
  function IntegerField(value: nat, negative: bool, base: Base, precision: nat, width: nat, flags: Flags): string
  {
    var t := Finished(Generated(value, base, flags), negative, base, precision, width, WithoutHash(value, base, flags));
    Padding(t, InnerWidth(width, negative, flags), flags)
  }

  // ------------------------------------------------------------ the standard

  // The value in the base, without leading zeros.
  function Numeral(value: nat, base: Base, uppercase: bool): string
  {
    if value == 0 then "" else Numeral(value / base, base, uppercase) + [Digit(value % base, uppercase)]
  }

  // At least precision digits, one by default. The '#' flag makes an octal number start with 0.
  function Body(value: nat, base: Base, precision: nat, flags: Flags): string
  {
    var numeral := Numeral(value, base, flags.uppercase);
    var digits := Repeat('0', Short(|numeral|, if flags.precision then precision else 1)) + numeral;
    if flags.hash && base == 8 && (digits == "" || digits[0] != '0') then "0" + digits else digits
  }

  // What stands for the sign: '-', or what '+' and ' ' ask for, '+' coming first
  function StandardSign(negative: bool, flags: Flags): string
  {
    if negative then "-" else if flags.plus then "+" else if flags.space then " " else ""
  }

  function Prefix(value: nat, negative: bool, base: Base, flags: Flags): string
  {
    StandardSign(negative, flags) +
    if flags.hash && base == 16 && value != 0 then (if flags.uppercase then "0X" else "0x") else ""
  }

  // Padding to the width: on the right for '-', with zeros after the prefix for '0'
  // unless there is a precision, with spaces on the left otherwise.
  function Justified(prefix: string, body: string, width: nat, flags: Flags): string
  {
    var missing := Short(|prefix| + |body|, width);
    if flags.left then prefix + body + Repeat(' ', missing)
    else if flags.zeropad && !flags.precision then prefix + Repeat('0', missing) + body
    else Repeat(' ', missing) + prefix + body
  }

  function StandardField(value: nat, negative: bool, base: Base, precision: nat, width: nat, flags: Flags): (r: string)
    ensures |r| >= width
  {
    Justified(Prefix(value, negative, base, flags), Body(value, base, precision, flags), width, flags)
  }
}
