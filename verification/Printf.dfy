// The allocation-free formatter of src/printf.c, step by step.
module Printf {
  import opened Bits
  import opened Sequences
  import opened IntegerText
  import opened FormatText

  // The string before with the first n characters of text written from offset on.
  function Written(before: string, offset: nat, text: string, n: nat): (r: string)
    requires offset + Min(|text|, n) <= |before|
    ensures |r| == |before|
  {
    var k := Min(|text|, n);
    before[..offset] + text[..k] + before[offset + k..]
  }

  // output_gadget_t. The buffer pointer is an array with an offset; `sunk` is what the
  // output function has been called with; `emitted` is everything put, stored or not.
  class Gadget {
    const hasFunction: bool
    const buffer: array?<char>
    const offset: nat
    const maxChars: nat
    var pos: nat
    var sunk: string
    ghost const before: string
    ghost var emitted: string

    ghost function Target(): set<object>
    {
      if buffer == null then {} else {buffer}
    }

    ghost predicate Valid()
      reads this, Target()
    {
      && pos == |emitted|
      && (hasFunction ==> buffer == null && sunk == emitted[..Min(pos, maxChars)])
      && (!hasFunction && buffer == null ==> maxChars == 0)
      && (buffer != null ==>
          && offset + maxChars <= buffer.Length == |before|
          && buffer[..] == Written(before, offset, emitted, maxChars))
    }

    // buffer_gadget, on discarding_gadget
    constructor Buffer(buffer: array?<char>, offset: nat, size: nat)
      requires buffer != null ==> offset + size <= buffer.Length
      ensures Valid() && this.buffer == buffer && emitted == "" && !hasFunction
      ensures buffer != null ==>
        this.offset == offset && before == buffer[..] && maxChars == Min(size, PRINTF_MAX_POSSIBLE_BUFFER_SIZE)
    {
      hasFunction, pos, sunk, emitted := false, 0, "", "";
      this.buffer, this.offset := buffer, offset;
      maxChars := if buffer == null then 0
        else if size > PRINTF_MAX_POSSIBLE_BUFFER_SIZE then PRINTF_MAX_POSSIBLE_BUFFER_SIZE
        else size;
      before := if buffer == null then "" else buffer[..];
    }

    // function_gadget
    constructor Function()
      ensures Valid() && buffer == null && emitted == "" && hasFunction
      ensures maxChars == PRINTF_MAX_POSSIBLE_BUFFER_SIZE
    {
      hasFunction, pos, sunk, emitted := true, 0, "", "";
      buffer, offset, before := null, 0, "";
      maxChars := PRINTF_MAX_POSSIBLE_BUFFER_SIZE;
    }

    // putchar_via_gadget
    method PutChar(c: char)
      requires Valid()
      modifies this, Target()
      ensures Valid() && emitted == old(emitted) + [c]
    {
      var writePos := pos;
      pos := pos + 1;
      emitted := emitted + [c];
      if writePos >= maxChars {
        assert emitted[..maxChars] == old(emitted)[..maxChars];
        return;
      }
      if hasFunction {
        sunk := sunk + [c];
      } else {
        buffer[offset + writePos] := c;
      }
    }

    // append_termination_with_gadget
    method Terminate()
      requires Valid()
      modifies Target()
      ensures buffer != null && maxChars == 0 ==> buffer[..] == before
      ensures buffer != null && maxChars > 0 ==>
        buffer[..] == Written(before, offset, emitted[..Min(pos, maxChars - 1)] + [NUL], maxChars)
    {
      if hasFunction || maxChars == 0 {
        return;
      }
      var nullCharPos := if pos < maxChars then pos else maxChars - 1;
      buffer[offset + nullCharPos] := NUL;
    }
  }

  // ------------------------------------------------------------ fields

  // The padding loops: spaces from column len on, up to width.
  method PutSpaces(g: Gadget, len: nat, width: nat)
    requires g.Valid()
    modifies g, g.Target()
    ensures g.Valid() && g.emitted == old(g.emitted) + Repeat(' ', Short(len, width))
  {
    var l := len;
    while l < width
      invariant len <= l && (len <= width ==> l <= width) && (len > width ==> l == len)
      invariant g.Valid() && g.emitted == old(g.emitted) + Repeat(' ', l - len)
    {
      g.PutChar(' ');
      assert Repeat(' ', l - len) + [' '] == Repeat(' ', l + 1 - len);
      l := l + 1;
    }
  }

  // out_rev_
  method PutReversed(g: Gadget, buf: string, width: nat, flags: Flags)
    requires g.Valid()
    modifies g, g.Target()
    ensures g.Valid() && g.emitted == old(g.emitted) + Padding(Reverse(buf), width, flags)
  {
    var startPos := g.pos;
    if !flags.left && !flags.zeropad {
      PutSpaces(g, |buf|, width);
    }
    PutBackwards(g, buf);
    if flags.left {
      ghost var was := g.emitted;
      while g.pos - startPos < width
        invariant g.Valid() && g.pos - startPos <= Max(|buf|, width)
        invariant startPos + |buf| <= g.pos && g.emitted == was + Repeat(' ', g.pos - startPos - |buf|)
      {
        ghost var n := g.pos - startPos - |buf|;
        g.PutChar(' ');
        assert Repeat(' ', n) + [' '] == Repeat(' ', n + 1);
      }
    }
  }

  method PutBackwards(g: Gadget, buf: string)
    requires g.Valid()
    modifies g, g.Target()
    ensures g.Valid() && g.emitted == old(g.emitted) + Reverse(buf)
  {
    var len := |buf|;
    while len > 0
      invariant 0 <= len <= |buf| && g.Valid()
      invariant g.emitted == old(g.emitted) + Reverse(buf[len..])
    {
      len := len - 1;
      assert buf[len..][1..] == buf[len + 1..];
      g.PutChar(buf[len]);
    }
    assert buf[0..] == buf;
  }

  // The text in a digit buffer, whose last character comes first.
  ghost function TextIn(buf: array<char>, len: nat): (t: string)
    requires len <= buf.Length
    reads buf
    ensures |t| == len
  {
    Reverse(buf[..len])
  }

  // if (len < PRINTF_INTEGER_BUFFER_SIZE) buf[len++] = c
  method PushDigit(buf: array<char>, len: nat, c: char) returns (len': nat)
    requires len <= buf.Length == PRINTF_INTEGER_BUFFER_SIZE
    modifies buf
    ensures len' <= buf.Length && TextIn(buf, len') == Push(old(TextIn(buf, len)), c)
  {
    len' := len;
    if len < PRINTF_INTEGER_BUFFER_SIZE {
      buf[len] := c;
      len' := len + 1;
      assert buf[..len'] == old(buf[..len]) + [c];
      ReverseAppend(old(buf[..len]), [c]);
    }
  }

  // The zero padding loops
  method FillZeros(buf: array<char>, len: nat, n: nat) returns (len': nat)
    requires len <= buf.Length == PRINTF_INTEGER_BUFFER_SIZE
    modifies buf
    ensures len' <= buf.Length && TextIn(buf, len') == Fill(old(TextIn(buf, len)), n)
  {
    hide TextIn, Repeat, Fill;
    ghost var t := TextIn(buf, len);
    len' := len;
    assert Repeat('0', 0) + t == t;
    while len' < n && len' < PRINTF_INTEGER_BUFFER_SIZE
      invariant len <= len' <= buf.Length && (len' > n ==> len' == len)
      invariant TextIn(buf, len') == Repeat('0', len' - len) + t
    {
      OneMoreZero(len' - len, t);
      len' := PushDigit(buf, len', '0');
    }
    FilledTo(t, len', n);
  }

  lemma FilledTo(t: string, len: nat, n: nat)
    requires |t| <= len <= 32 && (len > n ==> len == |t|) && (len >= n || len == 32)
    ensures Fill(t, n) == Repeat('0', len - |t|) + t
  {
  }

  lemma OneMoreZero(n: nat, t: string)
    ensures ['0'] + (Repeat('0', n) + t) == Repeat('0', n + 1) + t
  {
  }

  // buf[--len]
  method DropDigit(buf: array<char>, len: nat) returns (len': nat)
    requires 0 < len <= buf.Length
    ensures len' == len - 1 && TextIn(buf, len') == TextIn(buf, len)[1..]
  {
    len' := len - 1;
    assert buf[..len] == buf[..len'] + [buf[len']];
    ReverseAppend(buf[..len'], [buf[len']]);
  }

  // The first part of print_integer_finalization: leading zeros
  method PadZeros(buf: array<char>, len: nat, precision: nat, width: nat, flags: Flags) returns (len': nat)
    requires len <= buf.Length == PRINTF_INTEGER_BUFFER_SIZE
    modifies buf
    ensures len' <= buf.Length && TextIn(buf, len') == Padded(old(TextIn(buf, len)), precision, width, flags)
  {
    len' := len;
    if !flags.left && flags.zeropad {
      len' := FillZeros(buf, len', width);
    }
    len' := FillZeros(buf, len', precision);
  }

  // Padding digits are taken back to make room for the prefix.
  method TakeBackZeros(buf: array<char>, len: nat, unpaddedLen: nat, base: Base) returns (len': nat)
    requires len <= buf.Length
    ensures len' <= len && TextIn(buf, len') == TakeBack(TextIn(buf, len), unpaddedLen, base)
  {
    len' := len;
    if unpaddedLen < len' {
      len' := DropDigit(buf, len');
    }
    if len' > 0 && (base == 16 || base == 2) && unpaddedLen < len' {
      len' := DropDigit(buf, len');
    }
  }

  // The second part: '#' and pointers
  method PutPrefix(buf: array<char>, len: nat, unpaddedLen: nat, base: Base, precision: nat, width: nat, flags: Flags)
    returns (len': nat)
    requires len <= buf.Length == PRINTF_INTEGER_BUFFER_SIZE
    modifies buf
    ensures len' <= buf.Length
    ensures TextIn(buf, len') == Prefixed(old(TextIn(buf, len)), unpaddedLen, base, precision, width, flags)
  {
    len' := len;
    if flags.hash || flags.pointer {
      if !flags.precision && len' > 0 && (len' == precision || len' == width) {
        len' := TakeBackZeros(buf, len', unpaddedLen, base);
      }
      if base == 16 && !flags.uppercase {
        len' := PushDigit(buf, len', 'x');
      } else if base == 16 && flags.uppercase {
        len' := PushDigit(buf, len', 'X');
      } else if base == 2 {
        len' := PushDigit(buf, len', 'b');
      }
      len' := PushDigit(buf, len', '0');
    }
  }

  // The third part: the sign
  method PutSign(buf: array<char>, len: nat, negative: bool, flags: Flags) returns (len': nat)
    requires len <= buf.Length == PRINTF_INTEGER_BUFFER_SIZE
    modifies buf
    ensures len' <= buf.Length && TextIn(buf, len') == IntegerText.Signed(old(TextIn(buf, len)), negative, flags)
  {
    len' := len;
    if negative {
      len' := PushDigit(buf, len', '-');
    } else if flags.plus {
      len' := PushDigit(buf, len', '+');
    } else if flags.space {
      len' := PushDigit(buf, len', ' ');
    }
  }

  // print_integer_finalization, up to the output
  method CompleteInteger(buf: array<char>, digits: nat, negative: bool, base: Base, precision: nat, width: nat,
          flags: Flags)
    returns (len: nat, w: nat, f: Flags)
    requires digits <= buf.Length == PRINTF_INTEGER_BUFFER_SIZE
    modifies buf
    ensures len <= buf.Length && w == InnerWidth(width, negative, flags)
    ensures f.left == flags.left && f.zeropad == flags.zeropad
    ensures TextIn(buf, len) == Finished(old(TextIn(buf, digits)), negative, base, precision, width, flags)
  {
    w, f := width, flags;
    if !f.left && w > 0 && f.zeropad && (negative || f.plus || f.space) {
      w := w - 1;
    }
    len := PadZeros(buf, digits, precision, w, f);
    assert len == |Padded(old(TextIn(buf, digits)), precision, w, flags)|;
    if base == 8 && len > digits {
      f := f.(hash := false);
    }
    assert f == OctalHash(digits, len, base, flags);
    len := PutPrefix(buf, len, digits, base, precision, w, f);
    len := PutSign(buf, len, negative, f);
  }

  method FinishInteger(g: Gadget, buf: array<char>, digits: nat, negative: bool, base: Base, precision: nat,
          width: nat, flags: Flags)
    requires g.Valid() && buf != g.buffer && digits <= buf.Length == PRINTF_INTEGER_BUFFER_SIZE
    modifies g, g.Target(), buf
    ensures g.Valid()
    ensures g.emitted == old(g.emitted) +
      Padding(Finished(old(TextIn(buf, digits)), negative, base, precision, width, flags), InnerWidth(width, negative, flags), flags)
  {
    var len, w, f := CompleteInteger(buf, digits, negative, base, precision, width, flags);
    PutReversed(g, buf[..len], w, f);
  }

  lemma NextDigit(v: nat, base: Base, uppercase: bool)
    requires v > 0
    ensures 0 <= v / base < v && 0 <= v % base < 16
    ensures DigitsRev(v, base, uppercase) == [Digit(v % base, uppercase)] + DigitsRev(v / base, base, uppercase)
  {
    DivNonNegative(v, base);
  }

  lemma CutAt(part: string, rest: string)
    requires |part| <= PRINTF_INTEGER_BUFFER_SIZE && (rest == "" || |part| == PRINTF_INTEGER_BUFFER_SIZE)
    ensures Cut(part + rest) == part
  {
  }

  // The digit loop of print_integer
  method PutDigits(buf: array<char>, value: nat, base: Base, flags: Flags) returns (len: nat)
    requires value > 0 && buf.Length == PRINTF_INTEGER_BUFFER_SIZE
    modifies buf
    ensures len <= buf.Length && buf[..len] == Cut(DigitsRev(value, base, flags.uppercase))
  {
    len := 0;
    var v: nat := value;
    ghost var rest := DigitsRev(v, base, flags.uppercase);
    while v > 0 && len < PRINTF_INTEGER_BUFFER_SIZE
      invariant len <= buf.Length && rest == DigitsRev(v, base, flags.uppercase)
      invariant buf[..len] + rest == DigitsRev(value, base, flags.uppercase)
      decreases v
    {
      NextDigit(v, base, flags.uppercase);
      var digit := v % base;
      rest := DigitsRev(v / base, base, flags.uppercase);
      PutDigit(buf, len, Digit(digit, flags.uppercase), rest);
      len := len + 1;
      v := v / base;
    }
    CutAt(buf[..len], rest);
  }

  method PutDigit(buf: array<char>, len: nat, c: char, ghost rest: string)
    requires len < buf.Length
    modifies buf
    ensures buf[..len + 1] + rest == old(buf[..len]) + ([c] + rest)
  {
    buf[len] := c;
  }

  method StartInteger(buf: array<char>, value: nat, base: Base, flags: Flags) returns (len: nat, f: Flags)
    requires buf.Length == PRINTF_INTEGER_BUFFER_SIZE
    modifies buf
    ensures len <= buf.Length && TextIn(buf, len) == Generated(value, base, flags)
    ensures f == WithoutHash(value, base, flags)
  {
    len, f := 0, flags;
    if value == 0 {
      if !f.precision {
        len := PushDigit(buf, len, '0');
        f := f.(hash := false);
      } else if base == 16 {
        f := f.(hash := false);
      }
    } else {
      len := PutDigits(buf, value, base, f);
    }
  }

  // print_integer
  method PutInteger(g: Gadget, value: nat, negative: bool, base: Base, precision: nat, width: nat, flags: Flags)
    requires g.Valid()
    modifies g, g.Target()
    ensures g.Valid()
    ensures g.emitted == old(g.emitted) + IntegerField(value, negative, base, precision, width, flags)
  {
    var buf := new char[PRINTF_INTEGER_BUFFER_SIZE];
    var len, f := StartInteger(buf, value, base, flags);
    FinishInteger(g, buf, len, negative, base, precision, width, f);
  }

  // ------------------------------------------------------------ strings and characters

  // strnlen_s_ on a string before its NUL. The limit is decremented before each step.
  method CountChars(s: string, maxsize: nat) returns (n: nat)
    ensures n == StrNLen(s, maxsize)
  {
    n := 0;
    var left: int := maxsize;
    while n < |s| && left != 0
      invariant n <= |s| && left == maxsize - n >= 0
    {
      left := left - 1;
      n := n + 1;
    }
  }

  // The output loop of %s
  method PutPrefixOf(g: Gadget, s: string, bounded: bool, precision: nat)
    requires g.Valid()
    modifies g, g.Target()
    ensures g.Valid() && g.emitted == old(g.emitted) + if bounded then s[..Min(|s|, precision)] else s
  {
    var k, left: int := 0, precision;
    while k < |s| && (!bounded || left != 0)
      invariant 0 <= k <= |s| && left == precision - k && (bounded ==> left >= 0)
      invariant g.Valid() && g.emitted == old(g.emitted) + s[..k]
    {
      assert s[..k + 1] == s[..k] + [s[k]];
      g.PutChar(s[k]);
      k := k + 1;
      left := left - 1;
    }
    assert s[..|s|] == s;
  }

  // case 's' of a string that is not NULL
  method PutString(g: Gadget, s: string, width: nat, precision: nat, flags: Flags)
    requires g.Valid()
    modifies g, g.Target()
    ensures g.Valid() && g.emitted == old(g.emitted) + StringConversion(s, width, precision, flags)
  {
    var l := CountChars(s, if precision > 0 then precision else PRINTF_MAX_POSSIBLE_BUFFER_SIZE);
    if flags.precision {
      l := if l < precision then l else precision;
    }
    if !flags.left {
      PutSpaces(g, l, width);
    }
    PutPrefixOf(g, s, flags.precision, precision);
    if flags.left {
      PutSpaces(g, l, width);
    }
  }

  // case 'c'
  method PutCharacter(g: Gadget, v: int, width: nat, flags: Flags)
    requires g.Valid()
    modifies g, g.Target()
    ensures g.Valid() && g.emitted == old(g.emitted) + CharConversion(v, width, flags)
  {
    if !flags.left {
      PutSpaces(g, 1, width);
    }
    g.PutChar(ToUnsigned(v, LIMIT_8) as char);
    if flags.left {
      PutSpaces(g, 1, width);
    }
  }

  // case 'p'
  method PutPointer(g: Gadget, addr: nat, precision: nat, flags: Flags)
    requires g.Valid()
    modifies g, g.Target()
    ensures g.Valid() && g.emitted == old(g.emitted) + PointerConversion(addr, precision, flags)
  {
    var f := flags.(zeropad := true, pointer := true);
    if addr == 0 {
      assert Reverse(")lin(") == "(nil)";
      PutReversed(g, ")lin(", POINTER_FIELD, f);
    } else {
      PutInteger(g, addr, false, 16, precision, POINTER_FIELD, f);
    }
  }

  method PutNullString(g: Gadget, width: nat, flags: Flags)
    requires g.Valid()
    modifies g, g.Target()
    ensures g.Valid() && g.emitted == old(g.emitted) + Padding("(null)", width, flags)
  {
    assert Reverse(")llun(") == "(null)";
    PutReversed(g, ")llun(", width, flags);
  }

  // The integer specifiers: base, flags and value are settled, then print_integer is called.
  method SettleBase(spec: char) returns (base: Base)
    ensures base == BaseOf(spec)
  {
    if spec == 'x' || spec == 'X' {
      base := 16;
    } else if spec == 'o' {
      base := 8;
    } else if spec == 'b' {
      base := 2;
    } else {
      base := 10;
    }
  }

  method SettleFlags(spec: char, base: Base, flags: Flags) returns (f: Flags)
    ensures f == IntegerFlags(spec, base, flags)
  {
    var signed := spec == 'd' || spec == 'i';
    f := flags.(signed := signed, uppercase := spec == 'X',
                hash := flags.hash && base != 10,
                zeropad := flags.zeropad && !flags.precision);
    if !signed {
      f := f.(plus := false, space := false);
    }
  }

  method PutIntegerArg(g: Gadget, spec: char, v: int, width: nat, precision: nat, flags: Flags)
    requires g.Valid()
    modifies g, g.Target()
    ensures g.Valid() && g.emitted == old(g.emitted) + IntegerConversion(spec, v, width, precision, flags)
  {
    var base := SettleBase(spec);
    var f := SettleFlags(spec, base, flags);
    var limit := ArgLimit(flags);
    var value := if spec == 'd' || spec == 'i' then ToSigned(v, limit) else ToUnsigned(v, limit);
    ConversionIs(spec, v, width, precision, flags, value, base, f);
    PutInteger(g, Abs(value), value < 0, base, precision, width, f);
  }

  lemma ConversionIs(spec: char, v: int, width: nat, precision: nat, flags: Flags, value: int, base: Base, f: Flags)
    requires value == IntegerValue(spec, v, flags) && base == BaseOf(spec) && f == IntegerFlags(spec, base, flags)
    ensures IntegerField(Abs(value), value < 0, base, precision, width, f) == IntegerConversion(spec, v, width, precision, flags)
  {
  }

  // ------------------------------------------------------------ the format string

  // parse_flags
  method ScanFlags(f: string, i: nat) returns (flags: Flags, j: nat)
    ensures (flags, j) == ParseFlags(f, i, NO_FLAGS)
  {
    flags, j := NO_FLAGS, i;
    while IsFlag(CharAt(f, j))
      invariant j <= Max(i, |f|) && ParseFlags(f, j, flags) == ParseFlags(f, i, NO_FLAGS)
      decreases |f| - j
    {
      match f[j] {
        case '0' => flags := flags.(zeropad := true);
        case '-' => flags := flags.(left := true);
        case '+' => flags := flags.(plus := true);
        case ' ' => flags := flags.(space := true);
        case _ => flags := flags.(hash := true);
      }
      j := j + 1;
    }
  }

  // atou_
  method ScanNumber(f: string, i: nat) returns (n: nat, j: nat)
    ensures (n, j) == ParseNumber(f, i, 0)
  {
    n, j := 0, i;
    while IsDigit(CharAt(f, j))
      invariant j <= Max(i, |f|) && ParseNumber(f, j, n) == ParseNumber(f, i, 0)
      decreases |f| - j
    {
      n := (n * 10 + (f[j] as int - '0' as int)) % LIMIT_32;
      j := j + 1;
    }
  }

  method ScanWidth(f: string, c: Cursor) returns (d: Cursor)
    requires c.Cursor? && ParseWidth(f, c) != Undefined
    ensures d == ParseWidth(f, c)
  {
    d := c;
    if IsDigit(CharAt(f, c.i)) {
      var width, j := ScanNumber(f, c.i);
      d := d.(width := width, i := j);
    } else if CharAt(f, c.i) == '*' {
      var w := ToSigned(c.args[0].value, LIMIT_32);
      d := d.(args := c.args[1..]);
      if w < 0 {
        d := d.(flags := d.flags.(left := true), width := -w);
      } else {
        d := d.(width := w);
      }
      d := Advance(f, d);
    }
  }

  method ScanPrecision(f: string, c: Cursor) returns (d: Cursor)
    requires c.Cursor? && ParsePrecision(f, c) != Undefined
    ensures d == ParsePrecision(f, c)
  {
    d := c;
    if CharAt(f, c.i) == '.' {
      d := Advance(f, d.(flags := d.flags.(precision := true)));
      if d.Stopped? {
        return;
      }
      if IsDigit(CharAt(f, d.i)) {
        var precision, j := ScanNumber(f, d.i);
        d := d.(precision := precision, i := j);
      } else if CharAt(f, d.i) == '*' {
        var p := ToSigned(d.args[0].value, LIMIT_32);
        d := Advance(f, d.(args := d.args[1..], precision := if p > 0 then p else 0));
      }
    }
  }

  method ScanLength(f: string, c: Cursor) returns (d: Cursor)
    requires c.Cursor?
    ensures d == ParseLength(f, c)
  {
    d := c;
    match CharAt(f, c.i)
    case 'l' =>
      d := Advance(f, d.(flags := d.flags.(longArg := true)));
      if d.Cursor? && CharAt(f, d.i) == 'l' {
        d := Advance(f, d.(flags := c.flags.(longArg := true, longLongArg := true)));
      }
    case 'h' =>
      d := Advance(f, d.(flags := d.flags.(shortArg := true)));
      if d.Cursor? && CharAt(f, d.i) == 'h' {
        d := Advance(f, d.(flags := c.flags.(shortArg := true, charArg := true)));
      }
    case 't' => d := Advance(f, d.(flags := d.flags.(longArg := true)));
    case 'j' => d := Advance(f, d.(flags := d.flags.(longArg := true)));
    case 'z' => d := Advance(f, d.(flags := d.flags.(longArg := true)));
    case _ =>
  }

  method ScanDirective(f: string, i: nat, args: seq<Arg>) returns (c: Cursor)
    requires ParseDirective(f, i, args) != Undefined
    ensures c == ParseDirective(f, i, args)
  {
    if i >= |f| {
      return Stopped;
    }
    var flags, j := ScanFlags(f, i);
    c := ScanWidth(f, Cursor(j, args, flags, 0, 0));
    if c.Cursor? {
      c := ScanPrecision(f, c);
      if c.Cursor? {
        c := ScanLength(f, c);
      }
    }
  }

  // The switch on the specifier
  method PutConversion(g: Gadget, spec: char, c: Cursor) returns (rest: seq<Arg>)
    requires g.Valid() && c.Cursor? && Convert(spec, c).Step?
    modifies g, g.Target()
    ensures g.Valid() && g.emitted == old(g.emitted) + Convert(spec, c).text && rest == Convert(spec, c).args
  {
    rest := c.args;
    if IsInteger(spec) {
      PutIntegerArg(g, spec, c.args[0].value, c.width, c.precision, c.flags);
      rest := rest[1..];
    } else if spec == 'c' {
      PutCharacter(g, c.args[0].value, c.width, c.flags);
      rest := rest[1..];
    } else if spec == 's' {
      if c.args[0].NullStr? {
        PutNullString(g, c.width, c.flags);
      } else {
        PutString(g, c.args[0].text, c.width, c.precision, c.flags);
      }
      rest := rest[1..];
    } else if spec == 'p' {
      PutPointer(g, c.args[0].addr % LIMIT_64, c.precision, c.flags);
      rest := rest[1..];
    } else {
      g.PutChar(spec);
    }
  }

  // One round of the loop at a '%'
  method PutDirective(g: Gadget, f: string, i: nat, args: seq<Arg>) returns (stop: bool, next: nat, rest: seq<Arg>)
    requires g.Valid() && i < |f| && Directive(f, i, args) != Unknown
    modifies g, g.Target()
    ensures g.Valid()
    ensures var step := Directive(f, i, args);
      && stop == step.Stop?
      && (!stop ==> next == step.next && rest == step.args)
      && g.emitted == old(g.emitted) + if stop then "" else step.text
  {
    hide ParseDirective, Directive, Convert;
    stop, next, rest := true, i, args;
    DirectiveIs(f, i, args);
    var c := ScanDirective(f, i + 1, args);
    if c.Cursor? {
      rest := PutConversion(g, f[c.i], c);
      stop, next := false, c.i + 1;
    }
  }

  // format_string_loop
  method FormatStringLoop(g: Gadget, f: string, args: seq<Arg>)
    requires g.Valid() && Defined(f, 0, args)
    modifies g, g.Target()
    ensures g.Valid() && g.emitted == old(g.emitted) + Render(f, 0, args)
  {
    var i, rest, stop := 0, args, false;
    while i < |f| && !stop
      invariant g.Valid() && Defined(f, i, rest) && i <= |f|
      invariant g.emitted + (if stop then "" else Render(f, i, rest)) == old(g.emitted) + Render(f, 0, args)
      decreases |f| - i, !stop
    {
      if f[i] != '%' {
        Regroup(g.emitted, [f[i]], Render(f, i + 1, rest));
        g.PutChar(f[i]);
        i := i + 1;
      } else {
        ghost var step := Directive(f, i, rest);
        if step.Step? {
          Regroup(g.emitted, step.text, Render(f, step.next, step.args));
        }
        var next, left;
        stop, next, left := PutDirective(g, f, i, rest);
        if !stop {
          i, rest := next, left;
        }
      }
    }
  }

  lemma Regroup(a: string, b: string, c: string)
    ensures a + (b + c) == (a + b) + c
  {
  }

  // ------------------------------------------------------------ the public functions

  // (int) of a counter
  function ToInt(n: nat): int
  {
    ToSigned(n, LIMIT_32)
  }

  // vsnprintf_, and vsnprintf_impl within it
  method VSNPrintf(s: array?<char>, offset: nat, n: nat, f: string, args: seq<Arg>) returns (ret: int)
    requires s != null ==> offset + n <= s.Length
    requires Defined(f, 0, args)
    modifies if s == null then {} else {s}
    ensures ret == ToInt(|Render(f, 0, args)|)
    ensures s != null && n == 0 ==> s[..] == old(s[..])
    ensures s != null && n > 0 ==> s[..] == Terminated(old(s[..]), offset, Render(f, 0, args), n)
  {
    hide Render, Defined;
    var g := new Gadget.Buffer(s, offset, n);
    ghost var text := Render(f, 0, args);
    FormatStringLoop(g, f, args);
    assert g.emitted == text;
    g.Terminate();
    ret := ToInt(g.pos);
  }

  // The buffer after printing text into n bytes at offset: as much of the text as leaves
  // room for the NUL, and the NUL.
  function Terminated(before: string, offset: nat, text: string, n: nat): (r: string)
    requires 0 < n && offset + n <= |before|
    ensures |r| == |before|
  {
    var size := Min(n, PRINTF_MAX_POSSIBLE_BUFFER_SIZE);
    Written(before, offset, text[..Min(|text|, size - 1)] + [NUL], size)
  }
}
