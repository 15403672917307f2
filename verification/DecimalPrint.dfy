// The loops of print_broken_up_decimal in src/printf.c.
module DecimalPrint {
  import opened Bits
  import opened IntegerText
  import opened DecimalText
  import opened Printf

  method TrimZeros(fractional: nat, precision: nat) returns (f: nat, count: nat)
    requires fractional > 0
    ensures (f, count) == Trim(fractional, precision)
  {
    f, count := fractional, precision;
    while f % 10 == 0
      invariant f > 0 && Trim(f, count) == Trim(fractional, precision)
      decreases f
    {
      DivNonNegative(f, 10);
      count := Down(count);
      f := f / 10;
    }
  }

  // The digits of the fraction, least significant first
  method PutFraction(buf: array<char>, len: nat, fractional: nat, count: nat) returns (len': nat, left: nat)
    requires len <= buf.Length == PRINTF_DECIMAL_BUFFER_SIZE
    modifies buf
    ensures len' <= buf.Length
    ensures (TextIn(buf, len'), left) == PushFraction(old(TextIn(buf, len)), fractional, count)
  {
    len', left := len, count;
    var f, more := fractional, true;
    while more && len' < PRINTF_DECIMAL_BUFFER_SIZE
      invariant len' <= buf.Length
      invariant (if more then PushFraction(TextIn(buf, len'), f, left) else (TextIn(buf, len'), left)) ==
        PushFraction(old(TextIn(buf, len)), fractional, count)
      decreases more, f
    {
      left := Down(left);
      DivNonNegative(f, 10);
      len' := PushDigit(buf, len', Digit(f % 10, false));
      f := f / 10;
      more := f != 0;
    }
  }

  method PutZeros(buf: array<char>, len: nat, count: nat) returns (len': nat)
    requires len <= buf.Length == PRINTF_DECIMAL_BUFFER_SIZE
    modifies buf
    ensures len' <= buf.Length && TextIn(buf, len') == PushZeros(old(TextIn(buf, len)), count)
  {
    hide TextIn, Repeat;
    ghost var t := TextIn(buf, len);
    len' := len;
    var left := count;
    assert Repeat('0', 0) + t == t;
    while len' < PRINTF_DECIMAL_BUFFER_SIZE && left > 0
      invariant len <= len' <= buf.Length && left == count - (len' - len)
      invariant TextIn(buf, len') == Repeat('0', len' - len) + t
    {
      OneMoreZero(len' - len, t);
      len' := PushDigit(buf, len', '0');
      left := left - 1;
    }
  }

  method PutIntegral(buf: array<char>, len: nat, integral: nat) returns (len': nat)
    requires len <= buf.Length == PRINTF_DECIMAL_BUFFER_SIZE
    modifies buf
    ensures len' <= buf.Length && TextIn(buf, len') == PushIntegral(old(TextIn(buf, len)), integral)
  {
    len' := len;
    var n, more := integral, true;
    while more && len' < PRINTF_DECIMAL_BUFFER_SIZE
      invariant len' <= buf.Length
      invariant (if more then PushIntegral(TextIn(buf, len'), n) else TextIn(buf, len')) ==
        PushIntegral(old(TextIn(buf, len)), integral)
      decreases more, n
    {
      DivNonNegative(n, 10);
      len' := PushDigit(buf, len', Digit(n % 10, false));
      n := n / 10;
      more := n != 0;
    }
  }

  method PutFractionPart(buf: array<char>, len: nat, c: Components, precision: nat, adapt: bool, hash: bool)
    returns (len': nat)
    requires len <= buf.Length == PRINTF_DECIMAL_BUFFER_SIZE
    modifies buf
    ensures len' <= buf.Length
    ensures TextIn(buf, len') == PushFractionPart(old(TextIn(buf, len)), c, precision, adapt, hash)
  {
    len' := len;
    if precision != 0 {
      var f, count := c.fractional, precision;
      if adapt && !hash && f > 0 {
        f, count := TrimZeros(f, count);
      }
      if f > 0 || !adapt || hash {
        len', count := PutFraction(buf, len', f, count);
        len' := PutZeros(buf, len', count);
        len' := PushDigit(buf, len', '.');
      }
    } else if hash {
      len' := PushDigit(buf, len', '.');
    }
  }

  // print_broken_up_decimal
  method PutBrokenUpDecimal(g: Gadget, c: Components, precision: nat, width: nat, adapt: bool, flags: Flags,
          buf: array<char>, len: nat)
    requires g.Valid() && buf != g.buffer && len <= buf.Length == PRINTF_DECIMAL_BUFFER_SIZE
    modifies g, g.Target(), buf
    ensures g.Valid()
    ensures g.emitted == old(g.emitted) + DecimalField(old(TextIn(buf, len)), c, precision, width, adapt, flags)
  {
    var n := PutFractionPart(buf, len, c, precision, adapt, flags.hash);
    n := PutIntegral(buf, n, c.integral);
    var w;
    n, w := CompleteDecimal(buf, n, c.negative, width, flags);
    PutReversed(g, buf[..n], w, flags);
  }

  method CompleteDecimal(buf: array<char>, len: nat, negative: bool, width: nat, flags: Flags)
    returns (len': nat, w: nat)
    requires len <= buf.Length == PRINTF_DECIMAL_BUFFER_SIZE
    modifies buf
    ensures len' <= buf.Length && w == InnerWidth(width, negative, flags)
    ensures TextIn(buf, len') == Completed(old(TextIn(buf, len)), negative, w, flags)
  {
    len', w := len, width;
    if !flags.left && flags.zeropad {
      if w > 0 && (negative || flags.plus || flags.space) {
        w := w - 1;
      }
      len' := FillZeros(buf, len', w);
    }
    len' := PutSign(buf, len', negative, flags);
  }
}
