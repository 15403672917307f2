// How src/interpret.c reads a log: fgets takes a line, sscanf its fields, following
// section 7.19.6.2 of ISO/IEC 9899:1999 for the one pattern used.
module LineReader {
  import opened Bits
  import opened IntegerText
  import T = IntegerTheorems
  import opened FormatText
  import opened FormatGrammar
  import opened LogText

  const MAX_BUFFER_SIZE: nat := 2048

  // The longest line that jm_tracker_fprintf writes as intended: its buffer keeps one
  // byte for the NUL, and the size passed for the body leaves out another.
  const MAX_LINE: nat := MAX_BUFFER_SIZE - 2

  const LONG_MAX: nat := 0x7FFF_FFFF_FFFF_FFFF

  // jmInst. Fields that are not read keep their zero initialisation.
  datatype Inst = Inst(opcode: char, ctx: string, timestamp: nat, allocSize: nat, addr: nat)

  predicate IsSpace(c: char)
  {
    c == ' ' || c == '\t' || c == '\n' || c == '\r' || c as int == 11 || c as int == 12
  }

  function SkipSpace(s: string): string
  {
    if s != "" && IsSpace(s[0]) then SkipSpace(s[1..]) else s
  }

  predicate IsDigitOf(c: char, base: Base)
  {
    if base == 16 then IsDigit(c) || 'a' <= c <= 'f' || 'A' <= c <= 'F'
    else IsDigit(c) && DigitValue(c) < base
  }

  function DigitsLength(s: string, base: Base): (n: nat)
    ensures n <= |s|
  {
    if s != "" && IsDigitOf(s[0], base) then 1 + DigitsLength(s[1..], base) else 0
  }

  function WordLength(s: string): (n: nat)
    ensures n <= |s|
  {
    if s != "" && !IsSpace(s[0]) then 1 + WordLength(s[1..]) else 0
  }

  datatype Scan<T> = Failure | Success(value: T, rest: string)

  // Unsigned digits at the start of s
  function ScanDigits(s: string, base: Base): Scan<nat>
  {
    var n := DigitsLength(s, base);
    if n == 0 then Failure else Success(T.ReadDigits(s[..n], base), s[n..])
  }

  // %lu: an optionally signed decimal number, modulo 2^64
  function ScanUnsigned(s: string): Scan<nat>
  {
    var t := SkipSpace(s);
    if t != "" && t[0] == '-' then
      match ScanDigits(t[1..], 10)
      case Failure => Failure
      case Success(v, rest) => Success((LIMIT_64 - v % LIMIT_64) % LIMIT_64, rest)
    else
      match ScanDigits(if t != "" && t[0] == '+' then t[1..] else t, 10)
      case Failure => Failure
      case Success(v, rest) => Success(v % LIMIT_64, rest)
  }

  // %p: what it prints, or a hexadecimal number
  function ScanPointer(s: string): Scan<nat>
  {
    var t := SkipSpace(s);
    if "(nil)" <= t then Success(0, t[5..])
    else
      match ScanDigits(if "0x" <= t || "0X" <= t then t[2..] else t, 16)
      case Failure => Failure
      case Success(v, rest) => Success(v % LIMIT_64, rest)
  }

  // %s
  function ScanWord(s: string): Scan<string>
  {
    var t := SkipSpace(s);
    var n := WordLength(t);
    if n == 0 then Failure else Success(t[..n], t[n..])
  }

  // strtol in base 10
  function StrToL(s: string): nat
  {
    match ScanDigits(SkipSpace(s), 10)
    case Failure => 0
    case Success(v, _) => Min(v, LONG_MAX)
  }

  // strcspn with "\r\n"
  function BeforeLineEnd(s: string): string
  {
    if s == "" || s[0] == '\r' || s[0] == '\n' then "" else [s[0]] + BeforeLineEnd(s[1..])
  }

  // The fields that sscanf assigns: all up to the first that does not match
  function ScanFields(line: string): Inst
  {
    var none := Inst(NUL, "", 0, 0, 0);
    match ScanUnsigned(line)
    case Failure => none
    case Success(stamp, r1) =>
      var t := SkipSpace(r1);
      if t == "" then none.(timestamp := stamp)
      else
        match ScanPointer(SkipSpace(t[1..]))
        case Failure => Inst(t[0], "", stamp, 0, 0)
        case Success(addr, r3) =>
          match ScanWord(r3)
          case Failure => Inst(t[0], "", stamp, 0, addr)
          case Success(ctx, _) => Inst(t[0], ctx, stamp, 0, addr)
  }

  // jm_symbols_build_inst
  function BuildInst(line: string): Inst
  {
    var inst := ScanFields(line);
    var size := if inst.opcode == 'a' then StrToL(inst.ctx) else 0;
    inst.(allocSize := size, ctx := BeforeLineEnd(inst.ctx))
  }

  // The end of a region, from the rest of its line
  function RegionEnd(inst: Inst): nat
  {
    match ScanPointer(inst.ctx)
    case Success(end, _) => end
    case Failure => 0
  }

  // ------------------------------------------------------------ scanning undoes printing

  lemma {:induction false} DigitsTaken(d: string, rest: string, base: Base)
    requires forall k :: 0 <= k < |d| ==> IsDigitOf(d[k], base)
    requires rest == "" || !IsDigitOf(rest[0], base)
    ensures DigitsLength(d + rest, base) == |d|
    decreases |d|
  {
    if d == "" {
      assert d + rest == rest;
    } else {
      assert (d + rest)[1..] == d[1..] + rest;
      DigitsTaken(d[1..], rest, base);
    }
  }

  lemma NumeralDigits(v: nat, base: Base)
    requires base == 10 || base == 16
    ensures forall k :: 0 <= k < |Numeral(v, base, false)| ==> IsDigitOf(Numeral(v, base, false)[k], base)
  {
    forall k | 0 <= k < |Numeral(v, base, false)| ensures IsDigitOf(Numeral(v, base, false)[k], base) {
      T.DigitsAreDigits(v, base, false, k);
    }
  }

  lemma PrintedScans(v: nat, base: Base, rest: string)
    requires (base == 10 || base == 16) && (rest == "" || !IsDigitOf(rest[0], base))
    ensures ScanDigits(Printed(v, base) + rest, base) == Success(v, rest)
    ensures Printed(v, base) != "" && IsDigitOf(Printed(v, base)[0], base)
  {
    var d := Printed(v, base);
    NumeralDigits(v, base);
    if v == 0 {
      assert d[..|d| - 1] == "";
      assert T.ReadDigits("0", base) == 0;
    } else {
      T.NoLeadingZero(v, base, false);
      T.NumeralReadsBack(v, base, false);
    }
    DigitsTaken(d, rest, base);
    assert (d + rest)[..|d|] == d && (d + rest)[|d|..] == rest;
  }

  lemma StampScans(v: nat, rest: string)
    requires v < LIMIT_64 && (rest == "" || !IsDigitOf(rest[0], 10))
    ensures ScanUnsigned(Decimal(v) + rest) == Success(v, rest)
  {
    PrintedScans(v, 10, rest);
    var s := Decimal(v) + rest;
    assert s[0] == Printed(v, 10)[0] && SkipSpace(s) == s;
  }

  lemma PointerPrefix(d: string)
    ensures SkipSpace("0x" + d) == "0x" + d && !("(nil)" <= "0x" + d) && "0x" <= "0x" + d && ("0x" + d)[2..] == d
  {
    assert ("0x" + d)[0] == '0' && "(nil)"[0] == '(';
  }

  lemma PointerScans(v: nat, rest: string)
    requires v < LIMIT_64 && (rest == "" || !IsDigitOf(rest[0], 16))
    ensures ScanPointer("0x" + Hex(v) + rest) == Success(v, rest)
  {
    hide ScanDigits, Printed, SkipSpace;
    PrintedScans(v, 16, rest);
    PointerPrefix(Hex(v) + rest);
    assert "0x" + Hex(v) + rest == "0x" + (Hex(v) + rest);
  }

  lemma {:induction false} WordTaken(w: string, rest: string)
    requires (forall k :: 0 <= k < |w| ==> !IsSpace(w[k])) && (rest == "" || IsSpace(rest[0]))
    ensures WordLength(w + rest) == |w|
    decreases |w|
  {
    if w == "" {
      assert w + rest == rest;
    } else {
      assert (w + rest)[1..] == w[1..] + rest;
      WordTaken(w[1..], rest);
    }
  }

  lemma WordScans(w: string, rest: string)
    requires w != "" && (forall k :: 0 <= k < |w| ==> !IsSpace(w[k])) && (rest == "" || IsSpace(rest[0]))
    ensures ScanWord(w + rest) == Success(w, rest)
  {
    WordTaken(w, rest);
    assert (w + rest)[0] == w[0] && SkipSpace(w + rest) == w + rest;
    assert (w + rest)[..|w|] == w && (w + rest)[|w|..] == rest;
  }

  // The word that %s finds, if any
  function WordIn(s: string): string
  {
    match ScanWord(s)
    case Failure => ""
    case Success(w, _) => w
  }

  lemma FieldsScan(stamp: nat, opcode: char, addr: nat, tail: string)
    requires stamp < LIMIT_64 && addr < LIMIT_64 && !IsSpace(opcode) && tail != "" && IsSpace(tail[0])
    ensures ScanFields((Decimal(stamp) + " ") + ([opcode] + (" 0x" + (Hex(addr) + tail)))) ==
      Inst(opcode, WordIn(tail), stamp, 0, addr)
  {
    var pointer := "0x" + Hex(addr) + tail;
    var r1 := " " + ([opcode] + (" " + pointer));
    var line := (Decimal(stamp) + " ") + ([opcode] + (" 0x" + (Hex(addr) + tail)));
    assert line == Decimal(stamp) + r1;
    StampScans(stamp, r1);
    OneSpace([opcode] + (" " + pointer));
    var t := [opcode] + (" " + pointer);
    assert SkipSpace(r1) == t && t[0] == opcode && t[1..] == " " + pointer;
    OneSpace(pointer);
    assert SkipSpace(t[1..]) == pointer;
    PointerScans(addr, tail);
  }

  lemma OneSpace(s: string)
    requires s != "" && !IsSpace(s[0])
    ensures SkipSpace(" " + s) == s
  {
    assert (" " + s)[1..] == s;
  }

  lemma WordAfterSpace(w: string)
    requires w != "" && forall k :: 0 <= k < |w| ==> !IsSpace(w[k])
    ensures WordIn(" " + (w + "\n")) == w
  {
    OneSpace(w + "\n");
    WordScans(w, "\n");
    assert SkipSpace(w + "\n") == w + "\n";
  }

  lemma NoWord()
    ensures WordIn("\n") == ""
  {
    assert SkipSpace("\n") == SkipSpace("");
  }

  // What %s reads never contains white space.
  lemma {:induction false} WordHasNoSpace(s: string, k: nat)
    requires k < WordLength(s)
    ensures !IsSpace(s[k])
  {
    if k > 0 {
      WordHasNoSpace(s[1..], k - 1);
    }
  }

  lemma WordInHasNoSpace(s: string, k: nat)
    requires k < |WordIn(s)|
    ensures !IsSpace(WordIn(s)[k])
  {
    WordHasNoSpace(SkipSpace(s), k);
  }

  lemma {:induction false} NoLineEnd(s: string)
    requires forall k :: 0 <= k < |s| ==> !IsSpace(s[k])
    ensures BeforeLineEnd(s) == s
  {
    if s != "" {
      NoLineEnd(s[1..]);
    }
  }

  // The reader's view of a line: timestamp, opcode and address come back as written,
  // and ctx is the first word after the address.
  lemma HeadReads(stamp: nat, opcode: char, addr: nat, tail: string)
    requires stamp < LIMIT_64 && addr < LIMIT_64 && !IsSpace(opcode) && tail != "" && IsSpace(tail[0])
    ensures BuildInst((Decimal(stamp) + " ") + ([opcode] + (" 0x" + (Hex(addr) + tail)))) ==
      Inst(opcode, WordIn(tail), stamp, if opcode == 'a' then StrToL(WordIn(tail)) else 0, addr)
  {
    FieldsScan(stamp, opcode, addr, tail);
    forall k | 0 <= k < |WordIn(tail)| ensures !IsSpace(WordIn(tail)[k]) {
      WordInHasNoSpace(tail, k);
    }
    NoLineEnd(WordIn(tail));
  }

  lemma SizeReads(size: nat)
    ensures StrToL(Decimal(size)) == Min(size, LONG_MAX)
  {
    PrintedScans(size, 10, "");
    assert Printed(size, 10) + "" == Decimal(size) && SkipSpace(Decimal(size)) == Decimal(size);
  }

  lemma PrintedIsWord(v: nat, base: Base)
    requires base == 10 || base == 16
    ensures Printed(v, base) != "" && forall k :: 0 <= k < |Printed(v, base)| ==> !IsSpace(Printed(v, base)[k])
  {
    PrintedScans(v, base, "");
    NumeralDigits(v, base);
  }

  // Alloc and free lines: the size of an alloc comes back if a long holds it.
  lemma EventReads(stamp: nat, opcode: char, addr: nat, size: nat)
    requires stamp < LIMIT_64 && addr < LIMIT_64 && (opcode == 'a' || opcode == 'f')
    ensures BuildInst(LineOf(stamp, Event(opcode, addr, size))) ==
      Inst(opcode, Decimal(size), stamp, if opcode == 'a' then Min(size, LONG_MAX) else 0, addr)
  {
    PrintedIsWord(size, 10);
    WordAfterSpace(Decimal(size));
    HeadReads(stamp, opcode, addr, " " + (Decimal(size) + "\n"));
    SizeReads(size);
  }

  lemma FrameReads(stamp: nat, addr: nat)
    requires stamp < LIMIT_64 && addr < LIMIT_64
    ensures BuildInst(LineOf(stamp, Frame(addr))) == Inst('b', "", stamp, 0, addr)
  {
    NoWord();
    HeadReads(stamp, 'b', addr, "\n");
    assert "b 0x" + (Hex(addr) + "\n") == ['b'] + (" 0x" + (Hex(addr) + "\n"));
  }

  // Module and executable lines: the path comes back exactly if it has no white space.
  lemma PathReads(stamp: nat, opcode: char, addr: nat, path: string)
    requires stamp < LIMIT_64 && addr < LIMIT_64 && (opcode == 'x' || opcode == 'm')
    ensures var inst := BuildInst(LineOf(stamp, Path(opcode, addr, path)));
      && inst.opcode == opcode && inst.timestamp == stamp && inst.addr == addr && inst.allocSize == 0
      && (inst.ctx == path <==> forall k :: 0 <= k < |path| ==> !IsSpace(path[k]))
  {
    var tail := " " + (path + "\n");
    HeadReads(stamp, opcode, addr, tail);
    var word := WordIn(tail);
    if forall k :: 0 <= k < |path| ==> !IsSpace(path[k]) {
      if path == "" {
        assert tail[1..] == "\n" && SkipSpace(tail) == SkipSpace("\n") == SkipSpace("");
      } else {
        WordAfterSpace(path);
      }
    } else {
      forall k | 0 <= k < |word| ensures !IsSpace(word[k]) {
        WordInHasNoSpace(tail, k);
      }
    }
  }

  lemma PointerWord(v: nat)
    requires v < LIMIT_64
    ensures WordIn(" 0x" + (Hex(v) + "\n")) == "0x" + Hex(v)
    ensures ScanPointer("0x" + Hex(v)) == Success(v, "")
  {
    PrintedIsWord(v, 16);
    var word := "0x" + Hex(v);
    WordAfterSpace(word);
    assert " 0x" + (Hex(v) + "\n") == " " + (word + "\n");
    PointerScans(v, "");
    assert word + "" == word;
  }

  lemma RegionReads(stamp: nat, start: nat, end: nat)
    requires stamp < LIMIT_64 && start < LIMIT_64 && end < LIMIT_64
    ensures var inst := BuildInst(LineOf(stamp, Region(start, end)));
      && inst == Inst('r', "0x" + Hex(end), stamp, 0, start)
      && RegionEnd(inst) == end
  {
    PointerWord(end);
    HeadReads(stamp, 'r', start, " 0x" + (Hex(end) + "\n"));
  }
}
