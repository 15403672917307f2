// The text of log lines: the record formats of src/backtrace.c and src/tracker.c, and
// what the formatter makes of them.
module LogText {
  import opened IntegerText
  import T = IntegerTheorems
  import opened IntegerStandard
  import opened FormatText
  import opened FormatGrammar

  const STAMP_FORMAT: string := "%lu "
  const EVENT_FORMAT: string := "%c 0x%jx %ju\n"
  const FRAME_FORMAT: string := "b 0x%jx\n"
  const PATH_FORMAT: string := "%c 0x%jx %s\n"
  const REGION_FORMAT: string := "%c 0x%jx 0x%jx\n"

  // A record as its line shows it. Events have opcode a or f, paths x or m.
  datatype Entry =
    | Event(opcode: char, addr: nat, size: nat)
    | Frame(addr: nat)
    | Path(opcode: char, addr: nat, path: string)
    | Region(start: nat, end: nat)

  function OpcodeOf(e: Entry): char
  {
    match e
    case Event(opcode, _, _) => opcode
    case Frame(_) => 'b'
    case Path(opcode, _, _) => opcode
    case Region(_, _) => 'r'
  }

  function AddrOf(e: Entry): nat
  {
    match e
    case Event(_, addr, _) => addr
    case Frame(addr) => addr
    case Path(_, addr, _) => addr
    case Region(start, _) => start
  }

  function FormatOf(e: Entry): string
  {
    match e
    case Event(_, _, _) => EVENT_FORMAT
    case Frame(_) => FRAME_FORMAT
    case Path(_, _, _) => PATH_FORMAT
    case Region(_, _) => REGION_FORMAT
  }

  function ArgsOf(e: Entry): seq<Arg>
  {
    match e
    case Event(opcode, addr, size) => [IntArg(opcode as int), IntArg(addr), IntArg(size)]
    case Frame(addr) => [IntArg(addr)]
    case Path(opcode, addr, path) => [IntArg(opcode as int), IntArg(addr), StrArg(path)]
    case Region(start, end) => [IntArg('r' as int), IntArg(start), IntArg(end)]
  }

  predicate Storable(e: Entry)
  {
    && OpcodeOf(e) as int < LIMIT_8 && AddrOf(e) < LIMIT_64
    && (e.Event? ==> e.size < LIMIT_64)
    && (e.Path? ==> NUL !in e.path)
    && (e.Region? ==> e.end < LIMIT_64)
  }

  // ------------------------------------------------------------ numbers

  function Hex(n: nat): string
  {
    Printed(n, 16)
  }

  const LONG: Flags := NO_FLAGS.(longArg := true)

  lemma PlainBody(v: nat, base: Base)
    requires base != 2 && v < LIMIT_64
    ensures StandardField(v, false, base, 0, 0, LONG) == if v == 0 then "0" else Numeral(v, base, false)
  {
    var numeral := Numeral(v, base, false);
    if v > 0 {
      T.NoLeadingZero(v, base, false);
      assert Repeat('0', 0) + numeral == numeral;
    } else {
      assert Repeat('0', 1) + numeral == "0";
    }
    var body := Body(v, base, 0, LONG);
    assert Repeat(' ', 0) + "" + body == body;
  }

  lemma LongText(spec: char, v: nat)
    requires (spec == 'x' || spec == 'u') && v < LIMIT_64
    ensures IntegerConversion(spec, v, 0, 0, LONG) == if spec == 'x' then Hex(v) else Decimal(v)
  {
    var f := IntegerFlags(spec, BaseOf(spec), LONG);
    assert f == LONG && IntegerValue(spec, v, LONG) == v;
    T.NumeralFits(v, BaseOf(spec), false);
    FieldIsStandard(v, false, BaseOf(spec), 0, 0, LONG);
    PlainBody(v, BaseOf(spec));
  }

  // ------------------------------------------------------------ stepping through a format

  lemma LiteralRenders(f: string, i: nat, args: seq<Arg>)
    requires i < |f| && f[i] != '%'
    ensures Render(f, i, args) == [f[i]] + Render(f, i + 1, args) && Defined(f, i, args) == Defined(f, i + 1, args)
  {
  }

  lemma {:induction false} LiteralsRender(f: string, i: nat, x: string, args: seq<Arg>, next: nat)
    requires Has(f, i, x) && '%' !in x && next == i + |x|
    ensures Render(f, i, args) == x + Render(f, next, args)
    ensures Defined(f, i, args) == Defined(f, next, args)
    decreases |x|
  {
    if x == "" {
      assert x + Render(f, i, args) == Render(f, i, args);
    } else {
      HasTail(f, i, x);
      assert x[0] in x;
      LiteralRenders(f, i, args);
      LiteralsRender(f, i + 1, x[1..], args, next);
      Rejoin(x, Render(f, next, args));
    }
  }

  lemma Rejoin(x: string, rest: string)
    requires x != ""
    ensures x + rest == [x[0]] + (x[1..] + rest)
  {
  }

  lemma CharRenders(f: string, i: nat, args: seq<Arg>)
    requires Has(f, i, "%c") && args != [] && args[0].IntArg? && 0 <= args[0].value < LIMIT_8
    ensures Render(f, i, args) == [args[0].value as char] + Render(f, i + 2, args[1..])
    ensures Defined(f, i, args) == Defined(f, i + 2, args[1..])
  {
    var item := Conversion("", NoWidth, NoPrecision, "", 'c');
    assert Unparse(item) == "%c";
    CharPerforms(item, args);
    FirstItem(f, i, item, args, i + 2);
  }

  lemma CharPerforms(item: Item, args: seq<Arg>)
    requires item == Conversion("", NoWidth, NoPrecision, "", 'c')
    requires args != [] && args[0].IntArg? && 0 <= args[0].value < LIMIT_8
    ensures Perform(item, args) == Step([args[0].value as char], 1, args[1..])
  {
    assert Repeat(' ', 0) + [args[0].value as char] == [args[0].value as char];
  }

  lemma LongRenders(f: string, i: nat, length: string, spec: char, args: seq<Arg>)
    requires (length == "j" || length == "l") && (spec == 'x' || spec == 'u')
    requires Has(f, i, "%" + length + [spec]) && args != [] && args[0].IntArg? && 0 <= args[0].value < LIMIT_64
    ensures Render(f, i, args) ==
      (if spec == 'x' then Hex(args[0].value) else Decimal(args[0].value)) + Render(f, i + 3, args[1..])
    ensures Defined(f, i, args) == Defined(f, i + 3, args[1..])
  {
    var item := Conversion("", NoWidth, NoPrecision, length, spec);
    assert Unparse(item) == "%" + length + [spec];
    LongPerforms(item, args);
    FirstItem(f, i, item, args, i + 3);
  }

  lemma LongPerforms(item: Item, args: seq<Arg>)
    requires item.Conversion? && item == Conversion("", NoWidth, NoPrecision, item.length, item.spec)
    requires (item.length == "j" || item.length == "l") && (item.spec == 'x' || item.spec == 'u')
    requires args != [] && args[0].IntArg? && 0 <= args[0].value < LIMIT_64
    ensures Perform(item, args) ==
      Step(if item.spec == 'x' then Hex(args[0].value) else Decimal(args[0].value), 1, args[1..])
  {
    assert Collected(item, args) == Cursor(0, args, LONG, 0, 0);
    LongText(item.spec, args[0].value);
  }

  lemma StringRenders(f: string, i: nat, args: seq<Arg>)
    requires Has(f, i, "%s") && args != [] && args[0].StrArg?
    ensures Render(f, i, args) == args[0].text + Render(f, i + 2, args[1..])
    ensures Defined(f, i, args) == Defined(f, i + 2, args[1..])
  {
    var item := Conversion("", NoWidth, NoPrecision, "", 's');
    assert Unparse(item) == "%s";
    FirstItem(f, i, item, args, i + 2);
    assert Repeat(' ', 0) + args[0].text == args[0].text;
  }

  // ------------------------------------------------------------ the lines

  // The text of a record after the timestamp.
  function BodyText(e: Entry): string
  {
    match e
    case Event(opcode, addr, size) => [opcode] + (" 0x" + (Hex(addr) + (" " + (Decimal(size) + "\n"))))
    case Frame(addr) => "b 0x" + (Hex(addr) + "\n")
    case Path(opcode, addr, path) => [opcode] + (" 0x" + (Hex(addr) + (" " + (path + "\n"))))
    case Region(start, end) => ['r'] + (" 0x" + (Hex(start) + (" 0x" + (Hex(end) + "\n"))))
  }

  function LineOf(stamp: nat, e: Entry): string
  {
    (Decimal(stamp) + " ") + BodyText(e)
  }

  lemma LiteralsPrint(f: string, i: nat, x: string, args: seq<Arg>, next: nat, text: string)
    requires Has(f, i, x) && '%' !in x && next == i + |x| && Prints(f, next, args, text)
    ensures Prints(f, i, args, x + text)
  {
    LiteralsRender(f, i, x, args, next);
  }

  lemma CharPrints(f: string, i: nat, args: seq<Arg>, c: char, rest: seq<Arg>, next: nat, text: string)
    requires Has(f, i, "%c") && args == [IntArg(c as int)] + rest && c as int < LIMIT_8
    requires next == i + 2 && Prints(f, next, rest, text)
    ensures Prints(f, i, args, [c] + text)
  {
    CharRenders(f, i, args);
  }

  lemma LongPrints(f: string, i: nat, length: string, spec: char, args: seq<Arg>, v: nat, rest: seq<Arg>,
          next: nat, text: string)
    requires (length == "j" || length == "l") && (spec == 'x' || spec == 'u')
    requires Has(f, i, "%" + length + [spec]) && args == [IntArg(v)] + rest && v < LIMIT_64
    requires next == i + 3 && Prints(f, next, rest, text)
    ensures Prints(f, i, args, (if spec == 'x' then Hex(v) else Decimal(v)) + text)
  {
    LongRenders(f, i, length, spec, args);
  }

  lemma StringPrints(f: string, i: nat, args: seq<Arg>, s: string, rest: seq<Arg>, next: nat, text: string)
    requires Has(f, i, "%s") && args == [StrArg(s)] + rest
    requires next == i + 2 && Prints(f, next, rest, text)
    ensures Prints(f, i, args, s + text)
  {
    StringRenders(f, i, args);
  }

  lemma StampPrints(stamp: nat)
    requires stamp < LIMIT_64
    ensures Prints(STAMP_FORMAT, 0, [IntArg(stamp)], Decimal(stamp) + " ")
  {
    hide Prints, Hex, Printed;
    var f := STAMP_FORMAT;
    assert f[0..3] == "%l" + ['u'] && f[3..4] == " ";
    EndPrints(f, []);
    LiteralsPrint(f, 3, " ", [], 4, "");
    LongPrints(f, 0, "l", 'u', [IntArg(stamp)], stamp, [], 3, " ");
  }

  lemma EventPrints(opcode: char, addr: nat, size: nat)
    requires Storable(Event(opcode, addr, size))
    ensures Prints(EVENT_FORMAT, 0, ArgsOf(Event(opcode, addr, size)), BodyText(Event(opcode, addr, size)))
  {
    hide Prints, Hex, Printed;
    var f := EVENT_FORMAT;
    assert f[0..2] == "%c" && f[2..5] == " 0x" && f[5..8] == "%j" + ['x'] && f[8..9] == " ";
    assert f[9..12] == "%j" + ['u'] && f[12..13] == "\n";
    var s, a, c := IntArg(size), IntArg(addr), IntArg(opcode as int);
    EndPrints(f, []);
    LiteralsPrint(f, 12, "\n", [], 13, "");
    LongPrints(f, 9, "j", 'u', [s], size, [], 12, "\n");
    var t1 := Decimal(size) + "\n";
    LiteralsPrint(f, 8, " ", [s], 9, t1);
    LongPrints(f, 5, "j", 'x', [a, s], addr, [s], 8, " " + t1);
    var t2 := Hex(addr) + (" " + t1);
    LiteralsPrint(f, 2, " 0x", [a, s], 5, t2);
    CharPrints(f, 0, [c, a, s], opcode, [a, s], 2, " 0x" + t2);
  }

  lemma FramePrints(addr: nat)
    requires addr < LIMIT_64
    ensures Prints(FRAME_FORMAT, 0, ArgsOf(Frame(addr)), BodyText(Frame(addr)))
  {
    hide Prints, Hex, Printed;
    var f := FRAME_FORMAT;
    assert f[0..4] == "b 0x" && f[4..7] == "%j" + ['x'] && f[7..8] == "\n";
    EndPrints(f, []);
    LiteralsPrint(f, 7, "\n", [], 8, "");
    LongPrints(f, 4, "j", 'x', [IntArg(addr)], addr, [], 7, "\n");
    LiteralsPrint(f, 0, "b 0x", [IntArg(addr)], 4, Hex(addr) + "\n");
  }

  lemma PathPrints(opcode: char, addr: nat, path: string)
    requires Storable(Path(opcode, addr, path))
    ensures Prints(PATH_FORMAT, 0, ArgsOf(Path(opcode, addr, path)), BodyText(Path(opcode, addr, path)))
  {
    hide Prints, Hex, Printed;
    var f := PATH_FORMAT;
    assert f[0..2] == "%c" && f[2..5] == " 0x" && f[5..8] == "%j" + ['x'] && f[8..9] == " ";
    assert f[9..11] == "%s" && f[11..12] == "\n";
    var s, a, c := StrArg(path), IntArg(addr), IntArg(opcode as int);
    EndPrints(f, []);
    LiteralsPrint(f, 11, "\n", [], 12, "");
    StringPrints(f, 9, [s], path, [], 11, "\n");
    var t1 := path + "\n";
    LiteralsPrint(f, 8, " ", [s], 9, t1);
    LongPrints(f, 5, "j", 'x', [a, s], addr, [s], 8, " " + t1);
    var t2 := Hex(addr) + (" " + t1);
    LiteralsPrint(f, 2, " 0x", [a, s], 5, t2);
    CharPrints(f, 0, [c, a, s], opcode, [a, s], 2, " 0x" + t2);
  }

  lemma RegionEndPrints(end: nat)
    requires end < LIMIT_64
    ensures Prints(REGION_FORMAT, 8, [IntArg(end)], " 0x" + (Hex(end) + "\n"))
  {
    hide Prints, Hex, Printed;
    var f := REGION_FORMAT;
    assert f[8..11] == " 0x" && f[11..14] == "%j" + ['x'] && f[14..15] == "\n";
    EndPrints(f, []);
    LiteralsPrint(f, 14, "\n", [], 15, "");
    LongPrints(f, 11, "j", 'x', [IntArg(end)], end, [], 14, "\n");
    LiteralsPrint(f, 8, " 0x", [IntArg(end)], 11, Hex(end) + "\n");
  }

  lemma RegionPrints(start: nat, end: nat)
    requires start < LIMIT_64 && end < LIMIT_64
    ensures Prints(REGION_FORMAT, 0, ArgsOf(Region(start, end)), BodyText(Region(start, end)))
  {
    hide Prints, Hex, Printed;
    var f := REGION_FORMAT;
    assert f[0..2] == "%c" && f[2..5] == " 0x" && f[5..8] == "%j" + ['x'];
    var s, a, c := IntArg(end), IntArg(start), IntArg('r' as int);
    RegionEndPrints(end);
    var t1 := " 0x" + (Hex(end) + "\n");
    LongPrints(f, 5, "j", 'x', [a, s], start, [s], 8, t1);
    var t2 := Hex(start) + t1;
    LiteralsPrint(f, 2, " 0x", [a, s], 5, t2);
    CharPrints(f, 0, [c, a, s], 'r', [a, s], 2, " 0x" + t2);
  }

  // Every record's format prints the record's text.
  lemma EntryPrints(e: Entry)
    requires Storable(e)
    ensures Prints(FormatOf(e), 0, ArgsOf(e), BodyText(e))
  {
    match e
    case Event(opcode, addr, size) => EventPrints(opcode, addr, size);
    case Frame(addr) => FramePrints(addr);
    case Path(opcode, addr, path) => PathPrints(opcode, addr, path);
    case Region(start, end) => RegionPrints(start, end);
  }
}
