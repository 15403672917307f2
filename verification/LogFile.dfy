// A whole log, written line by line by src/tracker.c and read line by line by
// src/interpret.c: the reader gets the records that were written.
module LogFile {
  import opened IntegerText
  import opened FormatGrammar
  import opened LogText
  import opened LineReader
  import opened EventLog
  import opened LeakReport

  // A line of the log: its timestamp and what it says
  datatype Stamped = Stamped(stamp: nat, entry: Entry)

  function LineFor(s: Stamped): string
  {
    LineOf(s.stamp, s.entry)
  }

  function FileText(log: seq<Stamped>): string
  {
    if log == [] then "" else LineFor(log[0]) + FileText(log[1..])
  }

  // A line more: what Tracker.Write does to the file.
  lemma {:induction false} FileGrows(log: seq<Stamped>, s: Stamped)
    ensures FileText(log + [s]) == FileText(log) + LineOf(s.stamp, s.entry)
    decreases |log|
  {
    hide LineOf;
    if log == [] {
      assert [s][1..] == [] && LineFor(s) + "" == "" + LineFor(s);
    } else {
      FileGrows(log[1..], s);
      assert (log + [s])[1..] == log[1..] + [s];
      assert LineFor(log[0]) + (FileText(log[1..]) + LineFor(s)) == FileText(log) + LineFor(s);
    }
  }

  predicate KnownOpcode(e: Entry)
  {
    match e
    case Event(opcode, _, _) => opcode == 'a' || opcode == 'f'
    case Frame(_) => true
    case Path(opcode, _, _) => opcode == 'x' || opcode == 'm'
    case Region(_, _) => true
  }

  // 64-bit numbers, sizes of allocs that a long holds, paths within one line, lines that
  // fit the buffer.
  predicate Loggable(s: Stamped)
  {
    && s.stamp < LIMIT_64 && Storable(s.entry) && KnownOpcode(s.entry)
    && (s.entry.Event? && s.entry.opcode == 'a' ==> s.entry.size <= LONG_MAX)
    && (s.entry.Path? ==> '\n' !in s.entry.path)
    && |LineFor(s)| <= MAX_LINE
  }

  predicate AllLoggable(log: seq<Stamped>)
  {
    log == [] || (Loggable(log[0]) && AllLoggable(log[1..]))
  }

  // ------------------------------------------------------------ fgets

  // The length of the next line, its end included, but at most max characters
  function LineLength(s: string, max: nat): (n: nat)
    ensures n <= |s| && n <= max && (s != "" && max > 0 ==> n > 0)
  {
    if s == "" || max == 0 then 0 else if s[0] == '\n' then 1 else 1 + LineLength(s[1..], max - 1)
  }

  function Lines(s: string): seq<string>
    decreases |s|
  {
    if s == "" then []
    else
      var n := LineLength(s, MAX_BUFFER_SIZE - 1);
      [s[..n]] + Lines(s[n..])
  }

  // One line end, at the end
  predicate IsLine(s: string)
  {
    s != "" && s[|s| - 1] == '\n' && forall k :: 0 <= k < |s| - 1 ==> s[k] != '\n'
  }

  lemma {:induction false} LineTaken(line: string, rest: string, max: nat)
    requires IsLine(line) && |line| <= max
    ensures LineLength(line + rest, max) == |line|
    decreases |line|
  {
    if |line| > 1 {
      assert (line + rest)[1..] == line[1..] + rest;
      LineTaken(line[1..], rest, max - 1);
    }
  }

  lemma LinesOfCons(line: string, rest: string)
    requires IsLine(line) && |line| < MAX_BUFFER_SIZE
    ensures Lines(line + rest) == [line] + Lines(rest)
  {
    LineTaken(line, rest, MAX_BUFFER_SIZE - 1);
    assert (line + rest)[..|line|] == line && (line + rest)[|line|..] == rest;
  }

  // ------------------------------------------------------------ one record

  // What a line says about memory: executable paths and regions say nothing.
  function RecordsIn(e: Entry): seq<Record>
  {
    match e
    case Event(opcode, addr, size) => [if opcode == 'a' then AllocEvent(addr, size) else FreeEvent(addr, size)]
    case Frame(addr) => [FrameRecord(addr)]
    case Path(opcode, addr, _) => if opcode == 'm' then [ModuleRecord(addr)] else []
    case Region(_, _) => []
  }

  // What the reader makes of an instruction
  function RecordsOf(inst: Inst): seq<Record>
  {
    match inst.opcode
    case 'a' => [AllocEvent(inst.addr, inst.allocSize)]
    case 'b' => [FrameRecord(inst.addr)]
    case 'f' => [FreeEvent(inst.addr, inst.allocSize)]
    case 'm' => [ModuleRecord(inst.addr)]
    case _ => []
  }

  // The size of a free is written but not read.
  function AsRead(r: Record): Record
  {
    if r.FreeEvent? then r.(size := 0) else r
  }

  function AllAsRead(log: seq<Record>): (r: seq<Record>)
    ensures |r| == |log| && forall i :: 0 <= i < |log| ==> r[i] == AsRead(log[i])
  {
    seq(|log|, i requires 0 <= i < |log| => AsRead(log[i]))
  }

  lemma AsReadOne(r: Record)
    ensures AllAsRead([r]) == [AsRead(r)] && AllAsRead([]) == []
  {
  }

  // The line of an entry reads back to its timestamp, opcode and address.
  lemma HeadReadsBack(s: Stamped)
    requires Loggable(s)
    ensures var inst := BuildInst(LineFor(s));
      && inst.timestamp == s.stamp && inst.opcode == LogText.OpcodeOf(s.entry) && inst.addr == LogText.AddrOf(s.entry)
      && (s.entry.Event? ==> inst.allocSize == if s.entry.opcode == 'a' then s.entry.size else 0)
  {
    match s.entry
    case Event(opcode, addr, size) => EventReads(s.stamp, opcode, addr, size);
    case Frame(addr) => FrameReads(s.stamp, addr);
    case Path(opcode, addr, path) => PathReads(s.stamp, opcode, addr, path);
    case Region(start, end) => RegionReads(s.stamp, start, end);
  }

  // It reads back to what it says about memory, whatever its path contains.
  lemma EntryReads(s: Stamped)
    requires Loggable(s)
    ensures RecordsOf(BuildInst(LineFor(s))) == AllAsRead(RecordsIn(s.entry))
  {
    HeadReadsBack(s);
    InstSays(BuildInst(LineFor(s)), s.entry);
  }

  lemma InstSays(inst: Inst, e: Entry)
    requires KnownOpcode(e) && inst.opcode == LogText.OpcodeOf(e) && inst.addr == LogText.AddrOf(e)
    requires e.Event? ==> inst.allocSize == if e.opcode == 'a' then e.size else 0
    ensures RecordsOf(inst) == AllAsRead(RecordsIn(e))
  {
    if RecordsIn(e) == [] {
      AsReadOne(FrameRecord(0));
    } else {
      AsReadOne(RecordsIn(e)[0]);
    }
  }

  // Digits hold no line end.
  lemma PrintedHasNoLineEnd(v: nat, base: Base)
    requires base == 10 || base == 16
    ensures '\n' !in Printed(v, base)
  {
    PrintedIsWord(v, base);
  }

  lemma EndsLine(front: string, line: string)
    requires '\n' !in front && line == front + "\n"
    ensures IsLine(line)
  {
    assert forall k :: 0 <= k < |front| ==> front[k] in front;
  }

  // A line with one word after the address
  lemma WordLine(stamp: nat, opcode: char, addr: nat, word: string)
    requires opcode != '\n' && '\n' !in word
    ensures IsLine((Decimal(stamp) + " ") + ([opcode] + (" 0x" + (Hex(addr) + (" " + (word + "\n"))))))
  {
    PrintedHasNoLineEnd(stamp, 10);
    PrintedHasNoLineEnd(addr, 16);
    var front := Decimal(stamp) + " " + [opcode] + " 0x" + Hex(addr) + " " + word;
    assert '\n' !in Decimal(stamp) && '\n' !in Hex(addr);
    EndsLine(front, (Decimal(stamp) + " ") + ([opcode] + (" 0x" + (Hex(addr) + (" " + (word + "\n"))))));
  }

  lemma FrameLine(stamp: nat, addr: nat)
    ensures IsLine(LineOf(stamp, Frame(addr)))
  {
    PrintedHasNoLineEnd(stamp, 10);
    PrintedHasNoLineEnd(addr, 16);
    assert '\n' !in Decimal(stamp) && '\n' !in Hex(addr);
    EndsLine(Decimal(stamp) + " " + "b 0x" + Hex(addr), LineOf(stamp, Frame(addr)));
  }

  lemma LineOfEntry(s: Stamped)
    requires Loggable(s)
    ensures IsLine(LineFor(s))
  {
    match s.entry
    case Event(opcode, addr, size) =>
      PrintedHasNoLineEnd(size, 10);
      WordLine(s.stamp, opcode, addr, Decimal(size));
    case Frame(addr) => FrameLine(s.stamp, addr);
    case Path(opcode, addr, path) => WordLine(s.stamp, opcode, addr, path);
    case Region(start, end) => RegionLine(s.stamp, start, end);
  }

  lemma RegionLine(stamp: nat, start: nat, end: nat)
    ensures IsLine(LineOf(stamp, Region(start, end)))
  {
    PrintedHasNoLineEnd(end, 16);
    var word := "0x" + Hex(end);
    assert '\n' !in Hex(end) && '\n' !in word;
    WordLine(stamp, 'r', start, word);
    assert " 0x" + (Hex(end) + "\n") == " " + (word + "\n");
  }

  // ------------------------------------------------------------ the whole log

  function LinesFor(log: seq<Stamped>): seq<string>
  {
    if log == [] then [] else [LineFor(log[0])] + LinesFor(log[1..])
  }

  // fgets finds the lines that were written.
  lemma {:induction false} LinesOfFile(log: seq<Stamped>)
    requires AllLoggable(log)
    ensures Lines(FileText(log)) == LinesFor(log)
    decreases |log|
  {
    if log != [] {
      LinesOfFile(log[1..]);
      LineOfEntry(log[0]);
      LinesOfCons(LineFor(log[0]), FileText(log[1..]));
    }
  }

  function RecordsRead(lines: seq<string>): seq<Record>
  {
    if lines == [] then [] else RecordsOf(BuildInst(lines[0])) + RecordsRead(lines[1..])
  }

  function RecordsWritten(log: seq<Stamped>): seq<Record>
  {
    if log == [] then [] else RecordsIn(log[0].entry) + RecordsWritten(log[1..])
  }

  lemma AllAsReadAppend(a: seq<Record>, b: seq<Record>)
    ensures AllAsRead(a + b) == AllAsRead(a) + AllAsRead(b)
  {
  }

  lemma {:induction false} LinesRead(log: seq<Stamped>)
    requires AllLoggable(log)
    ensures RecordsRead(LinesFor(log)) == AllAsRead(RecordsWritten(log))
    decreases |log|
  {
    if log != [] {
      var line, rest := LineFor(log[0]), log[1..];
      LinesRead(rest);
      EntryReads(log[0]);
      AllAsReadAppend(RecordsIn(log[0].entry), RecordsWritten(rest));
      assert ([line] + LinesFor(rest))[1..] == LinesFor(rest);
    } else {
      AsReadOne(FrameRecord(0));
    }
  }

  // The reader's fold does not look at the size of a free.
  lemma {:induction false} FreeSizesAreIgnored(log: seq<Record>)
    ensures ReadAll(AllAsRead(log)) == ReadAll(log)
    decreases |log|
  {
    if log != [] {
      var n := |log| - 1;
      FreeSizesAreIgnored(log[..n]);
      assert AllAsRead(log)[..n] == AllAsRead(log[..n]);
    }
  }

  // Reading the file gives the same summary as reading the records themselves.
  lemma FileReadsBack(log: seq<Stamped>)
    requires AllLoggable(log)
    ensures RecordsRead(Lines(FileText(log))) == AllAsRead(RecordsWritten(log))
    ensures ReadAll(RecordsRead(Lines(FileText(log)))) == ReadAll(RecordsWritten(log))
  {
    LinesOfFile(log);
    LinesRead(log);
    FreeSizesAreIgnored(RecordsWritten(log));
  }
}
