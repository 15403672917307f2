// jm_tracker_fprintf of src/tracker.c: a line is sized, then written, in one buffer.
module Tracker {
  import opened IntegerText
  import T = IntegerTheorems
  import opened FormatText
  import opened FormatGrammar
  import opened FormatStandard
  import opened Printf
  import opened LogText
  import opened LineReader

  // The text of a call
  function Line(stamp: nat, f: string, args: seq<Arg>): string
  {
    (Decimal(stamp) + " ") + Render(f, 0, args)
  }

  lemma StampLength(stamp: nat)
    requires stamp < LIMIT_64
    ensures 2 <= |Decimal(stamp) + " "| <= 21
  {
    T.NumeralFits(stamp, 10, false);
    if stamp > 0 {
      T.NoLeadingZero(stamp, 10, false);
    }
  }

  class Tracker {
    // What tracker_fd has been given
    var written: string

    constructor ()
      ensures written == ""
    {
      written := "";
    }

    // The body of jm_tracker_fprintf, under tracker_fd_mutex. A line longer than the
    // buffer is written with what lies beyond it in memory. The line comes out as it
    // should if it has at most 2046 characters, and only then unless it contains NULs;
    // otherwise a NUL follows the first 2046.
    method Fprintf(stamp: nat, f: string, args: seq<Arg>, beyond: string)
      requires stamp < LIMIT_64 && Defined(f, 0, args)
      requires |Line(stamp, f, args)| <= INT_MAX && |Line(stamp, f, args)| <= MAX_BUFFER_SIZE + |beyond|
      modifies this
      ensures |written| == |old(written)| + |Line(stamp, f, args)| && old(written) <= written
      ensures |Line(stamp, f, args)| <= MAX_LINE ==> written == old(written) + Line(stamp, f, args)
      ensures |Line(stamp, f, args)| > MAX_LINE ==> old(written) + Line(stamp, f, args)[..MAX_LINE] + [NUL] <= written
      ensures NUL !in Render(f, 0, args) ==>
        (written == old(written) + Line(stamp, f, args) <==> |Line(stamp, f, args)| <= 2046)
    {
      var buffer := new char[MAX_BUFFER_SIZE];
      var len := PutStamp(buffer, stamp);
      var bodyLen := PutBody(buffer, stamp, len, f, args);
      len := len + bodyLen;
      var memory := buffer[..] + beyond;
      ghost var line := Line(stamp, f, args);
      SameEnd(written, memory[..len], line);
      if len <= MAX_LINE {
        assert memory[..len] == buffer[..len] == line;
      } else {
        assert memory[..len][MAX_LINE] == buffer[MAX_LINE] == NUL;
        assert memory[..len][..MAX_LINE] == buffer[..MAX_LINE];
      }
      written := written + memory[..len];
    }

    // A record of any of the four formats
    method Write(stamp: nat, e: Entry)
      requires stamp < LIMIT_64 && Storable(e) && OpcodeOf(e) != NUL && |LineOf(stamp, e)| <= MAX_LINE
      modifies this
      ensures written == old(written) + LineOf(stamp, e)
    {
      EntryPrints(e);
      BodyHasNoNul(e);
      Fprintf(stamp, FormatOf(e), ArgsOf(e), "");
    }
  }

  lemma NumeralHasNoNul(v: nat, base: Base)
    requires base == 10 || base == 16
    ensures NUL !in Printed(v, base)
  {
    NumeralDigits(v, base);
    forall k | 0 <= k < |Printed(v, base)| ensures Printed(v, base)[k] != NUL {
      if v > 0 {
        assert IsDigitOf(Numeral(v, base, false)[k], base);
      }
    }
  }

  lemma BodyHasNoNul(e: Entry)
    requires Storable(e) && OpcodeOf(e) != NUL
    ensures NUL !in BodyText(e)
  {
    NumeralHasNoNul(AddrOf(e), 16);
    match e
    case Event(_, _, size) => NumeralHasNoNul(size, 10);
    case Region(_, end) => NumeralHasNoNul(end, 16);
    case _ =>
  }

  lemma SameEnd(a: string, x: string, y: string)
    ensures a + x == a + y <==> x == y
  {
    assert (a + x)[|a|..] == x && (a + y)[|a|..] == y;
  }

  // The timestamp: a call without a buffer for the size, then the same call with one
  method PutStamp(buffer: array<char>, stamp: nat) returns (len: nat)
    requires stamp < LIMIT_64 && buffer.Length == MAX_BUFFER_SIZE
    modifies buffer
    ensures len == |Decimal(stamp) + " "| && 2 <= len <= 21 && buffer[..len] == Decimal(stamp) + " "
  {
    StampPrints(stamp);
    StampLength(stamp);
    ghost var text := Decimal(stamp) + " ";
    ResultIsLength(text);
    len := VSNPrintf(null, 0, 0, STAMP_FORMAT, [IntArg(stamp)]);
    assert len == |text|;
    ghost var before := buffer[..];
    var _ := VSNPrintf(buffer, 0, len + 1, STAMP_FORMAT, [IntArg(stamp)]);
    Truncation(before, 0, text, len + 1);
    assert buffer[..][0..len] == buffer[..len] && text[..len] == text;
  }

  // The body, in what is left of the buffer
  method PutBody(buffer: array<char>, stamp: nat, len: nat, f: string, args: seq<Arg>) returns (bodyLen: nat)
    requires stamp < LIMIT_64 && Defined(f, 0, args) && |Line(stamp, f, args)| <= INT_MAX
    requires buffer.Length == MAX_BUFFER_SIZE && len == |Decimal(stamp) + " "| <= 21
    requires buffer[..len] == Decimal(stamp) + " "
    modifies buffer
    ensures bodyLen == |Render(f, 0, args)|
    ensures |Line(stamp, f, args)| <= MAX_LINE ==> buffer[..len + bodyLen] == Line(stamp, f, args)
    ensures |Line(stamp, f, args)| > MAX_LINE ==>
      && buffer[..MAX_LINE] == Line(stamp, f, args)[..MAX_LINE] && buffer[MAX_LINE] == NUL
      && (NUL !in Render(f, 0, args) ==> Line(stamp, f, args)[MAX_LINE] != NUL)
  {
    ghost var before, text := buffer[..], Render(f, 0, args);
    ResultIsLength(text);
    bodyLen := VSNPrintf(buffer, len, MAX_BUFFER_SIZE - (len + 1), f, args);
    assert bodyLen == |text| && |Line(stamp, f, args)| == len + |text|;
    TruncatedBody(before, len, text);
    assert before[..len] == Decimal(stamp) + " ";
    if len + |text| <= MAX_LINE {
      assert buffer[..len + bodyLen] == buffer[..][..len + bodyLen];
    } else {
      assert buffer[..MAX_LINE] == buffer[..][..MAX_LINE];
      assert Line(stamp, f, args)[MAX_LINE] == text[MAX_LINE - len] && text[MAX_LINE - len] in text;
    }
  }

  // The buffer shows the whole text unless the NUL took the place of a character.
  lemma TruncatedBody(before: string, len: nat, text: string)
    requires |before| == MAX_BUFFER_SIZE && len <= 21
    ensures var after := Terminated(before, len, text, MAX_BUFFER_SIZE - (len + 1));
      if len + |text| <= MAX_LINE then after[..len + |text|] == before[..len] + text
      else after[..MAX_LINE] == (before[..len] + text)[..MAX_LINE] && after[MAX_LINE] == NUL
  {
    var n := MAX_BUFFER_SIZE - (len + 1);
    Truncation(before, len, text, n);
    var after := Terminated(before, len, text, n);
    if len + |text| <= MAX_LINE {
      assert text[..|text|] == text;
      assert after[..len + |text|] == after[..len] + after[len..len + |text|];
    } else {
      assert after[..MAX_LINE] == after[..len] + after[len..MAX_LINE];
    }
  }
}
