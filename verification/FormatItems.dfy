// Every format string that has a meaning is a list of items: what the loop of
// src/printf.c finds at a '%' is the text of a conversion.
module FormatItems {
  import opened Bits
  import opened IntegerText
  import opened FormatText
  import opened FormatGrammar

  function FlagsEnd(f: string, i: nat): (j: nat)
    ensures i <= j
  {
    ParseFlags(f, i, NO_FLAGS).1
  }

  function DigitsEnd(f: string, i: nat): (j: nat)
    ensures i <= j <= Max(i, |f|)
  {
    ParseNumber(f, i, 0).1
  }

  function WidthAt(f: string, i: nat): Width
    requires i < |f|
  {
    if IsDigit(f[i]) then Columns(f[i..DigitsEnd(f, i)]) else if f[i] == '*' then StarWidth else NoWidth
  }

  function PrecisionAt(f: string, i: nat): Precision
    requires i < |f|
  {
    if f[i] != '.' then NoPrecision
    else if IsDigit(CharAt(f, i + 1)) then Digits(f[i + 1..DigitsEnd(f, i + 1)])
    else if CharAt(f, i + 1) == '*' then StarPrecision
    else Dot
  }

  function LengthAt(f: string, i: nat): string
    requires i < |f|
  {
    match f[i]
    case 'l' => if CharAt(f, i + 1) == 'l' then "ll" else "l"
    case 'h' => if CharAt(f, i + 1) == 'h' then "hh" else "h"
    case 't' => "t"
    case 'j' => "j"
    case 'z' => "z"
    case _ => ""
  }

  // Where the parts of the directive whose '%' is at i stand; |f| or more once the
  // format has ended.
  function PlacesAt(f: string, i: nat): Places
  {
    var j := FlagsEnd(f, i + 1);
    var k := if j < |f| then j + |WidthText(WidthAt(f, j))| else j;
    var l := if k < |f| then k + |PrecisionText(PrecisionAt(f, k))| else k;
    Places(j, k, l, if l < |f| then l + |LengthAt(f, l)| else l)
  }

  function ItemAt(f: string, i: nat): Item
    requires PlacesAt(f, i).spec < |f|
  {
    var p := PlacesAt(f, i);
    Conversion(f[i + 1..p.width], WidthAt(f, p.width), PrecisionAt(f, p.precision), LengthAt(f, p.length), f[p.spec])
  }

  lemma {:induction false} FlagsFound(f: string, i: nat, flags: Flags)
    requires i < |f|
    ensures var j := ParseFlags(f, i, flags).1;
      j == FlagsEnd(f, i) && i <= j <= |f| && AllFlags(f[i..j]) && !IsFlag(CharAt(f, j))
    decreases |f| - i
  {
    var j := ParseFlags(f, i, flags).1;
    FlagsEndSame(f, i, flags, NO_FLAGS);
    if IsFlag(f[i]) && i + 1 < |f| {
      FlagsFound(f, i + 1, SetFlag(f[i], flags));
      assert f[i..j] == [f[i]] + f[i + 1..j];
    }
  }

  lemma {:induction false} FlagsEndSame(f: string, i: nat, a: Flags, b: Flags)
    ensures ParseFlags(f, i, a).1 == ParseFlags(f, i, b).1
    decreases |f| - i
  {
    if i < |f| && IsFlag(f[i]) {
      FlagsEndSame(f, i + 1, SetFlag(f[i], a), SetFlag(f[i], b));
    }
  }

  lemma {:induction false} DigitsFound(f: string, i: nat, n: nat)
    requires i < |f|
    ensures var j := ParseNumber(f, i, n).1;
      i <= j <= |f| && AllDigits(f[i..j]) && !IsDigit(CharAt(f, j)) && (IsDigit(f[i]) ==> i < j)
    decreases |f| - i
  {
    var j := ParseNumber(f, i, n).1;
    if IsDigit(f[i]) && i + 1 < |f| {
      DigitsFound(f, i + 1, (n * 10 + (f[i] as int - '0' as int)) % LIMIT_32);
      assert f[i..j] == [f[i]] + f[i + 1..j];
    }
  }

  lemma Joined(f: string, i: nat, x: string, y: string, next: nat)
    requires Has(f, i, x) && Has(f, next, y) && next == i + |x|
    ensures Has(f, i, x + y)
  {
    assert f[i..i + |x + y|] == f[i..next] + f[next..next + |y|];
  }

  lemma WidthFound(f: string, i: nat)
    requires i < |f|
    ensures var w := WidthAt(f, i);
      Has(f, i, WidthText(w)) && (i + |WidthText(w)| < |f| ==> WidthStands(w, f[i + |WidthText(w)|]))
  {
    DigitsFound(f, i, 0);
  }

  // p stands at i, and is read as such before what follows.
  ghost predicate PrecisionIn(f: string, i: nat, p: Precision, next: nat)
  {
    Has(f, i, PrecisionText(p)) && next == i + |PrecisionText(p)| && (next < |f| ==> PrecisionStands(p, f[next]))
  }

  lemma DigitsIn(f: string, i: nat)
    requires i + 1 < |f| && f[i] == '.' && IsDigit(f[i + 1])
    ensures PrecisionIn(f, i, Digits(f[i + 1..DigitsEnd(f, i + 1)]), DigitsEnd(f, i + 1))
  {
    hide ParseNumber;
    DigitsFound(f, i + 1, 0);
    assert f[i..i + 1] == ".";
    Joined(f, i, ".", f[i + 1..DigitsEnd(f, i + 1)], i + 1);
  }

  lemma StarIn(f: string, i: nat)
    requires i + 1 < |f| && f[i] == '.' && f[i + 1] == '*'
    ensures PrecisionIn(f, i, StarPrecision, i + 2)
  {
    assert f[i..i + 2] == ".*";
  }

  lemma DotIn(f: string, i: nat)
    requires i < |f| && f[i] == '.' && !IsDigit(CharAt(f, i + 1)) && CharAt(f, i + 1) != '*'
    ensures PrecisionIn(f, i, Dot, i + 1)
  {
    assert f[i..i + 1] == ".";
  }

  lemma PrecisionFound(f: string, i: nat)
    requires i < |f|
    ensures var p := PrecisionAt(f, i); PrecisionIn(f, i, p, i + |PrecisionText(p)|)
  {
    hide PrecisionIn, DigitsEnd;
    if f[i] != '.' {
      NoneIn(f, i);
    } else if IsDigit(CharAt(f, i + 1)) {
      DigitsIn(f, i);
      NextOfIn(f, i, Digits(f[i + 1..DigitsEnd(f, i + 1)]), DigitsEnd(f, i + 1));
    } else if CharAt(f, i + 1) == '*' {
      StarIn(f, i);
    } else {
      DotIn(f, i);
    }
  }

  lemma NoneIn(f: string, i: nat)
    requires i < |f| && f[i] != '.'
    ensures PrecisionIn(f, i, NoPrecision, i)
  {
  }

  lemma NextOfIn(f: string, i: nat, p: Precision, next: nat)
    requires PrecisionIn(f, i, p, next)
    ensures next == i + |PrecisionText(p)|
  {
  }

  lemma LengthFound(f: string, i: nat)
    requires i < |f|
    ensures var s := LengthAt(f, i);
      Has(f, i, s) && (i + |s| < |f| ==> LengthStands(s, f[i + |s|]))
  {
    if i + 1 < |f| {
      assert f[i..i + 2] == [f[i], f[i + 1]];
    }
  }

  // The parts of the item stand one after the other.
  lemma ItemStands(f: string, i: nat, item: Item, p: Places)
    requires i < |f| && f[i] == '%' && PlacesAt(f, i) == p && p.spec < |f| && item == ItemAt(f, i)
    ensures Has(f, p.length, EndText(item)) && Has(f, p.precision, TailText(item)) && Has(f, p.width, HeadText(item))
    ensures Has(f, i, Unparse(item)) && AllFlags(item.flags) && !IsFlag(f[p.width])
  {
    hide FlagsEnd, WidthAt, PrecisionAt, LengthAt, ParseFlags, WidthStands, PrecisionStands, LengthStands;
    FlagsFound(f, i + 1, NO_FLAGS);
    WidthFound(f, p.width);
    PrecisionFound(f, p.precision);
    LengthFound(f, p.length);
    Joined(f, p.length, item.length, [item.spec], p.spec);
    Joined(f, p.precision, PrecisionText(item.precision), EndText(item), p.length);
    Joined(f, p.width, WidthText(item.width), TailText(item), p.precision);
    Joined(f, i + 1, item.flags, HeadText(item), p.width);
    Joined(f, i, "%", item.flags + HeadText(item), i + 1);
  }

  // The item at a '%' is well formed, and its text stands there.
  lemma ItemFound(f: string, i: nat)
    requires i < |f| && f[i] == '%' && PlacesAt(f, i).spec < |f|
    ensures WellFormed(ItemAt(f, i)) && Has(f, i, Unparse(ItemAt(f, i)))
  {
    hide FlagsEnd, WidthAt, PrecisionAt, LengthAt, WidthStands, PrecisionStands, LengthStands;
    hide Has, Unparse, HeadText, TailText, EndText;
    var p, item := PlacesAt(f, i), ItemAt(f, i);
    ItemStands(f, i, item, p);
    WidthFound(f, p.width);
    PrecisionFound(f, p.precision);
    LengthFound(f, p.length);
    FirstChar(f, p.length, EndText(item));
    FirstChar(f, p.precision, TailText(item));
    FirstChar(f, p.width, HeadText(item));
  }

  lemma FirstChar(f: string, i: nat, x: string)
    requires Has(f, i, x) && x != ""
    ensures i < |f| && x[0] == f[i]
  {
    HasTail(f, i, x);
  }

  lemma WidthEnds(f: string, c: Cursor)
    requires c.Cursor? && c.i < |f|
    ensures ParseWidth(f, c).Cursor? ==> ParseWidth(f, c).i == c.i + |WidthText(WidthAt(f, c.i))|
  {
    DigitsFound(f, c.i, 0);
  }

  lemma PrecisionEnds(f: string, c: Cursor)
    requires c.Cursor? && c.i < |f|
    ensures ParsePrecision(f, c).Cursor? ==> ParsePrecision(f, c).i == c.i + |PrecisionText(PrecisionAt(f, c.i))|
  {
    if c.i + 1 < |f| {
      DigitsFound(f, c.i + 1, 0);
    }
  }

  lemma LengthEnds(f: string, c: Cursor)
    requires c.Cursor? && c.i < |f|
    ensures ParseLength(f, c).Cursor? ==> ParseLength(f, c).i == c.i + |LengthAt(f, c.i)|
  {
  }

  // Past the end nothing is parsed.
  lemma NothingAfterEnd(f: string, c: Cursor)
    requires c.Cursor? && c.i >= |f|
    ensures ParseWidth(f, c) == c && ParsePrecision(f, c) == c && ParseLength(f, c) == c
  {
  }

  // A directive that goes on has its specifier where the item has it.
  lemma SpecFound(f: string, i: nat, args: seq<Arg>)
    requires ParseDirective(f, i + 1, args).Cursor?
    ensures ParseDirective(f, i + 1, args).i == PlacesAt(f, i).spec
  {
    hide ParseWidth, ParsePrecision, ParseLength, ParseFlags, WidthAt, PrecisionAt, LengthAt;
    var (flags, j) := ParseFlags(f, i + 1, NO_FLAGS);
    var c0 := Cursor(j, args, flags, 0, 0);
    if j < |f| { WidthEnds(f, c0); } else { NothingAfterEnd(f, c0); }
    var c := ParseWidth(f, c0);
    if c.i < |f| { PrecisionEnds(f, c); } else { NothingAfterEnd(f, c); }
    var d := ParsePrecision(f, c);
    if d.i < |f| { LengthEnds(f, d); } else { NothingAfterEnd(f, d); }
  }

  // The items of a format, up to its end or to a directive that it cuts short
  function ItemsOf(f: string, i: nat, args: seq<Arg>): seq<Item>
    decreases |f| - i
  {
    if i >= |f| then []
    else if f[i] != '%' then [Literal(f[i])] + ItemsOf(f, i + 1, args)
    else
      match Directive(f, i, args)
      case Step(_, next, rest) =>
        (if PlacesAt(f, i).spec < |f| then [ItemAt(f, i)] else []) + ItemsOf(f, next, rest)
      case _ => []
  }

  function ItemsEnd(f: string, i: nat, args: seq<Arg>): nat
    decreases |f| - i
  {
    if i >= |f| then i
    else if f[i] != '%' then ItemsEnd(f, i + 1, args)
    else
      match Directive(f, i, args)
      case Step(_, next, rest) => ItemsEnd(f, next, rest)
      case _ => i
  }

  // A directive that goes on is an item's.
  lemma DirectiveHasItem(f: string, i: nat, args: seq<Arg>)
    requires i < |f| && f[i] == '%' && Directive(f, i, args).Step?
    ensures PlacesAt(f, i).spec < |f|
    ensures var item, step := ItemAt(f, i), Directive(f, i, args);
      && WellFormed(item) && Has(f, i, Unparse(item)) && step.next == i + |Unparse(item)|
      && Perform(item, args).Step? && Perform(item, args).text == step.text && Perform(item, args).args == step.args
  {
    hide ParseDirective, Directive, PlacesAt, Convert, Perform, Unparse, WellFormed;
    DirectiveIs(f, i, args);
    SpecFound(f, i, args);
    ItemFound(f, i);
    DirectiveRead(f, i, ItemAt(f, i), args);
  }

  // Where the items of a defined format end, it ends or stops for want of a specifier.
  ghost predicate EndsAt(f: string, end: nat, rest: seq<Arg>)
  {
    end == |f| || (end < |f| && f[end] == '%' && Directive(f, end, rest) == Stop)
  }

  // The first item, and where the format goes on
  lemma FirstFound(f: string, i: nat, args: seq<Arg>) returns (item: Item, next: nat)
    requires Defined(f, i, args) && i < |f| && (f[i] != '%' || Directive(f, i, args).Step?)
    ensures WellFormed(item) && Has(f, i, Unparse(item)) && next == i + |Unparse(item)|
    ensures i < next <= |f| && Perform(item, args).Step?
    ensures var step := Perform(item, args);
      && ItemsOf(f, i, args) == [item] + ItemsOf(f, next, step.args)
      && ItemsEnd(f, i, args) == ItemsEnd(f, next, step.args)
      && Render(f, i, args) == step.text + Render(f, next, step.args) && Defined(f, next, step.args)
  {
    if f[i] == '%' {
      hide Perform, WellFormed, Has, Unparse, Directive, ItemAt, PlacesAt;
      DirectiveHasItem(f, i, args);
      item, next := ItemAt(f, i), Directive(f, i, args).next;
    } else {
      hide Directive;
      item, next := Literal(f[i]), i + 1;
    }
  }

  lemma NoneFound(f: string, i: nat, args: seq<Arg>)
    requires i == |f| || (i < |f| && f[i] == '%' && Directive(f, i, args) == Stop)
    ensures ItemsOf(f, i, args) == [] && ItemsEnd(f, i, args) == i && Render(f, i, args) == ""
    ensures Has(f, i, "")
  {
  }

  // Every format that has a meaning is a list of items, and means what they mean.
  lemma {:induction false} FormatHasItems(f: string, i: nat, args: seq<Arg>)
    requires Defined(f, i, args) && i <= |f|
    ensures var items, end := ItemsOf(f, i, args), ItemsEnd(f, i, args);
      && AllWellFormed(items) && AllDefined(items, args)
      && Has(f, i, UnparseAll(items)) && end == i + |UnparseAll(items)|
      && Render(f, i, args) == PerformAll(items, args) && EndsAt(f, end, ArgsAfter(items, args))
    decreases |f| - i
  {
    hide Perform, WellFormed, Has, Unparse, Directive, ItemsOf, ItemsEnd, Render;
    if i < |f| && (f[i] != '%' || Directive(f, i, args).Step?) {
      var item, next := FirstFound(f, i, args);
      var rest := Perform(item, args).args;
      FormatHasItems(f, next, rest);
      OneMoreItem(f, i, item, ItemsOf(f, next, rest), args, next);
    } else {
      NoneFound(f, i, args);
    }
  }

  lemma OneMoreItem(f: string, i: nat, item: Item, rest: seq<Item>, args: seq<Arg>, next: nat)
    requires WellFormed(item) && AllWellFormed(rest) && Has(f, i, Unparse(item)) && Has(f, next, UnparseAll(rest))
    requires next == i + |Unparse(item)| && Perform(item, args).Step? && AllDefined(rest, Perform(item, args).args)
    ensures var items, step := [item] + rest, Perform(item, args);
      && AllWellFormed(items) && AllDefined(items, args) && Has(f, i, UnparseAll(items))
      && |UnparseAll(items)| == |Unparse(item)| + |UnparseAll(rest)|
      && PerformAll(items, args) == step.text + PerformAll(rest, step.args)
      && ArgsAfter(items, args) == ArgsAfter(rest, step.args)
  {
    var items := [item] + rest;
    assert items[0] == item && items[1..] == rest;
    Joined(f, i, Unparse(item), UnparseAll(rest), next);
  }
}
