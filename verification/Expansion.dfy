// The rules that decide when buckets are doubled, over single expansions and over runs.
module Expansion {
  import opened Bits
  import opened Handles
  import opened HashState
  import opened Sequences
  import opened Runs

  // ------------------------------------------------------------ one expansion

  // The multiplier counted up element by element, in closed form.
  function MultiplierOf(count: nat, ideal: nat): nat
    requires ideal > 0
  {
    if count <= ideal then 0 else Min(count - ideal, CeilDiv(count, ideal))
  }

  lemma CeilDivStep(n: nat, d: nat)
    requires d > 0
    ensures CeilDiv(n + 1, d) == if n % d == 0 then CeilDiv(n, d) + 1 else CeilDiv(n, d)
    ensures n + 1 > CeilDiv(n, d) * d <==> n % d == 0
  {
    var q, r := n / d, n % d;
    assert n == q * d + r;
    assert (q + 1) * d == q * d + d;
    if r + 1 == d {
      DivModUnique(n + 1, d, q + 1, 0);
    } else {
      DivModUnique(n + 1, d, q, r + 1);
    }
  }

  lemma MulMonotonic(a: nat, b: nat, d: nat)
    requires a <= b
    ensures a * d <= b * d
  {
  }

  lemma {:induction false} ExpandMultClosed(count: nat, ideal: nat)
    requires ideal > 0
    ensures ExpandMult(count, ideal) == MultiplierOf(count, ideal)
  {
    if count > 0 {
      var c := count - 1;
      ExpandMultClosed(c, ideal);
      CeilDivStep(c, ideal);
      var m := MultiplierOf(c, ideal);
      if c > ideal && c - ideal < CeilDiv(c, ideal) {
        BehindMultiples(m, c, ideal);
      }
    }
  }

  // Fewer increments than multiples so far: the next element adds one.
  lemma BehindMultiples(m: nat, c: nat, ideal: nat)
    requires 0 < ideal && m < CeilDiv(c, ideal)
    ensures c + 1 > m * ideal
  {
    MulMonotonic(m + 1, CeilDiv(c, ideal), ideal);
    CeilDivBounds(c, ideal);
    assert (m + 1) * ideal == m * ideal + ideal;
  }

  // No chain is longer than its share: (multiplier + 1) times the ideal length.
  lemma CountWithinShare(count: nat, ideal: nat)
    requires ideal > 0
    ensures count <= (ExpandMult(count, ideal) + 1) * ideal
  {
    hide CeilDiv, ExpandMult;
    ExpandMultClosed(count, ideal);
    var m := MultiplierOf(count, ideal);
    assert (m + 1) * ideal == m * ideal + ideal;
    if count > ideal {
      if m == count - ideal {
        MulMonotonic(1, ideal, m);
      } else {
        CeilDivBounds(count, ideal);
      }
    }
  }

  lemma ShareBelowTrigger(count: nat, mult: nat, ideal: nat)
    requires count <= (mult + 1) * ideal && ideal <= 9
    ensures count < (mult + 1) * BKT_CAPACITY_THRESH
  {
    MulMonotonic(ideal, 9, mult + 1);
    assert (mult + 1) * ideal <= (mult + 1) * 9;
  }

  lemma ExpandedParts(hash: HashFn, st: State, b: nat)
    requires Shape(st) && st.order != [] && b < 2 * |st.chains|
    ensures var r := Expand(hash, st);
      && r.ideal == CeilDiv(|st.order|, |r.chains|) > 0
      && r.mults[b] == ExpandMult(|r.chains[b]|, r.ideal)
      && r.chains[b] == Reverse(Select(hash, st.chains[And(b, |st.chains| - 1)], 2 * |st.chains|, b))
  {
    ShiftMaskIsCeilDiv(|st.order|, st.log2 + 1);
    CeilDivBounds(|st.order|, |Expand(hash, st).chains|);
  }

  // What every bucket looks like right after an expansion.
  lemma AfterExpansion(hash: HashFn, st: State, b: nat)
    requires Wf(hash, st) && st.order != [] && b < 2 * |st.chains|
    ensures var r := Expand(hash, st); var count := |r.chains[b]|;
      && r.ideal == CeilDiv(|st.order|, |r.chains|) > 0
      && r.mults[b] == MultiplierOf(count, r.ideal)
      && count <= (r.mults[b] + 1) * r.ideal
      && (r.ideal <= 9 ==> count < 10 * (r.mults[b] + 1))
      && r.chains[b] == Reverse(Select(hash, st.chains[And(b, |st.chains| - 1)], 2 * |st.chains|, b))
  {
    ExpandedParts(hash, st, b);
    var r := Expand(hash, st);
    var count, mult := |r.chains[b]|, r.mults[b];
    ExpandMultClosed(count, r.ideal);
    CountWithinShare(count, r.ideal);
    if r.ideal <= 9 {
      ShareBelowTrigger(count, mult, r.ideal);
    }
  }

  // The list is untouched, and no element is lost or duplicated.
  lemma ExpansionConserves(hash: HashFn, st: State)
    requires Wf(hash, st)
    ensures var r := Expand(hash, st);
      && r.order == st.order
      && CountChains(r.chains, |r.chains|) == CountChains(st.chains, |st.chains|)
      && forall key :: Find(hash, r, key) == null <==> Find(hash, st, key) == null
  {
    var r := Expand(hash, st);
    ExpandKeepsWf(hash, st);
    ChainsCountItems(hash, st);
    ChainsCountItems(hash, r);
    forall key ensures Find(hash, r, key) == null <==> Find(hash, st, key) == null {
      FindFinds(hash, st, key);
      FindFinds(hash, r, key);
    }
  }

  // ------------------------------------------------------------ when buckets double

  // A bucket number is the remainder of the hash value.
  lemma BucketIsRemainder(hash: HashFn, st: State, key: Key)
    requires Shape(st)
    ensures Bucket(hash, key, |st.chains|) == hash(key) % |st.chains|
  {
    MaskIsMod(hash(key), st.log2);
  }

  // Adding an element doubles the buckets exactly if its chain then has ten elements for
  // each unit of its multiplier, and ten more.
  lemma AddExpands(hash: HashFn, st: State, e: Element, cmp: Cmp)
    requires Shape(st)
    ensures var b := hash(e.key) % |st.chains|;
      var log2 := st.log2 + if !st.noexpand && |st.chains[b]| + 1 >= 10 * (st.mults[b] + 1) then 1 else 0;
      Add(hash, st, e).log2 == log2 && AddInOrder(hash, st, e, cmp).log2 == log2
  {
    BucketIsRemainder(hash, st, e.key);
  }

  // While expansion goes on, no chain is as long as that.
  ghost predicate ShortChains(st: State)
    requires Shape(st)
  {
    !st.noexpand && st.ideal <= 9 ==> forall b :: 0 <= b < |st.chains| ==> |st.chains[b]| < 10 * (st.mults[b] + 1)
  }

  lemma ExpandedIsShort(hash: HashFn, st: State)
    requires Shape(st) && st.order != []
    ensures ShortChains(Expand(hash, st))
  {
    hide SplitChains, Nonideal, IdealLength;
    var r := Expand(hash, st);
    forall b | 0 <= b < |r.chains| && r.ideal <= 9 ensures |r.chains[b]| < 10 * (r.mults[b] + 1) {
      ExpandedParts(hash, st, b);
      CountWithinShare(|r.chains[b]|, r.ideal);
      ShareBelowTrigger(|r.chains[b]|, r.mults[b], r.ideal);
    }
  }

  lemma AddToTableIsShort(hash: HashFn, st: State, order: seq<Element>, e: Element)
    requires Shape(st) && ShortChains(st) && order != []
    ensures ShortChains(AddToTable(hash, st.(order := order), e))
  {
    hide Expand;
    var pushed := PushChain(hash, st.(order := order), e);
    ExpandedIsShort(hash, pushed);
  }

  lemma DeleteIsShort(hash: HashFn, st: State, e: Element)
    requires Shape(st) && ShortChains(st)
    ensures ShortChains(Delete(hash, st, e))
  {
    RemoveShortens(st.chains[Bucket(hash, e.key, |st.chains|)], e);
  }

  lemma {:induction false} RemoveShortens(s: seq<Element>, e: Element)
    ensures |Remove(s, e)| <= |s|
  {
    if s != [] {
      RemoveShortens(s[1..], e);
    }
  }

  lemma ApplyIsShort(hash: HashFn, st: State, op: Op)
    requires Shape(st) && ShortChains(st)
    ensures ShortChains(Apply(hash, st, op))
  {
    hide AddToTable;
    match op
    case OpAdd(e) => AddToTableIsShort(hash, st, st.order + [e], e);
    case OpAddInOrder(e, cmp) =>
      InsertInOrderMembers(cmp, st.order, e);
      AddToTableIsShort(hash, st, InsertInOrder(cmp, st.order, e), e);
    case OpReplace(e) =>
      var f := Find(hash, st, e.key);
      var kept := if f == null then st else Delete(hash, st, f);
      if f != null {
        DeleteIsShort(hash, st, f);
      }
      AddToTableIsShort(hash, kept, kept.order + [e], e);
    case OpDelete(e) => DeleteIsShort(hash, st, e);
    case OpSort(cmp) =>
  }

  // Over any run: until expansion stops, and while the ideal length is below ten, every
  // chain is shorter than what makes the buckets double.
  lemma {:induction false} ChainsStayShort(hash: HashFn, st: State, ops: seq<Op>)
    requires Shape(st) && ShortChains(st)
    ensures ShortChains(RunFrom(hash, st, ops))
    decreases |ops|
  {
    if ops != [] {
      ApplyIsShort(hash, st, ops[0]);
      ChainsStayShort(hash, Apply(hash, st, ops[0]), ops[1..]);
    }
  }

  // ------------------------------------------------------------ when an expansion is ineffective

  // The places in chains at n and beyond
  function Beyond(chains: seq<seq<Element>>, n: nat): set<(int, int)>
  {
    set b, i | 0 <= b < |chains| && n <= i < |chains[b]| :: (b, i)
  }

  lemma {:induction false} Interval(b: int, lo: nat, hi: nat)
    requires lo <= hi
    ensures |set i | lo <= i < hi :: (b, i)| == hi - lo
    decreases hi
  {
    var all := set i | lo <= i < hi :: (b, i);
    if lo < hi {
      Interval(b, lo, hi - 1);
      assert all == (set i | lo <= i < hi - 1 :: (b, i)) + {(b, hi - 1)};
    } else {
      assert all == {};
    }
  }

  lemma {:induction false} NonidealLast(chains: seq<seq<Element>>, chain: seq<Element>, ideal: nat)
    ensures Nonideal(chains + [chain], ideal) == Nonideal(chains, ideal) + Excess(|chain|, ideal)
    decreases |chains|
  {
    if chains == [] {
      assert (chains + [chain])[1..] == [];
    } else {
      assert (chains + [chain])[1..] == chains[1..] + [chain];
      NonidealLast(chains[1..], chain, ideal);
    }
  }

  // The items counted as nonideal are those at a place beyond the ideal length.
  lemma {:induction false} NonidealIsBeyond(chains: seq<seq<Element>>, ideal: nat)
    ensures Nonideal(chains, ideal) == |Beyond(chains, ideal)|
    decreases |chains|
  {
    if chains == [] {
      assert Beyond(chains, ideal) == {};
    } else {
      var n := |chains| - 1;
      var front, chain := chains[..n], chains[n];
      NonidealIsBeyond(front, ideal);
      NonidealLast(front, chain, ideal);
      assert front + [chain] == chains;
      var more := set i | ideal <= i < |chain| :: (n, i);
      if ideal <= |chain| {
        Interval(n, ideal, |chain|);
      } else {
        assert more == {};
      }
      assert Beyond(chains, ideal) == Beyond(front, ideal) + more && Beyond(front, ideal) !! more;
    }
  }

  // More than half of the items are beyond their share, in their chains.
  ghost predicate Ineffective(st: State)
    requires Shape(st)
  {
    2 * |Beyond(st.chains, CeilDiv(|st.order|, |st.chains|))| > |st.order|
  }

  // What an expansion says of itself: the test is on the new chains, the counter of
  // ineffective expansions starts again after an effective one, and a second one stops it.
  lemma ExpansionJudged(hash: HashFn, st: State)
    requires Shape(st)
    ensures var r := Expand(hash, st);
      && r.order == st.order && |r.chains| == 2 * |st.chains|
      && r.nonideal == |Beyond(r.chains, CeilDiv(|st.order|, |r.chains|))|
      && r.history == st.history + [Ineffective(r)]
      && r.ineff == (if Ineffective(r) then st.ineff + 1 else 0)
      && (r.noexpand <==> st.noexpand || (Ineffective(r) && st.ineff > 0))
  {
    hide SplitChains, Nonideal;
    var r := Expand(hash, st);
    ShiftMaskIsCeilDiv(|st.order|, st.log2 + 1);
    NonidealIsBeyond(r.chains, r.ideal);
    assert Pow(2, 1) == 2;
    HalfIsLess(|st.order|, r.nonideal);
  }

  lemma HalfIsLess(items: nat, n: nat)
    ensures n > ShiftRight(items, 1) <==> 2 * n > items
  {
    assert Pow(2, 1) == 2 * Pow(2, 0);
  }

  // ------------------------------------------------------------ over a run

  // The number of expansions at the end of the history that were ineffective.
  function Streak(history: seq<bool>): nat
  {
    if history == [] || !history[|history| - 1] then 0 else 1 + Streak(history[..|history| - 1])
  }

  // Two consecutive expansions were ineffective.
  ghost predicate TwoInARow(history: seq<bool>)
  {
    exists i :: 0 <= i < |history| - 1 && history[i] && history[i + 1]
  }

  // The table remembers enough of its expansions.
  ghost predicate Remembers(st: State)
  {
    && Shape(st)
    && st.log2 == INITIAL_NUM_BUCKETS_LOG2 + |st.history|
    && st.ineff == Streak(st.history)
    && (st.noexpand <==> TwoInARow(st.history))
    && (st.noexpand ==> st.ineff >= 2)
  }

  lemma StreakAndPairs(history: seq<bool>)
    ensures Streak(history) >= 2 ==> TwoInARow(history)
    ensures TwoInARow(history) && (|history| < 2 || !TwoInARow(history[..|history| - 1])) ==> Streak(history) >= 2
  {
    var n := |history|;
    if n == 1 {
      assert history[..0] == [];
    }
    if n >= 2 {
      var front := history[..n - 1];
      assert front[..n - 2] == history[..n - 2] && front[|front| - 1] == history[n - 2];
      if Streak(history) >= 2 {
        assert history[n - 2] && history[n - 2 + 1];
      }
      if TwoInARow(history) && !TwoInARow(front) {
        var i :| 0 <= i < n - 1 && history[i] && history[i + 1];
        if i < n - 2 {
          PairInFront(history, i);
        }
      }
    }
  }

  lemma PairInFront(history: seq<bool>, i: nat)
    requires i + 2 < |history| && history[i] && history[i + 1]
    ensures TwoInARow(history[..|history| - 1])
  {
    var front := history[..|history| - 1];
    assert front[i] && front[i + 1];
  }

  lemma ExpandRemembers(hash: HashFn, st: State)
    requires Remembers(st) && !st.noexpand
    ensures Remembers(Expand(hash, st))
  {
    var r := Expand(hash, st);
    assert r.history[..|st.history|] == st.history;
    StreakAndPairs(r.history);
  }

  lemma AddToTableRemembers(hash: HashFn, st: State, order: seq<Element>, e: Element)
    requires Remembers(st)
    ensures Remembers(AddToTable(hash, st.(order := order), e))
    ensures st.noexpand ==> |AddToTable(hash, st.(order := order), e).chains| == |st.chains|
  {
    var pushed := PushChain(hash, st.(order := order), e);
    if MustExpand(pushed, Bucket(hash, e.key, |st.chains|)) {
      ExpandRemembers(hash, pushed);
    }
  }

  lemma ApplyRemembers(hash: HashFn, st: State, op: Op)
    requires Remembers(st)
    ensures Remembers(Apply(hash, st, op))
  {
    InitialRemembers();
    match op
    case OpAdd(e) => AddToTableRemembers(hash, st, st.order + [e], e);
    case OpAddInOrder(e, cmp) => AddToTableRemembers(hash, st, InsertInOrder(cmp, st.order, e), e);
    case OpReplace(e) =>
      var f := Find(hash, st, e.key);
      var kept := if f == null then st else Delete(hash, st, f);
      AddToTableRemembers(hash, kept, kept.order + [e], e);
    case OpDelete(e) =>
    case OpSort(cmp) =>
  }

  lemma InitialRemembers()
    ensures Remembers(Initial())
  {
  }

  lemma {:induction false} RunRemembers(hash: HashFn, st: State, ops: seq<Op>)
    requires Remembers(st)
    ensures Remembers(RunFrom(hash, st, ops))
    decreases |ops|
  {
    if ops != [] {
      ApplyRemembers(hash, st, ops[0]);
      RunRemembers(hash, Apply(hash, st, ops[0]), ops[1..]);
    }
  }

  // The operation removes the last element, and with it the table.
  ghost predicate FreesTable(hash: HashFn, st: State, op: Op)
    requires Shape(st)
  {
    |st.order| <= 1 && (op.OpDelete? || (op.OpReplace? && Find(hash, st, op.e.key) != null))
  }

  // The states of a run right after the expansions of its present table
  ghost function Expanded(hash: HashFn, ops: seq<Op>): (states: seq<State>)
    ensures forall i :: 0 <= i < |states| ==> Shape(states[i])
    decreases |ops|
  {
    if ops == [] then []
    else
      var front, op := ops[..|ops| - 1], ops[|ops| - 1];
      var before := RunFrom(hash, Initial(), front);
      var after := Apply(hash, before, op);
      if FreesTable(hash, before, op) then []
      else if |after.chains| > |before.chains| then Expanded(hash, front) + [after]
      else Expanded(hash, front)
  }

  // Which of them left more than half of the items nonideal
  ghost function Judged(states: seq<State>): (r: seq<bool>)
    requires forall i :: 0 <= i < |states| ==> Shape(states[i])
    ensures |r| == |states|
  {
    seq(|states|, i requires 0 <= i < |states| => Ineffective(states[i]))
  }

  // An operation frees the table, expands it, or neither.
  lemma ApplyJudged(hash: HashFn, st: State, op: Op)
    requires Shape(st)
    ensures var r := Apply(hash, st, op);
      if FreesTable(hash, st, op) then r.history == []
      else if |r.chains| > |st.chains| then r.history == st.history + [Ineffective(r)]
      else r.history == st.history
  {
    hide AddToTable, Ineffective;
    match op
    case OpAdd(e) => AddJudged(hash, st, st.order + [e], e);
    case OpAddInOrder(e, cmp) => AddJudged(hash, st, InsertInOrder(cmp, st.order, e), e);
    case OpReplace(e) =>
      var f := Find(hash, st, e.key);
      var kept := if f == null then st else Delete(hash, st, f);
      AddJudged(hash, kept, kept.order + [e], e);
      if FreesTable(hash, st, op) {
        FirstDoesNotExpand(hash, kept.order + [e], e);
      }
    case OpDelete(e) =>
    case OpSort(cmp) =>
  }

  lemma AddJudged(hash: HashFn, st: State, order: seq<Element>, e: Element)
    requires Shape(st)
    ensures var r := AddToTable(hash, st.(order := order), e);
      && |r.chains| >= |st.chains|
      && r.history == if |r.chains| > |st.chains| then st.history + [Ineffective(r)] else st.history
  {
    hide Expand, Ineffective;
    ExpansionJudged(hash, PushChain(hash, st.(order := order), e));
  }

  lemma FirstDoesNotExpand(hash: HashFn, order: seq<Element>, e: Element)
    ensures AddToTable(hash, Initial().(order := order), e).history == []
  {
  }

  lemma {:induction false} HistoryIsJudged(hash: HashFn, ops: seq<Op>)
    ensures RunFrom(hash, Initial(), ops).history == Judged(Expanded(hash, ops))
    decreases |ops|
  {
    hide Apply, FreesTable, Ineffective;
    if ops != [] {
      var front, op := ops[..|ops| - 1], ops[|ops| - 1];
      HistoryIsJudged(hash, front);
      RunOneMore(hash, ops);
      ApplyJudged(hash, RunFrom(hash, Initial(), front), op);
    }
  }

  lemma RunOneMore(hash: HashFn, ops: seq<Op>)
    requires ops != []
    ensures RunFrom(hash, Initial(), ops) == Apply(hash, RunFrom(hash, Initial(), ops[..|ops| - 1]), ops[|ops| - 1])
  {
    hide Apply;
    var front, op := ops[..|ops| - 1], ops[|ops| - 1];
    assert front + [op] == ops && [op][1..] == [];
    RunAppend(hash, Initial(), front, [op]);
  }

  // Over any run from an empty hash: 32 * 2^expansions buckets; ineff_expands counts the
  // latest expansions that left more than half of the items nonideal, and expansion stops
  // exactly when there have been two in a row.
  lemma BucketsAfterRun(hash: HashFn, ops: seq<Op>)
    ensures var r, states := RunFrom(hash, Initial(), ops), Expanded(hash, ops);
      && |r.chains| == 32 * Pow(2, |states|) && r.ineff == Streak(Judged(states))
      && (r.noexpand <==> exists i :: 0 <= i < |states| - 1 && Ineffective(states[i]) && Ineffective(states[i + 1]))
  {
    hide RunFrom, Expanded, Ineffective;
    var r, states := RunFrom(hash, Initial(), ops), Expanded(hash, ops);
    InitialRemembers();
    RunRemembers(hash, Initial(), ops);
    HistoryIsJudged(hash, ops);
    PowAdd(2, 5, |r.history|);
    assert Pow(2, 5) == 32;
    if r.noexpand {
      var i :| 0 <= i < |r.history| - 1 && r.history[i] && r.history[i + 1];
      assert Ineffective(states[i]) && Ineffective(states[i + 1]);
    }
    if i :| 0 <= i < |states| - 1 && Ineffective(states[i]) && Ineffective(states[i + 1]) {
      assert r.history[i] && r.history[i + 1];
    }
  }

  // Once expansion has stopped, an operation that does not free the table keeps the buckets.
  lemma NoExpandStays(hash: HashFn, st: State, op: Op)
    requires Remembers(st) && st.noexpand && !FreesTable(hash, st, op)
    ensures var r := Apply(hash, st, op);
      r.noexpand && |r.chains| == |st.chains| && r.history == st.history
  {
    match op
    case OpAdd(e) => AddToTableRemembers(hash, st, st.order + [e], e);
    case OpAddInOrder(e, cmp) => AddToTableRemembers(hash, st, InsertInOrder(cmp, st.order, e), e);
    case OpReplace(e) =>
      var f := Find(hash, st, e.key);
      var kept := if f == null then st else Delete(hash, st, f);
      AddToTableRemembers(hash, kept, kept.order + [e], e);
    case OpDelete(e) =>
    case OpSort(cmp) =>
  }

  // No operation of the run frees the table.
  ghost predicate KeepsTable(hash: HashFn, st: State, ops: seq<Op>)
    requires Shape(st)
    decreases |ops|
  {
    ops == [] || (!FreesTable(hash, st, ops[0]) && KeepsTable(hash, Apply(hash, st, ops[0]), ops[1..]))
  }

  // Over any run that does not free the table, the buckets are those of its start.
  lemma {:induction false} NoExpandOverRun(hash: HashFn, st: State, ops: seq<Op>)
    requires Remembers(st) && st.noexpand && KeepsTable(hash, st, ops)
    ensures var r := RunFrom(hash, st, ops);
      r.noexpand && |r.chains| == |st.chains| && r.history == st.history
    decreases |ops|
  {
    if ops != [] {
      NoExpandStays(hash, st, ops[0]);
      ApplyRemembers(hash, st, ops[0]);
      NoExpandOverRun(hash, Apply(hash, st, ops[0]), ops[1..]);
    }
  }
}
