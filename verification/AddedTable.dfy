// The table of a reader that only ever adds: which of several elements with one key
// lookup finds, and when the table first expands.
module AddedTable {
  import opened Handles
  import opened HashState
  import opened Sequences
  import opened Runs
  import opened Duplicates

  function Adds(supply: seq<Element>): (ops: seq<Op>)
    ensures |ops| == |supply| && forall i :: 0 <= i < |ops| ==> ops[i] == OpAdd(supply[i])
  {
    seq(|supply|, i requires 0 <= i < |supply| => OpAdd(supply[i]))
  }

  // The elements added one by one to an empty hash
  ghost function TableOf(hash: HashFn, supply: seq<Element>): (st: State)
    ensures Shape(st)
  {
    RunFrom(hash, Initial(), Adds(supply))
  }

  lemma RunSplits(hash: HashFn, st: State, earlier: seq<Op>, e: Element, later: seq<Op>)
    requires Shape(st) && LegalRun(hash, st, earlier + ([OpAdd(e)] + later))
    ensures LegalRun(hash, st, earlier)
    ensures var before := RunFrom(hash, st, earlier);
      && e !in before.order && LegalRun(hash, Add(hash, before, e), later)
      && RunFrom(hash, st, earlier + ([OpAdd(e)] + later)) == RunFrom(hash, Add(hash, before, e), later)
  {
    RunAppend(hash, st, earlier, [OpAdd(e)] + later);
    assert ([OpAdd(e)] + later)[1..] == later;
  }

  lemma TableOfNone(hash: HashFn)
    ensures TableOf(hash, []) == Initial() && LegalRun(hash, Initial(), Adds([])) && Wf(hash, Initial())
  {
    assert Adds([]) == [];
    InitialIsWf(hash);
  }

  lemma TableOfOneMore(hash: HashFn, supply: seq<Element>)
    requires supply != []
    ensures var front, e := supply[..|supply| - 1], supply[|supply| - 1];
      && TableOf(hash, supply) == Add(hash, TableOf(hash, front), e)
      && (LegalRun(hash, Initial(), Adds(supply)) <==>
          LegalRun(hash, Initial(), Adds(front)) && e !in TableOf(hash, front).order)
  {
    var front, e := supply[..|supply| - 1], supply[|supply| - 1];
    assert Adds(supply) == Adds(front) + [OpAdd(e)];
    RunAppend(hash, Initial(), Adds(front), [OpAdd(e)]);
    assert [OpAdd(e)][1..] == [];
  }

  lemma AddsToOrder(hash: HashFn, st: State, e: Element)
    requires Shape(st)
    ensures Add(hash, st, e).order == st.order + [e]
  {
  }

  lemma {:induction false} TableFacts(hash: HashFn, supply: seq<Element>)
    requires Distinct(supply)
    ensures var st := TableOf(hash, supply);
      st.order == supply && Wf(hash, st) && LegalRun(hash, Initial(), Adds(supply))
    decreases |supply|
  {
    hide TableOf, Wf, LegalRun, Add;
    if supply == [] {
      TableOfNone(hash);
    } else {
      var front, e := supply[..|supply| - 1], supply[|supply| - 1];
      TableFacts(hash, front);
      TableOfOneMore(hash, supply);
      AddKeepsWf(hash, TableOf(hash, front), e);
      AddsToOrder(hash, TableOf(hash, front), e);
    }
  }

  // Of the elements with one key, lookup finds the last one added exactly when the
  // number of expansions since is even, or it is the only one.
  lemma TableFindsLatest(hash: HashFn, supply: seq<Element>, j: nat)
    requires Distinct(supply) && j < |supply|
    requires forall k :: j < k < |supply| ==> supply[k].key != supply[j].key
    ensures var before, st := TableOf(hash, supply[..j]), TableOf(hash, supply);
      Find(hash, st, supply[j].key) == supply[j]
      <==> EvenlyExpanded(before, st) || Equals(hash, st, supply[j].key) == [supply[j]]
  {
    hide RunFrom, LegalRun, Find, Wf;
    TableFacts(hash, supply);
    TableFacts(hash, supply[..j]);
    var e, earlier, later := supply[j], Adds(supply[..j]), Adds(supply[j + 1..]);
    assert Adds(supply) == earlier + ([OpAdd(e)] + later);
    RunSplits(hash, Initial(), earlier, e, later);
    NewestFound(hash, RunFrom(hash, Initial(), earlier), e, later);
  }

  // ------------------------------------------------------------ when the table expands

  // Adding records at most one expansion, after those before.
  lemma {:induction false} HistoryGrows(hash: HashFn, supply: seq<Element>, j: nat)
    requires j <= |supply|
    ensures TableOf(hash, supply[..j]).history <= TableOf(hash, supply).history
    decreases |supply|
  {
    hide TableOf;
    if j == |supply| {
      assert supply[..j] == supply;
    } else {
      var front := supply[..|supply| - 1];
      TableOfOneMore(hash, supply);
      HistoryGrows(hash, front, j);
      assert front[..j] == supply[..j];
      AddRecords(hash, TableOf(hash, front), supply[|supply| - 1]);
    }
  }

  lemma AddRecords(hash: HashFn, st: State, e: Element)
    requires Shape(st)
    ensures st.history <= Add(hash, st, e).history
  {
  }

  // A table that has not expanded
  ghost predicate Fresh(st: State)
    requires Shape(st)
  {
    st.history == [] && !st.noexpand && forall b :: 0 <= b < |st.mults| ==> st.mults[b] == 0
  }

  lemma {:induction false} SameLength(s: seq<Element>, t: seq<Element>)
    requires Distinct(s) && Distinct(t)
    ensures (forall i :: 0 <= i < |s| ==> s[i] in t) ==> |s| <= |t|
    decreases |t|
  {
    if forall i :: 0 <= i < |s| ==> s[i] in t {
      DistinctLength(s);
      DistinctLength(t);
      Included(set x | x in s, set x | x in t);
    }
  }

  lemma Included<T>(a: set<T>, b: set<T>)
    requires a <= b
    ensures |a| <= |b|
  {
    assert b == a + (b - a);
  }

  // No chain is longer than the list.
  lemma ChainWithinOrder(hash: HashFn, st: State, b: nat)
    requires Wf(hash, st) && b < |st.chains|
    ensures |st.chains[b]| <= |st.order|
  {
    assert forall i :: 0 <= i < |st.chains[b]| ==> st.chains[b][i] in st.chains[b];
    SameLength(st.chains[b], st.order);
  }

  // A fresh table expands when a chain gets its tenth element.
  lemma FreshAdd(hash: HashFn, st: State, e: Element)
    requires Shape(st) && Fresh(st)
    ensures var st', chain := Add(hash, st, e), st.chains[Bucket(hash, e.key, |st.chains|)];
      if |chain| < BKT_CAPACITY_THRESH - 1 then Fresh(st') else |st'.history| == 1
  {
  }

  // Fewer than ten elements never make it expand, whatever the hash function.
  lemma {:induction false} FewNeverExpand(hash: HashFn, supply: seq<Element>)
    requires Distinct(supply) && |supply| < BKT_CAPACITY_THRESH
    ensures Fresh(TableOf(hash, supply))
    decreases |supply|
  {
    hide TableOf, Wf, Add;
    if supply == [] {
      TableOfNone(hash);
    } else {
      var front, e := supply[..|supply| - 1], supply[|supply| - 1];
      FewNeverExpand(hash, front);
      TableFacts(hash, front);
      var st := TableOf(hash, front);
      ChainWithinOrder(hash, st, Bucket(hash, e.key, |st.chains|));
      TableOfOneMore(hash, supply);
      FreshAdd(hash, st, e);
    }
  }

  // Ten elements make it expand once, if the hash function is bad enough.
  lemma TenthExpands(hash: HashFn, supply: seq<Element>)
    requires Distinct(supply) && |supply| == BKT_CAPACITY_THRESH && forall key :: hash(key) == 0
    ensures |TableOf(hash, supply).history| == 1
  {
    hide TableOf, Add;
    var front, e := supply[..|supply| - 1], supply[|supply| - 1];
    FewNeverExpand(hash, front);
    TableFacts(hash, front);
    var st := TableOf(hash, front);
    forall i | 0 <= i < |front| ensures front[i] in st.chains[0] {
      assert front[i] in st.order && Bucket(hash, front[i].key, |st.chains|) == 0;
    }
    SameLength(front, st.chains[0]);
    TableOfOneMore(hash, supply);
    FreshAdd(hash, st, e);
  }
}
