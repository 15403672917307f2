// The bucket array and its chains: linking at the front, unlinking, doubling.
module Buckets {
  import opened Bits
  import opened Handles
  import opened HashState
  import opened Sequences

  function At(s: seq<Element>, i: int): Element?
  {
    if 0 <= i < |s| then s[i] else null
  }

  ghost function First(s: seq<Element>): set<Element>
  {
    if s == [] then {} else {s[0]}
  }

  ghost predicate ChainLinked(s: seq<Element>)
    reads s`hhNext, s`hhPrev
  {
    && (forall i {:trigger s[i].hhNext} :: 0 <= i < |s| ==> s[i].hhNext == At(s, i + 1))
    && (forall i {:trigger s[i].hhPrev} :: 0 <= i < |s| ==> s[i].hhPrev == At(s, i - 1))
  }

  ghost predicate ChainsLinked(chains: seq<seq<Element>>)
    reads (set b, i | 0 <= b < |chains| && 0 <= i < |chains[b]| :: chains[b][i])`hhNext
    reads (set b, i | 0 <= b < |chains| && 0 <= i < |chains[b]| :: chains[b][i])`hhPrev
  {
    && (forall b, i {:trigger chains[b][i].hhNext} :: 0 <= b < |chains| && 0 <= i < |chains[b]| ==>
      chains[b][i].hhNext == At(chains[b], i + 1))
    && (forall b, i {:trigger chains[b][i].hhPrev} :: 0 <= b < |chains| && 0 <= i < |chains[b]| ==>
      chains[b][i].hhPrev == At(chains[b], i - 1))
  }

  ghost predicate SlotsMatch(slots: seq<BucketSlot>, chains: seq<seq<Element>>, mults: seq<nat>)
  {
    && |slots| == |chains| == |mults|
    && forall b :: 0 <= b < |slots| ==> slots[b] == BucketSlot(At(chains[b], 0), |chains[b]|, mults[b])
  }

  ghost predicate TableMatches(t: Table, st: State)
    reads t, t.buckets
  {
    t.numItems == |st.order| && TableButItems(t, st)
  }

  // As TableMatches, the number of items aside.
  ghost predicate TableButItems(t: Table, st: State)
    reads t, t.buckets
  {
    && t.numBuckets == |st.chains|
    && t.log2NumBuckets == st.log2
    && t.idealChainMaxlen == st.ideal
    && t.nonidealItems == st.nonideal
    && t.ineffExpands == st.ineff
    && t.noexpand == st.noexpand
    && SlotsMatch(t.buckets[..], st.chains, st.mults)
  }

  // Each element knows the hash of its key.
  ghost predicate Hashed(hash: HashFn, s: seq<Element>)
    reads s`hashv
  {
    forall i :: 0 <= i < |s| ==> s[i].hashv == hash(s[i].key)
  }

  // Puts e before the first element of chain b. The counts are the caller's business.
  method LinkFront(buckets: array<BucketSlot>, b: nat, e: Element, ghost hash: HashFn, ghost chains: seq<seq<Element>>)
    requires b < buckets.Length == |chains| && b == Bucket(hash, e.key, |chains|)
    requires buckets[b].hhHead == At(chains[b], 0)
    requires InPlace(hash, chains) && ChainsLinked(chains)
    requires e !in chains[b] && Distinct(chains[b])
    modifies buckets, e`hhNext, e`hhPrev, First(chains[b])`hhPrev
    ensures buckets[..] == old(buckets[..])[b := old(buckets[b]).(hhHead := e)]
    ensures ChainsLinked(chains[b := [e] + chains[b]])
  {
    var first := buckets[b].hhHead;
    ghost var chain := chains[b];
    assert ChainLinked(chain);
    assert forall c, i {:trigger chains[c][i]} :: 0 <= c < |chains| && c != b && 0 <= i < |chains[c]| ==> chains[c][i] != e && chains[c][i] != first by {
      forall c, i | 0 <= c < |chains| && c != b && 0 <= i < |chains[c]| ensures chains[c][i] != e && chains[c][i] != first {
        assert Bucket(hash, chains[c][i].key, |chains|) == c;
        assert first != null ==> first == chains[b][0] && Bucket(hash, chains[b][0].key, |chains|) == b;
      }
    }
    assert forall i :: 0 <= i < |chain| ==> chain[i] != e;
    assert forall i :: 0 < i < |chain| ==> chain[i] != first;
    e.hhNext := first;
    e.hhPrev := null;
    if first != null {
      first.hhPrev := e;
    }
    buckets[b] := buckets[b].(hhHead := e);
    ghost var chains' := chains[b := [e] + chains[b]];
    ghost var pushed := [e] + chain;
    assert pushed[0].hhNext == At(pushed, 1) && pushed[0].hhPrev == null;
    assert forall i :: 0 < i < |pushed| ==> pushed[i] == chain[i - 1];
    assert ChainLinked(pushed);
    forall c | 0 <= c < |chains| && c != b ensures ChainLinked(chains[c]) {
      assert old(ChainLinked(chains[c]));
    }
    assert forall c :: 0 <= c < |chains'| ==> chains'[c] == if c == b then pushed else chains[c];
  }

  // ------------------------------------------------------------ doubling

  // The part of the old chains that has been redistributed to bucket j when the
  // walk stands at element k of old bucket i.
  function Seen(chains: seq<seq<Element>>, i: nat, k: nat, j: nat): seq<Element>
    requires |chains| > 0 && i <= |chains| && (i < |chains| ==> k <= |chains[i]|)
  {
    var o := And(j, |chains| - 1);
    if o < i then chains[o] else if o == i then chains[o][..k] else []
  }

  ghost predicate Progress(hash: HashFn, chains: seq<seq<Element>>, i: nat, k: nat, new_: seq<seq<Element>>)
  {
    && |chains| > 0 && i <= |chains| && (i < |chains| ==> k <= |chains[i]|)
    && |new_| == 2 * |chains|
    && forall j :: 0 <= j < |new_| ==> new_[j] == Reverse(Select(hash, Seen(chains, i, k, j), |new_|, j))
  }

  lemma ProgressFacts(hash: HashFn, st: State, i: nat, k: nat, new_: seq<seq<Element>>)
    requires Wf(hash, st) && Progress(hash, st.chains, i, k, new_)
    ensures InPlace(hash, new_)
    ensures forall j :: 0 <= j < |new_| ==> Distinct(new_[j])
    ensures forall j, e :: 0 <= j < |new_| && e in new_[j] ==> e in st.order
    ensures i < |st.chains| && k < |st.chains[i]| ==>
      forall j :: 0 <= j < |new_| ==> st.chains[i][k] !in new_[j]
  {
    forall j | 0 <= j < |new_|
      ensures Distinct(new_[j])
      ensures forall e :: e in new_[j] ==> e in st.order && Bucket(hash, e.key, |new_|) == j
      ensures i < |st.chains| && k < |st.chains[i]| ==> st.chains[i][k] !in new_[j]
    {
      var seen := Seen(st.chains, i, k, j);
      var o := And(j, |st.chains| - 1);
      SelectMembers(hash, seen, |new_|, j);
      ReverseMembers(Select(hash, seen, |new_|, j));
      assert seen <= st.chains[o];
      assert forall x :: x in seen ==> x in st.chains[o];
      if i < |st.chains| && k < |st.chains[i]| && o != i {
        assert st.chains[i][k] in st.chains[i];
        assert Bucket(hash, st.chains[i][k].key, |st.chains|) == i;
      }
    }
  }

  lemma {:induction false} SelectSnoc(hash: HashFn, s: seq<Element>, e: Element, n: nat, b: nat)
    requires n > 0
    ensures Select(hash, s + [e], n, b) ==
      Select(hash, s, n, b) + if Bucket(hash, e.key, n) == b then [e] else []
  {
    if s != [] {
      SelectSnoc(hash, s[1..], e, n, b);
      assert (s + [e])[1..] == s[1..] + [e];
    } else {
      assert s + [e] == [e];
    }
  }

  lemma ProgressStep(hash: HashFn, st: State, i: nat, k: nat, new_: seq<seq<Element>>)
    requires Wf(hash, st) && Progress(hash, st.chains, i, k, new_)
    requires i < |st.chains| && k < |st.chains[i]|
    ensures var e := st.chains[i][k]; var b := Bucket(hash, e.key, |new_|);
      Progress(hash, st.chains, i, k + 1, new_[b := [e] + new_[b]])
  {
    var e := st.chains[i][k];
    var b := Bucket(hash, e.key, |new_|);
    assert e in st.chains[i];
    BucketOfDouble(hash, e.key, st.log2);
    assert And(b, |st.chains| - 1) == i;
    forall j | 0 <= j < |new_|
      ensures Reverse(Select(hash, Seen(st.chains, i, k + 1, j), |new_|, j)) == if j == b then [e] + new_[j] else new_[j]
    {
      var seen := Seen(st.chains, i, k, j);
      if And(j, |st.chains| - 1) == i {
        assert Seen(st.chains, i, k + 1, j) == seen + [e];
        SelectSnoc(hash, seen, e, |new_|, j);
        ReverseAppend(Select(hash, seen, |new_|, j), [e]);
        assert Reverse([e]) == [e];
        assert Select(hash, seen, |new_|, j) + [] == Select(hash, seen, |new_|, j);
      } else {
        assert Seen(st.chains, i, k + 1, j) == seen && j != b;
      }
    }
  }

  lemma ProgressNextBucket(hash: HashFn, chains: seq<seq<Element>>, i: nat, new_: seq<seq<Element>>)
    requires i < |chains| && Progress(hash, chains, i, |chains[i]|, new_)
    ensures Progress(hash, chains, i + 1, 0, new_)
  {
    forall j | 0 <= j < |new_| ensures Seen(chains, i, |chains[i]|, j) == Seen(chains, i + 1, 0, j) {
      assert chains[i][..|chains[i]|] == chains[i];
    }
  }

  lemma ProgressDone(hash: HashFn, chains: seq<seq<Element>>, new_: seq<seq<Element>>)
    requires Progress(hash, chains, |chains|, 0, new_)
    ensures new_ == SplitChains(hash, chains)
  {
    forall j | 0 <= j < |new_| ensures new_[j] == SplitChain(hash, chains, j) {
    }
  }

  lemma {:induction false} NonidealPush(chains: seq<seq<Element>>, b: nat, longer: seq<Element>, ideal: nat)
    requires b < |chains| && |longer| == |chains[b]| + 1
    ensures Nonideal(chains[b := longer], ideal) == Nonideal(chains, ideal) + if |longer| > ideal then 1 else 0
  {
    if b > 0 {
      NonidealPush(chains[1..], b - 1, longer, ideal);
      assert chains[b := longer][1..] == chains[1..][b - 1 := longer];
    } else {
      assert chains[b := longer][1..] == chains[1..];
    }
  }

  lemma {:induction false} NonidealOfEmpty(n: nat, ideal: nat)
    ensures Nonideal(seq(n, _ => []), ideal) == 0
  {
    if n > 0 {
      NonidealOfEmpty(n - 1, ideal);
      var empty: seq<seq<Element>> := seq(n, _ => []);
      assert empty[1..] == seq(n - 1, _ => []);
    }
  }

  ghost predicate Doubling(slots: seq<BucketSlot>, chains: seq<seq<Element>>, ideal: nat)
  {
    && |slots| == |chains|
    && forall b :: 0 <= b < |slots| ==>
      slots[b] == BucketSlot(At(chains[b], 0), |chains[b]|, ExpandMult(|chains[b]|, ideal))
  }

  // Counts one more element in new bucket b, and whether it exceeds the ideal.
  method CountElement(t: Table, slots: array<BucketSlot>, b: nat)
    requires b < slots.Length && slots[b].expandMult == ExpandMult(slots[b].count, t.idealChainMaxlen)
    modifies t`nonidealItems, slots
    ensures slots[..] == old(slots[..])[b := BucketSlot(old(slots[b].hhHead), old(slots[b].count) + 1,
      ExpandMult(old(slots[b].count) + 1, t.idealChainMaxlen))]
    ensures t.nonidealItems == old(t.nonidealItems) + if slots[b].count > t.idealChainMaxlen then 1 else 0
  {
    slots[b] := slots[b].(count := slots[b].count + 1);
    if slots[b].count > t.idealChainMaxlen {
      t.nonidealItems := t.nonidealItems + 1;
      if slots[b].count > slots[b].expandMult * t.idealChainMaxlen {
        slots[b] := slots[b].(expandMult := slots[b].expandMult + 1);
      }
    }
  }

  // One step of the redistribution loop: e goes to the front of new bucket b.
  method MoveElement(t: Table, slots: array<BucketSlot>, b: nat, e: Element, ghost hash: HashFn,
          ghost chains: seq<seq<Element>>)
    requires b < slots.Length && Doubling(slots[..], chains, t.idealChainMaxlen)
    requires t.nonidealItems == Nonideal(chains, t.idealChainMaxlen)
    requires b == Bucket(hash, e.key, |chains|)
    requires InPlace(hash, chains) && ChainsLinked(chains)
    requires e !in chains[b] && Distinct(chains[b])
    modifies t`nonidealItems, slots, e`hhNext, e`hhPrev, First(chains[b])`hhPrev
    ensures Doubling(slots[..], chains[b := [e] + chains[b]], t.idealChainMaxlen)
    ensures ChainsLinked(chains[b := [e] + chains[b]])
    ensures t.nonidealItems == Nonideal(chains[b := [e] + chains[b]], t.idealChainMaxlen)
  {
    NonidealPush(chains, b, [e] + chains[b], t.idealChainMaxlen);
    CountElement(t, slots, b);
    LinkFront(slots, b, e, hash, chains);
  }

  // What holds while the chains are being redistributed, the walk standing at
  // element k of old bucket i.
  ghost predicate Redistributing(t: Table, slots: array<BucketSlot>, hash: HashFn, st: State, i: nat, k: nat,
          new_: seq<seq<Element>>)
    reads t`nonidealItems, t`idealChainMaxlen, slots
    reads (set c, x | 0 <= c < |st.chains| && 0 <= x < |st.chains[c]| :: st.chains[c][x])`hhNext
    reads (set c, x | 0 <= c < |new_| && 0 <= x < |new_[c]| :: new_[c][x])`hhNext
    reads (set c, x | 0 <= c < |new_| && 0 <= x < |new_[c]| :: new_[c][x])`hhPrev
  {
    && Progress(hash, st.chains, i, k, new_)
    && Unvisited(st.chains, i, k)
    && Doubling(slots[..], new_, t.idealChainMaxlen)
    && ChainsLinked(new_)
    && t.nonidealItems == Nonideal(new_, t.idealChainMaxlen)
  }

  // The inner loop of HASH_EXPAND_BUCKETS: empties old bucket i.
  method MoveChain(t: Table, slots: array<BucketSlot>, i: nat, ghost hash: HashFn, ghost st: State,
          ghost before: seq<seq<Element>>)
    returns (ghost new_: seq<seq<Element>>)
    requires Wf(hash, st) && Hashed(hash, st.order)
    requires t.buckets != slots && i < t.buckets.Length == |st.chains| && t.buckets[i].hhHead == At(st.chains[i], 0)
    requires slots.Length == 2 * t.buckets.Length
    requires Redistributing(t, slots, hash, st, i, 0, before)
    modifies t`nonidealItems, slots, st.order`hhNext, st.order`hhPrev
    ensures Redistributing(t, slots, hash, st, i + 1, 0, new_)
  {
    hide InPlace, Progress, Nonideal;
    new_ := before;
    var thh := t.buckets[i].hhHead;
    ghost var k := 0;
    while thh != null
      invariant k <= |st.chains[i]| && thh == At(st.chains[i], k)
      invariant Redistributing(t, slots, hash, st, i, k, new_)
      decreases |st.chains[i]| - k
    {
      var following := thh.hhNext;
      new_ := MoveNext(t, slots, thh, i, k, hash, st, new_);
      thh := following;
      k := k + 1;
    }
    ProgressNextBucket(hash, st.chains, i, new_);
  }

  // The body of the inner loop.
  method MoveNext(t: Table, slots: array<BucketSlot>, thh: Element, ghost i: nat, ghost k: nat,
          ghost hash: HashFn, ghost st: State, ghost before: seq<seq<Element>>)
    returns (ghost new_: seq<seq<Element>>)
    requires Wf(hash, st) && Hashed(hash, st.order)
    requires slots.Length == 2 * |st.chains|
    requires i < |st.chains| && k < |st.chains[i]| && thh == st.chains[i][k]
    requires Redistributing(t, slots, hash, st, i, k, before)
    modifies t`nonidealItems, slots, st.order`hhNext, st.order`hhPrev
    ensures Redistributing(t, slots, hash, st, i, k + 1, new_)
  {
    hide InPlace, Progress, Nonideal;
    assert thh in st.chains[i];
    var b := And(thh.hashv, slots.Length - 1);
    ProgressFacts(hash, st, i, k, before);
    ProgressStep(hash, st, i, k, before);
    UnvisitedOthers(hash, st, i, k);
    assert thh in st.order && First(before[b]) <= set x | x in st.order;
    MoveElement(t, slots, b, thh, hash, before);
    new_ := before[b := [thh] + before[b]];
  }

  lemma UnvisitedOthers(hash: HashFn, st: State, i: nat, k: nat)
    requires Wf(hash, st) && i < |st.chains| && k < |st.chains[i]|
    ensures forall c, x :: i <= c < |st.chains| && (if c == i then k + 1 else 0) <= x < |st.chains[c]| ==>
      st.chains[c][x] != st.chains[i][k]
  {
    forall c, x | i <= c < |st.chains| && (if c == i then k + 1 else 0) <= x < |st.chains[c]|
      ensures st.chains[c][x] != st.chains[i][k]
    {
      assert Bucket(hash, st.chains[c][x].key, |st.chains|) == c;
      assert Bucket(hash, st.chains[i][k].key, |st.chains|) == i;
    }
  }

  lemma RedistributionStarts(t: Table, slots: array<BucketSlot>, hash: HashFn, st: State, new_: seq<seq<Element>>)
    requires Shape(st) && ChainsLinked(st.chains) && slots.Length == |new_| == 2 * |st.chains|
    requires forall b :: 0 <= b < slots.Length ==> slots[b] == BucketSlot(null, 0, 0)
    requires forall b :: 0 <= b < |new_| ==> new_[b] == []
    requires t.nonidealItems == Nonideal(new_, t.idealChainMaxlen) == 0
    ensures Redistributing(t, slots, hash, st, 0, 0, new_)
  {
    assert forall c :: 0 <= c < |st.chains| ==> ChainLinked(st.chains[c]);
    assert forall j :: 0 <= j < |new_| ==> Seen(st.chains, 0, 0, j) == [];
  }

  // The outer loop of HASH_EXPAND_BUCKETS.
  method MoveAllChains(t: Table, slots: array<BucketSlot>, ghost hash: HashFn, ghost st: State)
    requires Wf(hash, st) && Hashed(hash, st.order) && ChainsLinked(st.chains)
    requires SlotsMatch(t.buckets[..], st.chains, st.mults) && t.numBuckets == |st.chains|
    requires t.buckets != slots && slots.Length == 2 * |st.chains| && t.nonidealItems == 0
    requires forall b :: 0 <= b < slots.Length ==> slots[b] == BucketSlot(null, 0, 0)
    modifies t`nonidealItems, slots, st.order`hhNext, st.order`hhPrev
    ensures Doubling(slots[..], SplitChains(hash, st.chains), t.idealChainMaxlen)
    ensures ChainsLinked(SplitChains(hash, st.chains))
    ensures t.nonidealItems == Nonideal(SplitChains(hash, st.chains), t.idealChainMaxlen)
  {
    ghost var new_: seq<seq<Element>> := seq(slots.Length, _ => []);
    NonidealOfEmpty(slots.Length, t.idealChainMaxlen);
    RedistributionStarts(t, slots, hash, st, new_);
    var i := 0;
    while i < t.numBuckets
      invariant i <= |st.chains|
      invariant Redistributing(t, slots, hash, st, i, 0, new_)
      invariant t.buckets[..] == old(t.buckets[..])
    {
      new_ := MoveChain(t, slots, i, hash, st, new_);
      i := i + 1;
    }
    ProgressDone(hash, st.chains, new_);
  }

  method ComputeIdeal(t: Table, ghost st: State)
    requires Shape(st) && TableMatches(t, st)
    modifies t`idealChainMaxlen, t`nonidealItems
    ensures t.idealChainMaxlen == IdealLength(|st.order|, st.log2 + 1) && t.nonidealItems == 0
  {
    t.idealChainMaxlen := ShiftRight(t.numItems, t.log2NumBuckets + 1)
      + (if And(t.numItems, 2 * t.numBuckets - 1) != 0 then 1 else 0);
    t.nonidealItems := 0;
  }

  lemma DoublingMatches(slots: seq<BucketSlot>, hash: HashFn, st: State)
    requires Shape(st) && Doubling(slots, SplitChains(hash, st.chains), IdealLength(|st.order|, st.log2 + 1))
    ensures var r := Expand(hash, st); SlotsMatch(slots, r.chains, r.mults)
  {
  }

  // The bookkeeping after the chains have been redistributed.
  method FinishExpansion(t: Table, newBuckets: array<BucketSlot>, ghost hash: HashFn, ghost st: State,
          ghost chains: seq<seq<Element>>)
    requires Shape(st) && t.numBuckets == |st.chains| && t.log2NumBuckets == st.log2
    requires t.numItems == |st.order| && t.ineffExpands == st.ineff && t.noexpand == st.noexpand
    requires t.idealChainMaxlen == IdealLength(|st.order|, st.log2 + 1)
    requires t.nonidealItems == Nonideal(SplitChains(hash, st.chains), t.idealChainMaxlen)
    requires Doubling(newBuckets[..], SplitChains(hash, st.chains), t.idealChainMaxlen)
    requires ChainsLinked(chains)
    modifies t`numBuckets, t`log2NumBuckets, t`buckets, t`ineffExpands, t`noexpand
    ensures TableMatches(t, Expand(hash, st)) && t.buckets == newBuckets && ChainsLinked(chains)
  {
    hide IdealLength, Nonideal, SplitChains, ShiftRight, Doubling;
    DoublingMatches(newBuckets[..], hash, st);
    ghost var slots := newBuckets[..];
    t.numBuckets := 2 * t.numBuckets;
    t.log2NumBuckets := t.log2NumBuckets + 1;
    t.buckets := newBuckets;
    t.ineffExpands := if t.nonidealItems > ShiftRight(t.numItems, 1) then t.ineffExpands + 1 else 0;
    if t.ineffExpands > 1 {
      t.noexpand := true;
    }
    assert t.buckets[..] == slots;
  }

  // HASH_EXPAND_BUCKETS
  method ExpandBuckets(t: Table, ghost hash: HashFn, ghost st: State)
    requires Wf(hash, st) && TableMatches(t, st) && Hashed(hash, st.order) && ChainsLinked(st.chains)
    modifies t`numBuckets, t`log2NumBuckets, t`buckets, t`idealChainMaxlen, t`nonidealItems, t`ineffExpands, t`noexpand
    modifies st.order`hhNext, st.order`hhPrev
    ensures fresh(t.buckets)
    ensures TableMatches(t, Expand(hash, st)) && ChainsLinked(SplitChains(hash, st.chains))
  {
    var newBuckets := new BucketSlot[2 * t.numBuckets](_ => BucketSlot(null, 0, 0));
    ComputeIdeal(t, st);
    MoveInto(t, newBuckets, hash, st);
  }

  method MoveInto(t: Table, newBuckets: array<BucketSlot>, ghost hash: HashFn, ghost st: State)
    requires Wf(hash, st) && Hashed(hash, st.order) && ChainsLinked(st.chains)
    requires t.numBuckets == |st.chains| && t.log2NumBuckets == st.log2 && SlotsMatch(t.buckets[..], st.chains, st.mults)
    requires t.numItems == |st.order| && t.ineffExpands == st.ineff && t.noexpand == st.noexpand
    requires t.idealChainMaxlen == IdealLength(|st.order|, st.log2 + 1) && t.nonidealItems == 0
    requires t.buckets != newBuckets && newBuckets.Length == 2 * |st.chains|
    requires forall b :: 0 <= b < newBuckets.Length ==> newBuckets[b] == BucketSlot(null, 0, 0)
    modifies t`numBuckets, t`log2NumBuckets, t`buckets, t`ineffExpands, t`noexpand, t`nonidealItems
    modifies newBuckets, st.order`hhNext, st.order`hhPrev
    ensures t.buckets == newBuckets
    ensures TableMatches(t, Expand(hash, st)) && ChainsLinked(SplitChains(hash, st.chains))
  {
    MoveAllChains(t, newBuckets, hash, st);
    FinishExpansion(t, newBuckets, hash, st, SplitChains(hash, st.chains));
  }

  // The links of the elements the walk has still to reach.
  ghost predicate Unvisited(chains: seq<seq<Element>>, i: nat, k: nat)
    reads (set c, x | 0 <= c < |chains| && 0 <= x < |chains[c]| :: chains[c][x])`hhNext
  {
    forall c, x {:trigger chains[c][x].hhNext} :: i <= c < |chains| && (if c == i then k else 0) <= x < |chains[c]| ==>
      chains[c][x].hhNext == At(chains[c], x + 1)
  }

  // ------------------------------------------------------------ bucket operations

  // HASH_ADD_TO_BKT. The element is already counted and in the list.
  method AddToBucket(t: Table, b: nat, e: Element, ghost hash: HashFn, ghost st: State)
    requires TableMatches(t, st) && Shape(st) && b == Bucket(hash, e.key, |st.chains|)
    requires e !in st.chains[b] && Wf(hash, PushChain(hash, st, e))
    requires Hashed(hash, st.order) && ChainsLinked(st.chains)
    modifies t`numBuckets, t`log2NumBuckets, t`buckets, t`idealChainMaxlen, t`nonidealItems, t`ineffExpands, t`noexpand
    modifies t.buckets, st.order`hhNext, st.order`hhPrev
    ensures t.buckets == old(t.buckets) || fresh(t.buckets)
    ensures TableMatches(t, AddToTable(hash, st, e)) && ChainsLinked(AddToTable(hash, st, e).chains)
  {
    PushFront(t, b, e, hash, st);
    if t.buckets[b].count >= (t.buckets[b].expandMult + 1) * BKT_CAPACITY_THRESH && !t.noexpand {
      ExpandBuckets(t, hash, PushChain(hash, st, e));
    }
  }

  lemma UnpushedFacts(hash: HashFn, st: State, e: Element)
    requires Shape(st) && Wf(hash, PushChain(hash, st, e))
    ensures InPlace(hash, st.chains) && e in st.order
    ensures var b := Bucket(hash, e.key, |st.chains|);
      Distinct(st.chains[b]) && First(st.chains[b]) <= set x | x in st.order
  {
    var b := Bucket(hash, e.key, |st.chains|);
    var chains := PushChain(hash, st, e).chains;
    assert chains[b] == [e] + st.chains[b];
    assert chains[b][0] == e && forall i :: 0 <= i < |st.chains[b]| ==> chains[b][i + 1] == st.chains[b][i];
    forall c, x | 0 <= c < |chains| && x in st.chains[c] ensures Bucket(hash, x.key, |chains|) == c {
      assert x in chains[c];
    }
  }

  method PushFront(t: Table, b: nat, e: Element, ghost hash: HashFn, ghost st: State)
    requires TableMatches(t, st) && Shape(st) && b == Bucket(hash, e.key, |st.chains|)
    requires e !in st.chains[b] && Wf(hash, PushChain(hash, st, e))
    requires ChainsLinked(st.chains)
    modifies t.buckets, st.order`hhNext, st.order`hhPrev
    ensures TableMatches(t, PushChain(hash, st, e)) && ChainsLinked(PushChain(hash, st, e).chains)
  {
    UnpushedFacts(hash, st, e);
    t.buckets[b] := t.buckets[b].(count := t.buckets[b].count + 1);
    LinkFront(t.buckets, b, e, hash, st.chains);
  }

  // HASH_DEL_IN_BKT
  method DeleteInBucket(buckets: array<BucketSlot>, b: nat, e: Element, ghost hash: HashFn,
          ghost chains: seq<seq<Element>>, ghost mults: seq<nat>)
    requires b < buckets.Length && SlotsMatch(buckets[..], chains, mults)
    requires InPlace(hash, chains) && ChainsLinked(chains)
    requires e in chains[b] && Distinct(chains[b])
    modifies buckets, chains[b]`hhNext, chains[b]`hhPrev
    ensures SlotsMatch(buckets[..], chains[b := Remove(chains[b], e)], mults)
    ensures ChainsLinked(chains[b := Remove(chains[b], e)])
  {
    ghost var s := chains[b];
    ghost var k :| 0 <= k < |s| && s[k] == e;
    RemoveAt(s, e, k);
    assert ChainLinked(s);
    OtherChainsApart(hash, chains, b);
    ForgetInSlot(buckets, b, e, s);
    UnlinkChain(e, s, k);
    ghost var chains' := chains[b := Remove(s, e)];
    forall c | 0 <= c < |chains'| ensures ChainLinked(chains'[c]) {
      if c != b {
        assert old(ChainLinked(chains[c]));
      }
    }
  }

  method ForgetInSlot(buckets: array<BucketSlot>, b: nat, e: Element, ghost s: seq<Element>)
    requires b < buckets.Length && buckets[b].hhHead == At(s, 0) && buckets[b].count == |s|
    requires ChainLinked(s) && e in s && Distinct(s)
    modifies buckets
    ensures buckets[..] == old(buckets[..])[b := BucketSlot(At(Remove(s, e), 0), |s| - 1, old(buckets[b].expandMult))]
  {
    ghost var k :| 0 <= k < |s| && s[k] == e;
    RemoveAt(s, e, k);
    buckets[b] := buckets[b].(count := buckets[b].count - 1);
    if buckets[b].hhHead == e {
      buckets[b] := buckets[b].(hhHead := e.hhNext);
    }
  }

  lemma OtherChainsApart(hash: HashFn, chains: seq<seq<Element>>, b: nat)
    requires InPlace(hash, chains) && b < |chains|
    ensures forall c, i :: 0 <= c < |chains| && c != b && 0 <= i < |chains[c]| ==> chains[c][i] !in chains[b]
  {
    forall c, i | 0 <= c < |chains| && c != b && 0 <= i < |chains[c]| ensures chains[c][i] !in chains[b] {
      assert Bucket(hash, chains[c][i].key, |chains|) == c;
    }
  }

  method UnlinkChain(e: Element, ghost s: seq<Element>, ghost k: nat)
    requires Distinct(s) && ChainLinked(s) && k < |s| && s[k] == e
    modifies s`hhNext, s`hhPrev
    ensures ChainLinked(s[..k] + s[k + 1..])
  {
    if e.hhPrev != null {
      e.hhPrev.hhNext := e.hhNext;
    }
    if e.hhNext != null {
      e.hhNext.hhPrev := e.hhPrev;
    }
  }

  // HASH_FIND_IN_BKT
  method FindInBucket(slot: BucketSlot, key: Key, hashv: nat, ghost hash: HashFn, ghost s: seq<Element>)
    returns (out: Element?)
    requires slot.hhHead == At(s, 0) && ChainLinked(s) && Hashed(hash, s) && hashv == hash(key)
    ensures out == FindInChain(s, key)
  {
    out := slot.hhHead;
    ghost var k := 0;
    while out != null
      invariant k <= |s| && out == At(s, k)
      invariant FindInChain(s, key) == FindInChain(s[k..], key)
      decreases |s| - k
    {
      if out.hashv == hashv && |out.key| == |key| {
        if out.key == key {
          break;
        }
      }
      assert s[k..][1..] == s[k + 1..];
      out := out.hhNext;
      k := k + 1;
    }
  }
}
