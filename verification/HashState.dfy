// What a uthash table is, as a value: the elements in insertion order, the chain
// of every bucket, and the numbers that decide when buckets are doubled.
module HashState {
  import opened Bits
  import opened Handles
  import opened Sequences

  const INITIAL_NUM_BUCKETS: nat := 32
  const INITIAL_NUM_BUCKETS_LOG2: nat := 5
  const BKT_CAPACITY_THRESH: nat := 10

  // `history` is not kept by the program: it records, for each expansion of this
  // table, whether more than half of the items were left in nonideal positions.
  datatype State = State(
    order: seq<Element>,
    chains: seq<seq<Element>>,
    log2: nat,
    mults: seq<nat>,
    ideal: nat,
    nonideal: nat,
    ineff: nat,
    noexpand: bool,
    history: seq<bool>)

  // A fresh table. A null head stands for it: the first insertion makes the table.
  function Initial(): (st: State)
    ensures Shape(st)
  {
    assert Pow(2, 5) == 32;
    State([], seq(INITIAL_NUM_BUCKETS, _ => []), INITIAL_NUM_BUCKETS_LOG2,
          seq(INITIAL_NUM_BUCKETS, _ => 0), 0, 0, 0, false, [])
  }

  ghost predicate Shape(st: State)
  {
    |st.chains| == |st.mults| == Pow(2, st.log2)
  }

  // HASH_TO_BKT
  function Bucket(hash: HashFn, key: Key, n: nat): (b: nat)
    requires n > 0
    ensures b < n
  {
    And(hash(key), n - 1)
  }

  // Elements in chain b hash to bucket b.
  ghost predicate InPlace(hash: HashFn, chains: seq<seq<Element>>)
  {
    forall b, e :: 0 <= b < |chains| && e in chains[b] ==> Bucket(hash, e.key, |chains|) == b
  }

  // The list and the chains hold the same elements, each once.
  ghost predicate Wf(hash: HashFn, st: State)
  {
    && Shape(st)
    && Distinct(st.order)
    && InPlace(hash, st.chains)
    && (forall b :: 0 <= b < |st.chains| ==> Distinct(st.chains[b]))
    && (forall b, e :: 0 <= b < |st.chains| && e in st.chains[b] ==> e in st.order)
    && (forall e :: e in st.order ==> e in st.chains[Bucket(hash, e.key, |st.chains|)])
  }

  lemma InitialIsWf(hash: HashFn)
    ensures Wf(hash, Initial())
  {
  }

  // ------------------------------------------------------------ expansion

  // The members of s that hash to bucket b of n.
  function Select(hash: HashFn, s: seq<Element>, n: nat, b: nat): (r: seq<Element>)
    requires n > 0
  {
    if s == [] then []
    else if Bucket(hash, s[0].key, n) == b then [s[0]] + Select(hash, s[1..], n, b)
    else Select(hash, s[1..], n, b)
  }

  // Chain b after doubling n buckets: the old chain it draws from, filtered and reversed.
  function SplitChain(hash: HashFn, chains: seq<seq<Element>>, b: nat): seq<Element>
    requires |chains| > 0
  {
    Reverse(Select(hash, chains[And(b, |chains| - 1)], 2 * |chains|, b))
  }

  function SplitChains(hash: HashFn, chains: seq<seq<Element>>): (r: seq<seq<Element>>)
    requires |chains| > 0
    ensures |r| == 2 * |chains|
  {
    seq(2 * |chains|, b requires 0 <= b => SplitChain(hash, chains, b))
  }

  // expand_mult of a bucket that received count elements one by one.
  function ExpandMult(count: nat, ideal: nat): nat
  {
    if count == 0 then 0
    else
      var m := ExpandMult(count - 1, ideal);
      if count > ideal && count > m * ideal then m + 1 else m
  }

  function Excess(count: nat, ideal: nat): nat
  {
    if count > ideal then count - ideal else 0
  }

  function Nonideal(chains: seq<seq<Element>>, ideal: nat): nat
  {
    if chains == [] then 0 else Excess(|chains[0]|, ideal) + Nonideal(chains[1..], ideal)
  }

  function IdealLength(items: nat, log2: nat): nat
  {
    ShiftRight(items, log2) + (if And(items, Pow(2, log2) - 1) != 0 then 1 else 0)
  }

  // HASH_EXPAND_BUCKETS
  function Expand(hash: HashFn, st: State): (r: State)
    requires Shape(st)
    ensures Shape(r)
  {
    var ideal := IdealLength(|st.order|, st.log2 + 1);
    var chains := SplitChains(hash, st.chains);
    var nonideal := Nonideal(chains, ideal);
    var ineffective := nonideal > ShiftRight(|st.order|, 1);
    var ineff := if ineffective then st.ineff + 1 else 0;
    State(st.order, chains, st.log2 + 1,
          seq(|chains|, b requires 0 <= b < |chains| => ExpandMult(|chains[b]|, ideal)),
          ideal, nonideal, ineff, st.noexpand || ineff > 1, st.history + [ineffective])
  }

  // ------------------------------------------------------------ operations

  ghost predicate MustExpand(st: State, b: nat)
    requires Shape(st) && b < |st.chains|
  {
    |st.chains[b]| >= (st.mults[b] + 1) * BKT_CAPACITY_THRESH && !st.noexpand
  }

  function PushChain(hash: HashFn, st: State, e: Element): (r: State)
    requires Shape(st)
    ensures Shape(r)
  {
    var b := Bucket(hash, e.key, |st.chains|);
    st.(chains := st.chains[b := [e] + st.chains[b]])
  }

  // HASH_ADD_TO_TABLE, once the element is in the list
  ghost function AddToTable(hash: HashFn, st: State, e: Element): (r: State)
    requires Shape(st)
    ensures Shape(r)
  {
    var pushed := PushChain(hash, st, e);
    if MustExpand(pushed, Bucket(hash, e.key, |st.chains|)) then Expand(hash, pushed) else pushed
  }

  ghost function Add(hash: HashFn, st: State, e: Element): (r: State)
    requires Shape(st)
    ensures Shape(r)
  {
    AddToTable(hash, st.(order := st.order + [e]), e)
  }

  type Cmp = (Element, Element) -> int

  // e goes before the first element that compares greater than it.
  function InsertInOrder(cmp: Cmp, s: seq<Element>, e: Element): (r: seq<Element>)
  {
    if s == [] then [e]
    else if cmp(s[0], e) > 0 then [e] + s
    else [s[0]] + InsertInOrder(cmp, s[1..], e)
  }

  ghost function AddInOrder(hash: HashFn, st: State, e: Element, cmp: Cmp): (r: State)
    requires Shape(st)
    ensures Shape(r)
  {
    AddToTable(hash, st.(order := InsertInOrder(cmp, st.order, e)), e)
  }

  // HASH_DELETE_HH: the table goes with its last element
  function Delete(hash: HashFn, st: State, e: Element): (r: State)
    requires Shape(st)
    ensures Shape(r)
  {
    if |st.order| <= 1 then Initial()
    else
      var b := Bucket(hash, e.key, |st.chains|);
      st.(order := Remove(st.order, e), chains := st.chains[b := Remove(st.chains[b], e)])
  }

  function FindInChain(s: seq<Element>, key: Key): (r: Element?)
  {
    if s == [] then null else if s[0].key == key then s[0] else FindInChain(s[1..], key)
  }

  // HASH_FIND
  function Find(hash: HashFn, st: State, key: Key): (r: Element?)
    requires Shape(st)
  {
    FindInChain(st.chains[Bucket(hash, key, |st.chains|)], key)
  }

  // HASH_REPLACE
  ghost function Replace(hash: HashFn, st: State, e: Element): (r: State)
    requires Shape(st)
    ensures Shape(r)
  {
    var old_ := Find(hash, st, e.key);
    Add(hash, if old_ == null then st else Delete(hash, st, old_), e)
  }

  // ------------------------------------------------------------ invariance

  lemma WfFromMembers(hash: HashFn, st: State)
    requires Shape(st) && Distinct(st.order)
    requires forall b :: 0 <= b < |st.chains| ==> Distinct(st.chains[b])
    requires forall b :: 0 <= b < |st.chains| ==>
      forall e :: e in st.chains[b] <==> e in st.order && Bucket(hash, e.key, |st.chains|) == b
    ensures Wf(hash, st)
  {
  }

  lemma {:induction false} SelectMembers(hash: HashFn, s: seq<Element>, n: nat, b: nat)
    requires n > 0
    ensures forall e :: e in Select(hash, s, n, b) <==> e in s && Bucket(hash, e.key, n) == b
    ensures Distinct(s) ==> Distinct(Select(hash, s, n, b))
  {
    if s != [] {
      SelectMembers(hash, s[1..], n, b);
      assert s == [s[0]] + s[1..];
    }
  }

  // The bucket among 2n fixes the bucket among n.
  lemma BucketOfDouble(hash: HashFn, key: Key, log2: nat)
    ensures And(Bucket(hash, key, Pow(2, log2 + 1)), Pow(2, log2) - 1) == Bucket(hash, key, Pow(2, log2))
  {
    MaskIsMod(hash(key), log2 + 1);
    MaskIsMod(hash(key), log2);
    MaskIsMod(Bucket(hash, key, Pow(2, log2 + 1)), log2);
    ModOfDouble(hash(key), log2);
  }

  lemma SplitChainMembers(hash: HashFn, st: State, b: nat)
    requires Wf(hash, st) && b < 2 * |st.chains|
    ensures forall e :: e in SplitChain(hash, st.chains, b) <==>
      e in st.order && Bucket(hash, e.key, 2 * |st.chains|) == b
    ensures Distinct(SplitChain(hash, st.chains, b))
  {
    var old_ := st.chains[And(b, |st.chains| - 1)];
    var kept := Select(hash, old_, 2 * |st.chains|, b);
    SelectMembers(hash, old_, 2 * |st.chains|, b);
    ReverseMembers(kept);
    forall e | e in st.order && Bucket(hash, e.key, 2 * |st.chains|) == b ensures e in kept {
      BucketOfDouble(hash, e.key, st.log2);
    }
  }

  lemma ExpandKeepsWf(hash: HashFn, st: State)
    requires Wf(hash, st)
    ensures Wf(hash, Expand(hash, st))
  {
    var n := 2 * |st.chains|;
    var chains := SplitChains(hash, st.chains);
    forall b: nat | b < n
      ensures Distinct(chains[b])
      ensures forall e :: e in chains[b] <==> e in st.order && Bucket(hash, e.key, n) == b
    {
      SplitChainMembers(hash, st, b);
      assert chains[b] == SplitChain(hash, st.chains, b);
    }
    WfFromMembers(hash, Expand(hash, st));
  }

  lemma AddToTableKeepsWf(hash: HashFn, st: State, order: seq<Element>, e: Element)
    requires Wf(hash, st) && e !in st.order
    requires Distinct(order) && forall x :: x in order <==> x in st.order || x == e
    ensures Wf(hash, PushChain(hash, st.(order := order), e))
    ensures Wf(hash, AddToTable(hash, st.(order := order), e))
  {
    var pushed := PushChain(hash, st.(order := order), e);
    var b := Bucket(hash, e.key, |st.chains|);
    assert forall x :: x in pushed.chains[b] <==> x in st.chains[b] || x == e;
    ExpandKeepsWf(hash, pushed);
  }

  lemma AddKeepsWf(hash: HashFn, st: State, e: Element)
    requires Wf(hash, st) && e !in st.order
    ensures Wf(hash, Add(hash, st, e))
  {
    AddToTableKeepsWf(hash, st, st.order + [e], e);
  }

  lemma {:induction false} InsertInOrderMembers(cmp: Cmp, s: seq<Element>, e: Element)
    ensures forall x :: x in InsertInOrder(cmp, s, e) <==> x in s || x == e
    ensures Distinct(s) && e !in s ==> Distinct(InsertInOrder(cmp, s, e))
    ensures |InsertInOrder(cmp, s, e)| == |s| + 1
  {
    if s != [] {
      assert s == [s[0]] + s[1..];
      InsertInOrderMembers(cmp, s[1..], e);
      assert Distinct(s) ==> s[0] !in s[1..];
    }
  }

  lemma AddInOrderKeepsWf(hash: HashFn, st: State, e: Element, cmp: Cmp)
    requires Wf(hash, st) && e !in st.order
    ensures Wf(hash, AddInOrder(hash, st, e, cmp))
  {
    InsertInOrderMembers(cmp, st.order, e);
    AddToTableKeepsWf(hash, st, InsertInOrder(cmp, st.order, e), e);
  }

  lemma DeleteMembers(hash: HashFn, st: State, e: Element)
    requires Wf(hash, st) && e in st.order
    ensures forall x :: x in Delete(hash, st, e).order <==> x in st.order && x != e
    ensures var order := Delete(hash, st, e).order;
      e !in order && forall k {:trigger order[k]} :: 0 <= k < |order| ==> order[k] in st.order
  {
    if |st.order| > 1 {
      RemoveMembers(st.order, e);
    } else {
      assert st.order == [e];
    }
  }

  lemma DeleteKeepsWf(hash: HashFn, st: State, e: Element)
    requires Wf(hash, st) && e in st.order
    ensures Wf(hash, Delete(hash, st, e))
  {
    if |st.order| > 1 {
      var b := Bucket(hash, e.key, |st.chains|);
      var r := Delete(hash, st, e);
      RemoveMembers(st.order, e);
      RemoveMembers(st.chains[b], e);
      forall c | 0 <= c < |r.chains|
        ensures Distinct(r.chains[c])
        ensures forall x :: x in r.chains[c] <==> x in r.order && Bucket(hash, x.key, |r.chains|) == c
      {
        assert r.chains[c] == if c == b then Remove(st.chains[b], e) else st.chains[c];
      }
      WfFromMembers(hash, r);
    } else {
      InitialIsWf(hash);
    }
  }

  // Reordering the list leaves everything else as it was.
  lemma ReorderKeepsWf(hash: HashFn, st: State, order: seq<Element>)
    requires Wf(hash, st)
    requires Distinct(order) && SameMembers(order, st.order)
    ensures Wf(hash, st.(order := order))
  {
  }

  lemma {:induction false} FindInChainFinds(s: seq<Element>, key: Key)
    ensures FindInChain(s, key) == null <==> forall e :: e in s ==> e.key != key
    ensures var r := FindInChain(s, key); r != null ==> r in s && r.key == key
  {
    if s != [] && s[0].key != key {
      FindInChainFinds(s[1..], key);
      assert s == [s[0]] + s[1..];
    }
  }

  // Lookup finds an element with the key exactly when the table holds one.
  lemma FindFinds(hash: HashFn, st: State, key: Key)
    requires Wf(hash, st)
    ensures var r := Find(hash, st, key); r != null ==> r in st.order && r.key == key
    ensures Find(hash, st, key) == null <==> forall e :: e in st.order ==> e.key != key
  {
    FindInChainFinds(st.chains[Bucket(hash, key, |st.chains|)], key);
  }

  // ------------------------------------------------------------ counting

  // Elements in the first b chains.
  function CountChains(chains: seq<seq<Element>>, b: nat): nat
    requires b <= |chains|
  {
    if b == 0 then 0 else CountChains(chains, b - 1) + |chains[b - 1]|
  }

  lemma {:induction false} CountByBucket(hash: HashFn, st: State, b: nat)
    requires Wf(hash, st) && b <= |st.chains|
    ensures CountChains(st.chains, b) == |(set e | e in st.order && Bucket(hash, e.key, |st.chains|) < b)|
  {
    if b == 0 {
      assert (set e | e in st.order && Bucket(hash, e.key, |st.chains|) < 0) == {};
    } else {
      CountByBucket(hash, st, b - 1);
      BucketMembers(hash, st, b - 1);
      DistinctLength(st.chains[b - 1]);
    }
  }

  lemma BucketMembers(hash: HashFn, st: State, b: nat)
    requires Wf(hash, st) && b < |st.chains|
    ensures var n := |st.chains|; var last := st.chains[b];
      |(set e | e in st.order && Bucket(hash, e.key, n) < b + 1)| ==
      |(set e | e in st.order && Bucket(hash, e.key, n) < b)| + |(set e | e in last)|
  {
    var n := |st.chains|;
    var last := st.chains[b];
    var below := set e | e in st.order && Bucket(hash, e.key, n) < b;
    var here := set e | e in last;
    assert forall e :: e in here <==> e in st.order && Bucket(hash, e.key, n) == b;
    assert below !! here;
    assert (set e | e in st.order && Bucket(hash, e.key, n) < b + 1) == below + here;
  }

  // The chains together hold as many elements as the list.
  lemma ChainsCountItems(hash: HashFn, st: State)
    requires Wf(hash, st)
    ensures CountChains(st.chains, |st.chains|) == |st.order|
  {
    CountByBucket(hash, st, |st.chains|);
    DistinctLength(st.order);
    assert (set e | e in st.order && Bucket(hash, e.key, |st.chains|) < |st.chains|) == set e | e in st.order;
  }
}
