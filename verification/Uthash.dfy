// The hash as its user holds it: a head pointer, null while the hash is empty.
module Uthash {
  import opened Bits
  import opened Handles
  import opened HashState
  import opened Sequences
  import opened Buckets
  import opened InsertionList
  import opened SortSpec
  import opened ListSort

  // Every element of s points to table t.
  ghost predicate Owned(t: Table, s: seq<Element>)
    reads s`tbl
  {
    forall i {:trigger s[i].tbl} :: 0 <= i < |s| ==> s[i].tbl == t
  }

  lemma HashedChain(hash: HashFn, st: State, b: nat)
    requires Wf(hash, st) && Hashed(hash, st.order) && b < |st.chains|
    ensures Hashed(hash, st.chains[b])
  {
    forall i | 0 <= i < |st.chains[b]| ensures st.chains[b][i].hashv == hash(st.chains[b][i].key) {
      assert st.chains[b][i] in st.chains[b] && st.chains[b][i] in st.order;
      var k :| 0 <= k < |st.order| && st.order[k] == st.chains[b][i];
    }
  }

  // The elements of s are linked as a list and know their table and hash.
  ghost predicate Listed(hash: HashFn, t: Table, s: seq<Element>)
    reads t`tail, s`next, s`prev, s`tbl, s`hashv
  {
    s != [] && t.tail == Last(s) && ListLinked(s) && Hashed(hash, s) && Owned(t, s)
  }

  ghost function Members(chains: seq<seq<Element>>): set<Element>
  {
    set b, i | 0 <= b < |chains| && 0 <= i < |chains[b]| :: chains[b][i]
  }

  // Table t is the concrete form of st.
  ghost predicate Represents(hash: HashFn, t: Table, st: State)
    reads t, t.buckets, st.order`next, st.order`prev, st.order`tbl, st.order`hashv, Members(st.chains)`hhNext
    reads Members(st.chains)`hhPrev
  {
    Listed(hash, t, st.order) && ChainsLinked(st.chains) && TableMatches(t, st)
  }

  // HASH_ADD_TO_TABLE: the list has e already, the table of st does not.
  method CountAndLink(t: Table, e: Element, ghost hash: HashFn, ghost st: State)
    requires Shape(st) && e !in st.chains[Bucket(hash, e.key, |st.chains|)] && Wf(hash, PushChain(hash, st, e))
    requires t.numItems == |st.order| - 1 && TableButItems(t, st) && ChainsLinked(st.chains)
    requires Listed(hash, t, st.order) && e.hashv == hash(e.key)
    modifies t`numItems, t`numBuckets, t`log2NumBuckets, t`buckets, t`idealChainMaxlen, t`nonidealItems
    modifies t`ineffExpands, t`noexpand
    modifies t.buckets, st.order`hhNext, st.order`hhPrev
    ensures t.buckets == old(t.buckets) || fresh(t.buckets)
    ensures Represents(hash, t, AddToTable(hash, st, e))
  {
    hide Wf, PushChain, AddToTable;
    OrderStays(hash, st, e);
    t.numItems := t.numItems + 1;
    var b := And(e.hashv, t.numBuckets - 1);
    AddToBucket(t, b, e, hash, st);
  }

  lemma OrderStays(hash: HashFn, st: State, e: Element)
    requires Shape(st)
    ensures AddToTable(hash, st, e).order == st.order
  {
  }

  lemma PushedFacts(hash: HashFn, st: State, order: seq<Element>, e: Element)
    requires Wf(hash, st) && e !in st.order
    requires Distinct(order) && forall x :: x in order <==> x in st.order || x == e
    ensures var st1 := st.(order := order);
      e !in st1.chains[Bucket(hash, e.key, |st1.chains|)] && Wf(hash, PushChain(hash, st1, e))
  {
    AddToTableKeepsWf(hash, st, order, e);
  }

  // The whole concrete state of a hash.
  ghost predicate Matches(hash: HashFn, head: Element?, table: Table?, st: State)
    reads (if table == null then {} else {table as object, table.buckets})
    reads st.order`next, st.order`prev, st.order`tbl, st.order`hashv, Members(st.chains)`hhNext
    reads Members(st.chains)`hhPrev
  {
    && Wf(hash, st)
    && (if head == null then table == null && st == Initial()
        else st.order != [] && head == st.order[0] && table != null && Represents(hash, table, st))
  }

  lemma RepresentsFacts(hash: HashFn, head: Element, t: Table, st: State)
    requires Matches(hash, head, t, st)
    ensures Shape(st) && head.tbl == t && head.next == At(st.order, 1)
  {
  }

  // HASH_ADD to an empty hash, whose table has just been made
  method AddFirst(t: Table, e: Element, hash: HashFn, ghost st: State)
    requires t.tail == e && TableMatches(t, st) && Wf(hash, st) && st.order == [] && ChainsLinked(st.chains)
    modifies t`numItems, t`numBuckets, t`log2NumBuckets, t`buckets
    modifies t`idealChainMaxlen, t`nonidealItems, t`ineffExpands, t`noexpand
    modifies t.buckets, e`hashv, e`tbl, e`next, e`prev, e`hhNext, e`hhPrev
    ensures t.buckets == old(t.buckets) || fresh(t.buckets)
    ensures Matches(hash, e, t, Add(hash, st, e))
  {
    e.hashv := hash(e.key);
    e.next := null;
    e.prev := null;
    e.tbl := t;
    ghost var order := [e];
    AddKeepsWf(hash, st, e);
    assert st.order + [e] == order;
    PushedFacts(hash, st, order, e);
    assert Listed(hash, t, order);
    CountAndLink(t, e, hash, st.(order := order));
  }

  // HASH_ADD to a hash with elements
  method AddLater(head: Element, t: Table, e: Element, hash: HashFn, ghost st: State)
    requires Matches(hash, head, t, st) && e !in st.order
    modifies t`tail, t`numItems, t`numBuckets, t`log2NumBuckets, t`buckets
    modifies t`idealChainMaxlen, t`nonidealItems, t`ineffExpands, t`noexpand
    modifies t.buckets, e`hashv, e`tbl, e`next, e`prev, e`hhNext, e`hhPrev, st.order`next, st.order`hhNext
    modifies st.order`hhPrev
    ensures t.buckets == old(t.buckets) || fresh(t.buckets)
    ensures Matches(hash, head, t, Add(hash, st, e))
  {
    AddKeepsWf(hash, st, e);
    PushedFacts(hash, st, st.order + [e], e);
    e.hashv := hash(e.key);
    AppendTo(t, e, hash, st);
    CountAndLink(t, e, hash, st.(order := st.order + [e]));
    assert Add(hash, st, e).order == st.order + [e];
  }

  method AppendTo(t: Table, e: Element, ghost hash: HashFn, ghost st: State)
    requires Represents(hash, t, st) && Distinct(st.order) && e !in st.order && e.hashv == hash(e.key)
    modifies t`tail, e`tbl, e`next, e`prev, {Last(st.order)}`next
    ensures Listed(hash, t, st.order + [e]) && TableMatches(t, st) && ChainsLinked(st.chains)
  {
    e.tbl := t;
    ghost var order := st.order + [e];
    assert Owned(t, order) && Hashed(hash, order);
    AppendList(t, e, st.order);
  }

  // e belongs at position k of s, where iter is.
  ghost predicate IsPosition(cmp: Cmp, s: seq<Element>, e: Element, k: nat, iter: Element?)
  {
    && k <= |s| && iter == At(s, k)
    && InsertInOrder(cmp, s, e) == s[..k] + [e] + s[k..]
  }

  // HASH_ADD_INORDER to a hash with elements, before iter or at the end
  method InsertLater(t: Table, iter: Element?, e: Element, cmp: Cmp, hash: HashFn, ghost st: State, ghost k: nat)
    requires Wf(hash, st) && Represents(hash, t, st) && e !in st.order
    requires IsPosition(cmp, st.order, e, k, iter)
    modifies t`tail, t`numItems, t`numBuckets, t`log2NumBuckets, t`buckets
    modifies t`idealChainMaxlen, t`nonidealItems, t`ineffExpands, t`noexpand
    modifies t.buckets, e`hashv, e`tbl, e`next, e`prev, e`hhNext, e`hhPrev
    modifies st.order`next, st.order`prev, st.order`hhNext, st.order`hhPrev
    ensures t.buckets == old(t.buckets) || fresh(t.buckets)
    ensures Matches(hash, InsertInOrder(cmp, st.order, e)[0], t, AddInOrder(hash, st, e, cmp))
  {
    hide Wf, InsertInOrder, AddInOrder, AddToTable, PushChain, Distinct, ChainsLinked, Listed;
    ghost var order := InsertInOrder(cmp, st.order, e);
    InsertFacts(hash, st, e, cmp, order);
    e.hashv := hash(e.key);
    Place(t, iter, e, hash, st, k);
    CountAndLink(t, e, hash, st.(order := order));
  }

  lemma InsertFacts(hash: HashFn, st: State, e: Element, cmp: Cmp, order: seq<Element>)
    requires Wf(hash, st) && e !in st.order && order == InsertInOrder(cmp, st.order, e)
    ensures Shape(st) && Distinct(st.order) && |order| == |st.order| + 1
    ensures forall i {:trigger order[i]} :: 0 <= i < |order| ==> order[i] in st.order || order[i] == e
    ensures e !in st.chains[Bucket(hash, e.key, |st.chains|)] && Wf(hash, PushChain(hash, st.(order := order), e))
    ensures var next := AddInOrder(hash, st, e, cmp);
      Wf(hash, next) && next == AddToTable(hash, st.(order := order), e) && next.order == order
  {
    InsertInOrderMembers(cmp, st.order, e);
    AddInOrderKeepsWf(hash, st, e, cmp);
    PushedFacts(hash, st, order, e);
  }

  method Place(t: Table, iter: Element?, e: Element, ghost hash: HashFn, ghost st: State, ghost k: nat)
    requires Represents(hash, t, st) && Distinct(st.order) && e !in st.order && e.hashv == hash(e.key)
    requires k <= |st.order| && iter == At(st.order, k)
    modifies t`tail, e`tbl, e`next, e`prev, st.order`next, st.order`prev
    ensures Listed(hash, t, st.order[..k] + [e] + st.order[k..]) && TableMatches(t, st) && ChainsLinked(st.chains)
  {
    hide NextLinked, PrevLinked;
    ghost var order := st.order[..k] + [e] + st.order[k..];
    e.tbl := t;
    assert forall x :: x in order ==> x in st.order || x == e;
    if iter != null {
      var _ := InsertBefore(iter, e, st.order, k);
    } else {
      assert order == st.order + [e];
      AppendList(t, e, st.order);
    }
    assert TableMatches(t, st) && ChainsLinked(st.chains);
    ListedFromParts(hash, t, order);
  }

  lemma ListedFromParts(hash: HashFn, t: Table, order: seq<Element>)
    requires order != [] && t.tail == Last(order) && ListLinked(order)
    requires forall x :: x in order ==> x.hashv == hash(x.key) && x.tbl == t
    ensures Listed(hash, t, order)
  {
  }

  // HASH_DELETE_HH from a hash with other elements
  method DeleteFrom(t: Table, e: Element, ghost hash: HashFn, ghost st: State)
    requires Wf(hash, st) && Represents(hash, t, st) && e in st.order && |st.order| > 1
    modifies t`tail, t`numItems, t.buckets
    modifies st.order`next, st.order`prev, st.order`hhNext, st.order`hhPrev
    ensures Remove(st.order, e) != [] && Matches(hash, Remove(st.order, e)[0], t, Delete(hash, st, e))
  {
    DeleteKeepsWf(hash, st, e);
    RemoveMembers(st.order, e);
    DetachFromList(t, e, hash, st);
    DeleteFromTable(t, e, hash, st);
  }

  method DeleteFromTable(t: Table, e: Element, ghost hash: HashFn, ghost st: State)
    requires Wf(hash, st) && TableMatches(t, st) && ChainsLinked(st.chains)
    requires e in st.order && e.hashv == hash(e.key) && Listed(hash, t, Remove(st.order, e))
    modifies t`numItems, t.buckets, st.order`hhNext, st.order`hhPrev
    ensures var b := Bucket(hash, e.key, |st.chains|);
      var st' := st.(chains := st.chains[b := Remove(st.chains[b], e)]);
      TableButItems(t, st') && ChainsLinked(st'.chains)
    ensures t.numItems == |st.order| - 1
    ensures Listed(hash, t, Remove(st.order, e))
  {
    DeleteFromBucket(t, And(e.hashv, t.numBuckets - 1), e, hash, st, Remove(st.order, e));
    t.numItems := t.numItems - 1;
  }

  method DetachFromList(t: Table, e: Element, ghost hash: HashFn, ghost st: State)
    requires Represents(hash, t, st) && Distinct(st.order) && e in st.order && |st.order| > 1
    modifies t`tail, st.order`next, st.order`prev
    ensures Listed(hash, t, Remove(st.order, e)) && TableMatches(t, st) && ChainsLinked(st.chains)
    ensures e.hashv == hash(e.key)
  {
    ghost var k :| 0 <= k < |st.order| && st.order[k] == e;
    RemoveAt(st.order, e, k);
    DeleteFromList(t, e, hash, st.order, k);
  }

  method DeleteFromBucket(t: Table, b: nat, e: Element, ghost hash: HashFn, ghost st: State, ghost order: seq<Element>)
    requires Wf(hash, st) && TableMatches(t, st) && ChainsLinked(st.chains)
    requires e in st.order && b == Bucket(hash, e.key, |st.chains|)
    requires Listed(hash, t, order)
    modifies t.buckets, st.order`hhNext, st.order`hhPrev
    ensures var st' := st.(chains := st.chains[b := Remove(st.chains[b], e)]);
      TableButItems(t, st') && ChainsLinked(st'.chains)
    ensures Listed(hash, t, order)
  {
    assert forall i :: 0 <= i < |st.chains[b]| ==> st.chains[b][i] in st.order;
    DeleteInBucket(t.buckets, b, e, hash, st.chains, st.mults);
  }

  method DeleteFromList(t: Table, e: Element, ghost hash: HashFn, ghost s: seq<Element>, ghost k: nat)
    requires Listed(hash, t, s) && Distinct(s) && k < |s| && s[k] == e && |s| > 1
    modifies t`tail, s`next, s`prev
    ensures Listed(hash, t, s[..k] + s[k + 1..])
  {
    if e == t.tail {
      t.tail := e.prev;
    }
    ghost var order := s[..k] + s[k + 1..];
    assert forall i :: 0 <= i < |order| ==> order[i] == if i < k then s[i] else s[i + 1];
    assert t.tail == Last(order);
    assert Hashed(hash, order) && Owned(t, order);
    Unlink(e, s, k);
  }

  class Hash {
    const hash: HashFn
    var head: Element?
    ghost var table: Table?
    ghost var st: State

    ghost function Repr(): set<object>
      reads this, table
    {
      if table == null then {this} else {this, table as object, table.buckets}
    }

    ghost predicate Valid()
      reads this, Repr()
      reads st.order`next, st.order`prev, st.order`tbl, st.order`hashv, Members(st.chains)`hhNext
      reads Members(st.chains)`hhPrev
    {
      Matches(hash, head, table, st)
    }

    constructor (hash: HashFn)
      ensures Valid() && this.hash == hash && st == Initial() && Repr() == {this}
    {
      this.hash, head, table, st := hash, null, null, Initial();
    }

    // HASH_FIND
    method Find(key: Key) returns (out: Element?)
      requires Valid()
      ensures Valid() && out == HashState.Find(hash, st, key)
    {
      out := null;
      if head != null {
        var hashv := hash(key);
        var t := head.tbl;
        var b := And(hashv, t.numBuckets - 1);
        HashedChain(hash, st, b);
        assert ChainLinked(st.chains[b]);
        out := FindInBucket(t.buckets[b], key, hashv, hash, st.chains[b]);
        assert out == FindInChain(st.chains[b], key);
      }
    }

    // HASH_ADD: the key is hashed, the element appended and put in its bucket.
    method Add(e: Element)
      requires Valid() && e !in st.order
      modifies Repr(), st.order`next, st.order`prev, st.order`hhNext, st.order`hhPrev
      modifies e`hashv, e`tbl, e`next, e`prev, e`hhNext, e`hhPrev
      ensures Valid() && st == HashState.Add(hash, old(st), e)
      ensures fresh(Repr() - old(Repr()))
    {
      if head == null {
        MakeTable(e);
      } else {
        AddToTable(e);
      }
    }

    method AddToTable(e: Element)
      requires Valid() && head != null && e !in st.order
      modifies Repr(), st.order`next, st.order`prev, st.order`hhNext, st.order`hhPrev
      modifies e`hashv, e`tbl, e`next, e`prev, e`hhNext, e`hhPrev
      ensures Valid() && st == HashState.Add(hash, old(st), e)
      ensures fresh(Repr() - old(Repr()))
    {
      hide Represents, Wf, HashState.Add;
      ghost var was, h, t := st, head, table;
      RepresentsFacts(hash, head, table, st);
      st := HashState.Add(hash, was, e);
      assert Matches(hash, head, table, was);
      AddLater(head, head.tbl, e, hash, was);
      assert head == h && table == t && st == HashState.Add(hash, was, e);
    }

    // HASH_MAKE_TABLE, for the first element
    method MakeTable(e: Element)
      requires Valid() && head == null
      modifies this`head, this`table, this`st, e`hashv, e`tbl, e`next, e`prev, e`hhNext, e`hhPrev
      ensures Valid() && st == HashState.Add(hash, old(st), e)
      ensures fresh(Repr() - old(Repr()))
    {
      var t := new Table(e);
      st, head, table := HashState.Add(hash, st, e), e, t;
      AddFirst(t, e, hash, Initial());
      assert table == t;
    }

    // HASH_ADD_INORDER
    method AddInOrder(e: Element, cmp: Cmp)
      requires Valid() && e !in st.order
      modifies Repr(), st.order`next, st.order`prev, st.order`hhNext, st.order`hhPrev
      modifies e`hashv, e`tbl, e`next, e`prev, e`hhNext, e`hhPrev
      ensures Valid() && st == HashState.AddInOrder(hash, old(st), e, cmp)
      ensures fresh(Repr() - old(Repr()))
    {
      if head == null {
        MakeTable(e);
      } else {
        InsertInTable(e, cmp);
      }
    }

    method InsertInTable(e: Element, cmp: Cmp)
      requires Valid() && head != null && e !in st.order
      modifies Repr(), st.order`next, st.order`prev, st.order`hhNext, st.order`hhPrev
      modifies e`hashv, e`tbl, e`next, e`prev, e`hhNext, e`hhPrev
      ensures Valid() && st == HashState.AddInOrder(hash, old(st), e, cmp)
      ensures fresh(Repr() - old(Repr()))
    {
      hide Represents, Wf, HashState.AddInOrder;
      ghost var was := st;
      var iter, newHead, t, k := PositionFor(e, cmp);
      ghost var next, repr := HashState.AddInOrder(hash, was, e, cmp), Repr();
      SetHead(newHead, t, next);
      assert table == t && Repr() == repr;
      InsertLater(t, iter, e, cmp, hash, was, k);
      assert head == newHead;
      assert table == t;
      assert st == next;
    }

    // Names the new head, and the state that the table is about to take.
    method SetHead(newHead: Element, ghost t: Table, ghost newState: State)
      requires Represents(hash, t, st)
      modifies this`head, this`st
      ensures head == newHead && st == newState && Represents(hash, t, old(st))
    {
      head, st := newHead, newState;
    }

    method PositionFor(e: Element, cmp: Cmp) returns (iter: Element?, newHead: Element, t: Table, ghost k: nat)
      requires Valid() && head != null
      ensures t == table && Shape(st) && Wf(hash, st) && Represents(hash, t, st) && IsPosition(cmp, st.order, e, k, iter)
      ensures newHead == InsertInOrder(cmp, st.order, e)[0]
    {
      iter, k := FindPosition(head, e, cmp, st.order);
      newHead := if iter == head then e else head;
      t := head.tbl;
    }

    // HASH_DELETE
    method Delete(e: Element)
      requires Valid() && e in st.order
      modifies Repr(), st.order`next, st.order`prev, st.order`hhNext, st.order`hhPrev
      ensures Valid() && st == HashState.Delete(hash, old(st), e)
      ensures Repr() <= old(Repr())
    {
      if e.prev == null && e.next == null {
        head, table, st := null, null, Initial();
      } else {
        DeleteOneOfMany(e);
      }
    }

    method HeadWithout(e: Element) returns (newHead: Element, t: Table)
      requires Valid() && e in st.order && |st.order| > 1
      ensures Shape(st) && Wf(hash, st) && Represents(hash, t, st) && t == table
      ensures Remove(st.order, e) != [] && newHead == Remove(st.order, e)[0]
    {
      HeadAfterDelete(st.order, e);
      newHead := head;
      t := head.tbl;
      if e.prev == null {
        newHead := e.next;
      }
    }

    method DeleteOneOfMany(e: Element)
      requires Valid() && e in st.order && |st.order| > 1
      modifies Repr(), st.order`next, st.order`prev, st.order`hhNext, st.order`hhPrev
      ensures Valid() && st == HashState.Delete(hash, old(st), e)
      ensures Repr() == old(Repr())
    {
      hide Represents, Wf, HashState.Delete;
      ghost var was := st;
      var newHead, t := HeadWithout(e);
      SetHead(newHead, t, HashState.Delete(hash, was, e));
      DeleteFrom(t, e, hash, was);
      assert table == t && st == HashState.Delete(hash, was, e) && head == newHead;
    }

    // HASH_REPLACE
    method Replace(e: Element) returns (replaced: Element?)
      requires Valid() && (e !in st.order || e == HashState.Find(hash, st, e.key))
      modifies Repr(), st.order`next, st.order`prev, st.order`hhNext, st.order`hhPrev
      modifies e`hashv, e`tbl, e`next, e`prev, e`hhNext, e`hhPrev
      ensures Valid() && st == HashState.Replace(hash, old(st), e)
      ensures replaced == HashState.Find(hash, old(st), e.key)
      ensures fresh(Repr() - old(Repr()))
    {
      hide Matches;
      replaced := Evict(e);
      Add(e);
    }

    // The first half of HASH_REPLACE: the element with the key of e leaves.
    method Evict(e: Element) returns (replaced: Element?)
      requires Valid() && (e !in st.order || e == HashState.Find(hash, st, e.key))
      modifies Repr(), st.order`next, st.order`prev, st.order`hhNext, st.order`hhPrev
      ensures replaced == HashState.Find(hash, old(st), e.key)
      ensures Valid() && st == (if replaced == null then old(st) else HashState.Delete(hash, old(st), replaced))
      ensures e !in st.order && forall k {:trigger st.order[k]} :: 0 <= k < |st.order| ==> st.order[k] in old(st.order)
      ensures Repr() <= old(Repr())
    {
      hide Represents, HashState.Delete;
      EvictFacts(hash, st, e);
      replaced := Find(e.key);
      if replaced != null {
        Delete(replaced);
      }
    }

    // HASH_SRT
    method Sort(cmp: Cmp)
      requires Valid()
      modifies this`head, this`st, (if table == null then {} else {table})`tail, st.order`next, st.order`prev
      ensures Valid() && st == Sorted(old(st), cmp)
    {
      if head != null {
        SortTable(cmp);
      }
    }

    method SortTable(cmp: Cmp)
      requires Valid() && head != null
      modifies this`head, this`st, table`tail, st.order`next, st.order`prev
      ensures Valid() && st == Sorted(old(st), cmp)
    {
      ghost var was, t := st, table;
      var newHead := SortIn(head, head.tbl, cmp, hash, st);
      assert table == t && st == was;
      TakeState(newHead, Sorted(was, cmp));
    }

    method TakeState(newHead: Element, ghost newState: State)
      requires table != null && Matches(hash, newHead, table, newState)
      modifies this`head, this`st
      ensures Valid() && head == newHead && st == newState
    {
      head, st := newHead, newState;
    }

    // HASH_FSCK. A verdict other than Sound stands for HASH_OOPS.
    method Fsck() returns (verdict: Verdict)
      requires Valid()
      ensures verdict == Sound
    {
      verdict := Sound;
      if head != null {
        assert Wf(hash, st);
        verdict := FsckChains(head.tbl, hash, st);
        if verdict == Sound {
          verdict := FsckList(head, head.tbl, st.order);
        }
      }
    }

    // HASH_ITER with deletion of every element on the way
    method DeleteAll() returns (ghost visited: seq<Element>)
      requires Valid()
      modifies Repr(), st.order
      ensures Valid() && st == Initial() && visited == old(st.order)
    {
      hide Represents, Wf;
      ghost var order := st.order;
      visited := [];
      var el := head;
      if head != null {
        RepresentsFacts(hash, head, table, st);
      }
      var tmp := if head != null then head.next else null;
      while el != null
        invariant Valid() && visited + st.order == order && Repr() <= old(Repr())
        invariant el == At(st.order, 0) && tmp == At(st.order, 1)
        decreases |st.order|
      {
        assert forall i :: 0 <= i < |st.order| ==> st.order[i] == order[|visited| + i];
        FirstMoves(visited, st.order);
        visited := visited + [st.order[0]];
        var following := DeleteHead(el, tmp);
        el, tmp := tmp, following;
      }
    }

    // One round: el goes, then the walk looks two elements ahead.
    method DeleteHead(el: Element, tmp: Element?) returns (following: Element?)
      requires Valid() && st.order != [] && el == st.order[0] && tmp == At(st.order, 1)
      modifies Repr(), st.order
      ensures Valid() && st.order == old(st.order)[1..] && Repr() <= old(Repr())
      ensures tmp == At(st.order, 0) && following == At(st.order, 1)
    {
      assert Remove(st.order, el) == st.order[1..];
      Delete(el);
      following := if tmp != null then tmp.next else null;
    }
  }

  datatype Verdict = Sound | InvalidHhPrev | InvalidBucketCount | InvalidItemCount | InvalidPrev | InvalidAppItemCount

  method FsckChain(slot: BucketSlot, ghost s: seq<Element>) returns (verdict: Verdict, count: nat)
    requires slot.hhHead == At(s, 0) && slot.count == |s| && ChainLinked(s)
    ensures verdict == Sound && count == |s|
  {
    count := 0;
    var thh, prev: Element? := slot.hhHead, null;
    while thh != null
      invariant count <= |s| && thh == At(s, count) && prev == At(s, count - 1)
      decreases |s| - count
    {
      if prev != thh.hhPrev {
        return InvalidHhPrev, count;
      }
      count := count + 1;
      prev := thh;
      thh := thh.hhNext;
    }
    verdict := if slot.count != count then InvalidBucketCount else Sound;
  }

  method FsckChains(t: Table, ghost hash: HashFn, ghost st: State) returns (verdict: Verdict)
    requires Wf(hash, st) && TableMatches(t, st) && ChainsLinked(st.chains)
    ensures verdict == Sound
  {
    var count := 0;
    var b := 0;
    while b < t.numBuckets
      invariant b <= |st.chains| && count == CountChains(st.chains, b)
    {
      assert ChainLinked(st.chains[b]);
      var bktCount;
      verdict, bktCount := FsckChain(t.buckets[b], st.chains[b]);
      if verdict != Sound {
        return;
      }
      count := count + bktCount;
      b := b + 1;
    }
    ChainsCountItems(hash, st);
    verdict := if count != t.numItems then InvalidItemCount else Sound;
  }

  method FsckList(head: Element, t: Table, ghost s: seq<Element>) returns (verdict: Verdict)
    requires s != [] && head == s[0] && ListLinked(s) && t.numItems == |s|
    ensures verdict == Sound
  {
    var count := 0;
    var thh: Element?, prev: Element? := head, null;
    while thh != null
      invariant count <= |s| && thh == At(s, count) && prev == At(s, count - 1)
      decreases |s| - count
    {
      count := count + 1;
      if prev != thh.prev {
        return InvalidPrev;
      }
      prev := thh;
      thh := thh.next;
    }
    verdict := if count != t.numItems then InvalidAppItemCount else Sound;
  }

  method SortIn(head: Element, t: Table, cmp: Cmp, ghost hash: HashFn, ghost st: State) returns (newHead: Element)
    requires Matches(hash, head, t, st)
    modifies t`tail, st.order`next, st.order`prev
    ensures Matches(hash, newHead, t, Sorted(st, cmp))
  {
    ghost var r;
    newHead, r := Resort(head, t, cmp, hash, st);
    WithinIsSame(r, st.order);
    ReorderKeepsWf(hash, st, r);
  }

  method Resort(head: Element, t: Table, cmp: Cmp, ghost hash: HashFn, ghost st: State)
    returns (newHead: Element, ghost r: seq<Element>)
    requires Represents(hash, t, st) && Distinct(st.order) && head == st.order[0]
    modifies t`tail, st.order`next, st.order`prev
    ensures r == MergeSort(cmp, st.order) && Distinct(r) && Within(r, st.order)
    ensures Listed(hash, t, r) && newHead == r[0]
    ensures TableMatches(t, st) && ChainsLinked(st.chains)
  {
    hide MergeSort, NextLinked, PrevLinked;
    var newTail: Element;
    ghost var passes: nat;
    newHead, newTail, passes, r := SortList(head, cmp, st.order);
    t.tail := newTail;
    ListedWithin(hash, t, r, st.order);
  }

  lemma ListedWithin(hash: HashFn, t: Table, r: seq<Element>, s: seq<Element>)
    requires Hashed(hash, s) && Owned(t, s) && Within(r, s)
    ensures Hashed(hash, r) && Owned(t, r)
  {
    forall i | 0 <= i < |r| ensures r[i].hashv == hash(r[i].key) && r[i].tbl == t {
      assert r[i] in s;
      var k :| 0 <= k < |s| && s[k] == r[i];
    }
  }

  lemma EvictFacts(hash: HashFn, st: State, e: Element)
    requires Wf(hash, st) && (e !in st.order || e == HashState.Find(hash, st, e.key))
    ensures var f := HashState.Find(hash, st, e.key);
      && (f != null ==> f in st.order)
      && var r := if f == null then st else HashState.Delete(hash, st, f);
      && e !in r.order
      && forall k {:trigger r.order[k]} :: 0 <= k < |r.order| ==> r.order[k] in st.order
  {
    FindFinds(hash, st, e.key);
    var f := HashState.Find(hash, st, e.key);
    if f != null {
      DeleteMembers(hash, st, f);
      var r := HashState.Delete(hash, st, f);
      assert e !in r.order;
    }
  }

  lemma HeadAfterDelete(s: seq<Element>, e: Element)
    requires Distinct(s) && e in s && |s| > 1 && ListLinked(s)
    ensures Remove(s, e) != [] && Remove(s, e)[0] == if e.prev == null then e.next else s[0]
  {
    var k :| 0 <= k < |s| && s[k] == e;
    RemoveAt(s, e, k);
  }
}
