// The doubly linked list of all elements, in insertion order, with a cached tail.
module InsertionList {
  import opened Handles
  import opened HashState
  import opened Sequences
  import opened Buckets

  ghost predicate NextLinked(s: seq<Element>)
    reads s`next
  {
    forall i {:trigger s[i].next} :: 0 <= i < |s| ==> s[i].next == At(s, i + 1)
  }

  ghost predicate PrevLinked(s: seq<Element>)
    reads s`prev
  {
    forall i {:trigger s[i].prev} :: 0 <= i < |s| ==> s[i].prev == At(s, i - 1)
  }

  ghost predicate ListLinked(s: seq<Element>)
    reads s`next, s`prev
  {
    NextLinked(s) && PrevLinked(s)
  }

  ghost function Last(s: seq<Element>): Element
    requires s != []
  {
    s[|s| - 1]
  }

  // HASH_APPEND_LIST
  method AppendList(t: Table, e: Element, ghost s: seq<Element>)
    requires s != [] && ListLinked(s) && Distinct(s) && e !in s && t.tail == Last(s)
    modifies t`tail, e`next, e`prev, {Last(s)}`next
    ensures ListLinked(s + [e]) && t.tail == e
  {
    e.next := null;
    e.prev := t.tail;
    t.tail.next := e;
    t.tail := e;
    AppendedLinks(s, e);
  }

  lemma AppendedLinks(s: seq<Element>, e: Element)
    requires s != [] && e.next == null && e.prev == Last(s) && Last(s).next == e
    requires forall i :: 0 <= i < |s| - 1 ==> s[i].next == s[i + 1]
    requires PrevLinked(s)
    ensures ListLinked(s + [e])
  {
  }

  // Ordered insertion puts e before the first element that compares greater.
  lemma {:induction false} InsertedBefore(cmp: Cmp, s: seq<Element>, e: Element, k: nat)
    requires k <= |s| && (forall i :: 0 <= i < k ==> cmp(s[i], e) <= 0) && (k < |s| ==> cmp(s[k], e) > 0)
    ensures InsertInOrder(cmp, s, e) == s[..k] + [e] + s[k..]
  {
    if k == 0 {
      assert s[..0] + [e] + s[0..] == [e] + s;
    } else {
      InsertedBefore(cmp, s[1..], e, k - 1);
      assert s[..k] + [e] + s[k..] == [s[0]] + (s[1..][..k - 1] + [e] + s[1..][k - 1..]);
    }
  }

  // The search loop of HASH_AKBI_INNER_LOOP: the first element greater than e.
  method FindPosition(head: Element, e: Element, cmp: Cmp, ghost s: seq<Element>) returns (iter: Element?, ghost k: nat)
    requires ListLinked(s) && head == At(s, 0)
    ensures k <= |s| && iter == At(s, k)
    ensures (iter != null ==> cmp(iter, e) > 0) && forall i :: 0 <= i < k ==> cmp(s[i], e) <= 0
    ensures InsertInOrder(cmp, s, e) == s[..k] + [e] + s[k..]
  {
    iter := head;
    k := 0;
    while true
      invariant k < |s| && iter == s[k]
      invariant forall i :: 0 <= i < k ==> cmp(s[i], e) <= 0
      decreases |s| - k
    {
      if cmp(iter, e) > 0 {
        break;
      }
      iter := iter.next;
      k := k + 1;
      if iter == null {
        break;
      }
    }
    InsertedBefore(cmp, s, e, k);
  }

  // Splices e in before iter; returns whether it became the head.
  method InsertBefore(iter: Element, e: Element, ghost s: seq<Element>, ghost k: nat) returns (first: bool)
    requires ListLinked(s) && Distinct(s) && e !in s && k < |s| && iter == s[k]
    modifies e`next, e`prev, iter`prev, (if k == 0 then {} else {s[k - 1]})`next
    ensures ListLinked(s[..k] + [e] + s[k..])
    ensures first == (k == 0)
  {
    e.next := iter;
    e.prev := iter.prev;
    first := e.prev == null;
    if e.prev != null {
      e.prev.next := e;
    }
    SplicedNext(s, e, k);
    iter.prev := e;
    SplicedPrev(s, e, k);
  }

  lemma SplicedNext(s: seq<Element>, e: Element, k: nat)
    requires k < |s| && e.next == s[k]
    requires forall i :: 0 <= i < |s| && i != k - 1 ==> s[i].next == At(s, i + 1)
    requires k > 0 ==> s[k - 1].next == e
    ensures NextLinked(s[..k] + [e] + s[k..])
  {
    var r := s[..k] + [e] + s[k..];
    forall i | 0 <= i < |r| ensures r[i].next == At(r, i + 1) {
      assert r[i] == if i < k then s[i] else if i == k then e else s[i - 1];
    }
  }

  lemma SplicedPrev(s: seq<Element>, e: Element, k: nat)
    requires k < |s| && e.prev == At(s, k - 1)
    requires forall i :: 0 <= i < |s| && i != k ==> s[i].prev == At(s, i - 1)
    requires s[k].prev == e
    ensures PrevLinked(s[..k] + [e] + s[k..])
  {
    var r := s[..k] + [e] + s[k..];
    forall i | 0 <= i < |r| ensures r[i].prev == At(r, i - 1) {
      assert r[i] == if i < k then s[i] else if i == k then e else s[i - 1];
    }
  }

  // The list half of HASH_DELETE_HH.
  method Unlink(e: Element, ghost s: seq<Element>, ghost k: nat)
    requires Distinct(s) && ListLinked(s) && k < |s| && s[k] == e
    modifies s`next, s`prev
    ensures ListLinked(s[..k] + s[k + 1..])
    ensures e.next == old(e.next)
  {
    if e.prev != null {
      e.prev.next := e.next;
    }
    UnlinkedNext(s, k);
    if e.next != null {
      e.next.prev := e.prev;
    }
    UnlinkedPrev(s, k);
  }

  lemma UnlinkedNext(s: seq<Element>, k: nat)
    requires k < |s|
    requires forall i {:trigger s[i].next} :: 0 <= i < |s| && i != k - 1 ==> s[i].next == At(s, i + 1)
    requires k > 0 ==> s[k - 1].next == At(s, k + 1)
    ensures NextLinked(s[..k] + s[k + 1..])
  {
    var r := s[..k] + s[k + 1..];
    forall i {:trigger r[i].next} | 0 <= i < |r| ensures r[i].next == At(r, i + 1) {
      assert r[i] == if i < k then s[i] else s[i + 1];
    }
  }

  lemma UnlinkedPrev(s: seq<Element>, k: nat)
    requires k < |s|
    requires forall i {:trigger s[i].prev} :: 0 <= i < |s| && i != k + 1 ==> s[i].prev == At(s, i - 1)
    requires k + 1 < |s| ==> s[k + 1].prev == At(s, k - 1)
    ensures PrevLinked(s[..k] + s[k + 1..])
  {
    var r := s[..k] + s[k + 1..];
    forall i {:trigger r[i].prev} | 0 <= i < |r| ensures r[i].prev == At(r, i - 1) {
      assert r[i] == if i < k then s[i] else s[i + 1];
    }
  }
}
