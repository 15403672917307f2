// Elements with equal keys. Insertion puts an element before its equals, an expansion
// reverses them, so which of them lookup finds depends on the parity of expansions.
module Duplicates {
  import opened Handles
  import opened HashState
  import opened Sequences
  import opened SortSpec
  import opened Runs

  function WithKey(s: seq<Element>, key: Key): (r: seq<Element>)
  {
    if s == [] then []
    else if s[0].key == key then [s[0]] + WithKey(s[1..], key)
    else WithKey(s[1..], key)
  }

  // The elements with a key, in the order in which lookup meets them.
  function Equals(hash: HashFn, st: State, key: Key): (r: seq<Element>)
    requires Shape(st)
  {
    WithKey(st.chains[Bucket(hash, key, |st.chains|)], key)
  }

  lemma {:induction false} FindIsFirst(s: seq<Element>, key: Key)
    ensures FindInChain(s, key) == if WithKey(s, key) == [] then null else WithKey(s, key)[0]
  {
    if s != [] && s[0].key != key {
      FindIsFirst(s[1..], key);
    }
  }

  lemma {:induction false} WithKeyAppend(s: seq<Element>, t: seq<Element>, key: Key)
    ensures WithKey(s + t, key) == WithKey(s, key) + WithKey(t, key)
  {
    if s == [] {
      assert s + t == t;
    } else {
      WithKeyAppend(s[1..], t, key);
      assert (s + t)[1..] == s[1..] + t;
    }
  }

  lemma {:induction false} WithKeyReverse(s: seq<Element>, key: Key)
    ensures WithKey(Reverse(s), key) == Reverse(WithKey(s, key))
  {
    if s != [] {
      WithKeyReverse(s[1..], key);
      WithKeyAppend(Reverse(s[1..]), [s[0]], key);
      assert WithKey([s[0]], key) == if s[0].key == key then [s[0]] else [];
      if s[0].key == key {
        assert WithKey(s, key) == [s[0]] + WithKey(s[1..], key);
      } else {
        assert WithKey(s, key) == WithKey(s[1..], key);
      }
    }
  }

  lemma {:induction false} WithKeySelect(hash: HashFn, s: seq<Element>, n: nat, key: Key)
    requires n > 0
    ensures WithKey(Select(hash, s, n, Bucket(hash, key, n)), key) == WithKey(s, key)
  {
    if s != [] {
      WithKeySelect(hash, s[1..], n, key);
    }
  }

  lemma {:induction false} WithKeyRemove(s: seq<Element>, e: Element, key: Key)
    ensures WithKey(Remove(s, e), key) == Remove(WithKey(s, key), e)
  {
    if s != [] {
      var w := WithKey(s[1..], key);
      assert ([s[0]] + w)[1..] == w;
      if s[0] != e {
        WithKeyRemove(s[1..], e, key);
        assert ([s[0]] + Remove(s[1..], e))[1..] == Remove(s[1..], e);
      } else if s[0].key != key {
        WithoutStranger(s[1..], e, key);
      }
    }
  }

  lemma {:induction false} WithoutStranger(s: seq<Element>, e: Element, key: Key)
    requires e.key != key
    ensures Remove(WithKey(s, key), e) == WithKey(s, key)
  {
    if s != [] {
      var w := WithKey(s[1..], key);
      assert ([s[0]] + w)[1..] == w;
      WithoutStranger(s[1..], e, key);
    }
  }

  // An expansion reverses the elements with a key.
  lemma ExpandReverses(hash: HashFn, st: State, key: Key)
    requires Shape(st)
    ensures Equals(hash, Expand(hash, st), key) == Reverse(Equals(hash, st, key))
  {
    var n := |st.chains|;
    var b := Bucket(hash, key, 2 * n);
    BucketOfDouble(hash, key, st.log2);
    var chain := st.chains[Bucket(hash, key, n)];
    assert Expand(hash, st).chains[b] == Reverse(Select(hash, chain, 2 * n, b));
    WithKeyReverse(Select(hash, chain, 2 * n, b), key);
    WithKeySelect(hash, chain, 2 * n, key);
  }

  lemma PushEquals(hash: HashFn, st: State, e: Element, key: Key)
    requires Shape(st)
    ensures Equals(hash, PushChain(hash, st, e), key) == (if e.key == key then [e] else []) + Equals(hash, st, key)
  {
    var b := Bucket(hash, e.key, |st.chains|);
    assert ([e] + st.chains[b])[1..] == st.chains[b];
  }

  // Whether an even number of expansions separates two states of the table.
  ghost predicate EvenlyExpanded(before: State, after: State)
  {
    (|after.history| - |before.history|) % 2 == 0
  }

  lemma EvenSum(a: State, b: State, c: State)
    ensures EvenlyExpanded(a, c) <==> (EvenlyExpanded(a, b) <==> EvenlyExpanded(b, c))
  {
  }

  // e is the newest of its equals: the first in the chain, or the last of them.
  ghost predicate Newest(hash: HashFn, st: State, e: Element, first: bool)
    requires Shape(st)
  {
    IsEnd(Equals(hash, st, e.key), e, first)
  }

  ghost predicate IsEnd(eq: seq<Element>, e: Element, first: bool)
  {
    && eq != []
    && (first ==> eq[0] == e && e !in eq[1..])
    && (!first ==> eq[|eq| - 1] == e && e !in eq[..|eq| - 1])
  }

  lemma ReverseEnd(eq: seq<Element>, e: Element, first: bool)
    requires IsEnd(eq, e, first)
    ensures IsEnd(Reverse(eq), e, !first)
  {
    var rest := if first then eq[1..] else eq[..|eq| - 1];
    assert Reverse([e]) == [e];
    ReverseMembers(rest);
    if first {
      assert eq == [e] + rest;
      ReverseAppend([e], rest);
    } else {
      assert eq == rest + [e];
      ReverseAppend(rest, [e]);
    }
  }

  lemma ExpandNewest(hash: HashFn, st: State, e: Element, first: bool)
    requires Shape(st) && Newest(hash, st, e, first)
    ensures Newest(hash, Expand(hash, st), e, !first)
  {
    ExpandReverses(hash, st, e.key);
    ReverseEnd(Equals(hash, st, e.key), e, first);
  }

  lemma ExpandRecorded(hash: HashFn, st: State)
    requires Shape(st)
    ensures |Expand(hash, st).history| == |st.history| + 1
  {
  }

  // Settling an insertion: e keeps its place, or changes ends if the table expands.
  lemma SettleNewest(hash: HashFn, st: State, order: seq<Element>, x: Element, e: Element, first: bool)
    requires Shape(st) && Newest(hash, PushChain(hash, st.(order := order), x), e, first)
    ensures var r := AddToTable(hash, st.(order := order), x);
      Newest(hash, r, e, first <==> EvenlyExpanded(st, r))
  {
    hide Newest, Expand, MustExpand;
    var pushed := PushChain(hash, st.(order := order), x);
    if MustExpand(pushed, Bucket(hash, x.key, |st.chains|)) {
      ExpandNewest(hash, pushed, e, first);
      ExpandRecorded(hash, pushed);
    }
  }

  // Adding e makes it the newest, counting the expansion it may trigger itself.
  lemma AddedIsNewest(hash: HashFn, st: State, order: seq<Element>, e: Element)
    requires Wf(hash, st) && e !in st.order
    ensures var r := AddToTable(hash, st.(order := order), e);
      Newest(hash, r, e, EvenlyExpanded(st, r))
  {
    var st1 := st.(order := order);
    PushEquals(hash, st1, e, e.key);
    var rest := Equals(hash, st, e.key);
    EqualsInTable(hash, st, e.key);
    assert ([e] + rest)[1..] == rest;
    assert Newest(hash, PushChain(hash, st1, e), e, true);
    SettleNewest(hash, st, order, e, e, true);
  }

  lemma EqualsInTable(hash: HashFn, st: State, key: Key)
    requires Wf(hash, st)
    ensures forall i :: 0 <= i < |Equals(hash, st, key)| ==>
      Equals(hash, st, key)[i] in st.order && Equals(hash, st, key)[i].key == key
  {
    WithKeyMembers(st.chains[Bucket(hash, key, |st.chains|)], key);
  }

  lemma {:induction false} WithKeyHas(s: seq<Element>, e: Element)
    requires e in s
    ensures e in WithKey(s, e.key)
  {
    if s[0] != e {
      WithKeyHas(s[1..], e);
    }
  }

  lemma {:induction false} WithKeyMembers(s: seq<Element>, key: Key)
    ensures forall i :: 0 <= i < |WithKey(s, key)| ==> WithKey(s, key)[i] in s && WithKey(s, key)[i].key == key
  {
    if s != [] {
      WithKeyMembers(s[1..], key);
    }
  }

  // Adding an element with another key.
  lemma AddOtherKeeps(hash: HashFn, st: State, order: seq<Element>, x: Element, e: Element, first: bool)
    requires Shape(st) && Newest(hash, st, e, first) && x.key != e.key
    ensures var r := AddToTable(hash, st.(order := order), x);
      Newest(hash, r, e, first <==> EvenlyExpanded(st, r))
  {
    var st1 := st.(order := order);
    PushEquals(hash, st1, x, e.key);
    assert Equals(hash, PushChain(hash, st1, x), e.key) == Equals(hash, st, e.key);
    SettleNewest(hash, st, order, x, e, first);
  }

  // Deleting another element.
  lemma DeleteOtherKeeps(hash: HashFn, st: State, x: Element, e: Element, first: bool)
    requires Wf(hash, st) && Newest(hash, st, e, first) && x in st.order && e in st.order && x != e
    ensures var r := Delete(hash, st, x);
      Newest(hash, r, e, first) && r.history == st.history
  {
    var eq := Equals(hash, st, e.key);
    var r := Delete(hash, st, x);
    assert |st.order| > 1 by {
      var i :| 0 <= i < |st.order| && st.order[i] == e;
      var j :| 0 <= j < |st.order| && st.order[j] == x;
    }
    var b := Bucket(hash, e.key, |st.chains|);
    if b == Bucket(hash, x.key, |st.chains|) {
      WithKeyRemove(st.chains[b], x, e.key);
    } else {
      EqualsInTable(hash, st, e.key);
      RemoveStranger(eq, x, e.key);
    }
    assert Equals(hash, r, e.key) == Remove(eq, x);
    var rest := if first then eq[1..] else eq[..|eq| - 1];
    assert eq == if first then [e] + rest else rest + [e];
    RemoveOther(rest, x, e);
    assert ([e] + Remove(rest, x))[1..] == Remove(rest, x);
  }

  lemma {:induction false} RemoveStranger(s: seq<Element>, x: Element, key: Key)
    requires x.key != key && forall i :: 0 <= i < |s| ==> s[i].key == key
    ensures Remove(s, x) == s
  {
    if s != [] {
      RemoveStranger(s[1..], x, key);
    }
  }

  lemma {:induction false} RemoveOther(rest: seq<Element>, x: Element, e: Element)
    requires x != e && e !in rest
    ensures Remove([e] + rest, x) == [e] + Remove(rest, x)
    ensures Remove(rest + [e], x) == Remove(rest, x) + [e]
    ensures e !in Remove(rest, x)
  {
    assert ([e] + rest)[1..] == rest;
    if rest == [] {
      assert rest + [e] == [e] && [e][1..] == [];
    } else {
      assert rest == [rest[0]] + rest[1..];
      RemoveOther(rest[1..], x, e);
      assert (rest + [e])[1..] == rest[1..] + [e];
    }
  }

  // The caller neither adds another element with the key of e nor deletes e.
  ghost predicate Spares(op: Op, e: Element)
  {
    match op
    case OpAdd(x) => x.key != e.key
    case OpAddInOrder(x, _) => x.key != e.key
    case OpReplace(x) => x.key != e.key
    case OpDelete(x) => x != e
    case OpSort(_) => true
  }

  lemma ReplaceParts(hash: HashFn, st: State, x: Element)
    requires Wf(hash, st)
    ensures Shape(st)
    ensures var f := Find(hash, st, x.key);
      var kept := if f == null then st else Delete(hash, st, f);
      && Replace(hash, st, x) == AddToTable(hash, kept.(order := kept.order + [x]), x)
      && Replace(hash, st, x).order == kept.order + [x]
  {
  }

  lemma ReplaceKeepsNewest(hash: HashFn, st: State, x: Element, e: Element, first: bool)
    requires Wf(hash, st) && Legal(hash, st, OpReplace(x)) && x.key != e.key
    requires e in st.order && Newest(hash, st, e, first)
    ensures var r := Replace(hash, st, x);
      e in r.order && Newest(hash, r, e, first <==> EvenlyExpanded(st, r))
  {
    hide Newest, Find, Delete, Wf, AddToTable, Replace;
    FindFinds(hash, st, x.key);
    ReplaceParts(hash, st, x);
    var f := Find(hash, st, x.key);
    if f != null {
      DeleteOtherKeeps(hash, st, f, e, first);
      DeleteMembers(hash, st, f);
    }
    var kept := if f == null then st else Delete(hash, st, f);
    AddOtherKeeps(hash, kept, kept.order + [x], x, e, first);
  }

  lemma ApplyKeepsNewest(hash: HashFn, st: State, op: Op, e: Element, first: bool)
    requires Wf(hash, st) && Legal(hash, st, op) && Spares(op, e) && e in st.order && Newest(hash, st, e, first)
    ensures var r := Apply(hash, st, op);
      e in r.order && Newest(hash, r, e, first <==> EvenlyExpanded(st, r))
  {
    match op
    case OpAdd(x) => AddOtherKeeps(hash, st, st.order + [x], x, e, first);
    case OpAddInOrder(x, cmp) =>
      InsertInOrderMembers(cmp, st.order, x);
      AddOtherKeeps(hash, st, InsertInOrder(cmp, st.order, x), x, e, first);
    case OpReplace(x) => ReplaceKeepsNewest(hash, st, x, e, first);
    case OpDelete(x) =>
      DeleteOtherKeeps(hash, st, x, e, first);
      DeleteMembers(hash, st, x);
    case OpSort(cmp) =>
      SortKeepsMembers(cmp, st.order);
      assert Equals(hash, Sorted(st, cmp), e.key) == Equals(hash, st, e.key);
  }

  lemma {:induction false} RunKeepsNewest(hash: HashFn, st: State, ops: seq<Op>, e: Element, first: bool)
    requires Wf(hash, st) && LegalRun(hash, st, ops) && (forall i :: 0 <= i < |ops| ==> Spares(ops[i], e))
    requires e in st.order && Newest(hash, st, e, first)
    ensures var r := RunFrom(hash, st, ops);
      Newest(hash, r, e, first <==> EvenlyExpanded(st, r))
    decreases |ops|
  {
    if ops != [] {
      ApplyKeepsNewest(hash, st, ops[0], e, first);
      ApplyKeepsWf(hash, st, ops[0]);
      var next := Apply(hash, st, ops[0]);
      RunKeepsNewest(hash, next, ops[1..], e, first <==> EvenlyExpanded(st, next));
      EvenSum(st, next, RunFrom(hash, next, ops[1..]));
    }
  }

  lemma FirstIfNewest(eq: seq<Element>, e: Element, first: bool)
    requires IsEnd(eq, e, first)
    ensures eq[0] == e <==> first || eq == [e]
  {
    if !first && |eq| > 1 {
      assert eq[0] in eq[..|eq| - 1];
    }
  }

  // Lookup finds the newest element with a key exactly when an even number of
  // expansions has happened since it was added, or when it is the only one.
  lemma NewestFound(hash: HashFn, st: State, e: Element, ops: seq<Op>)
    requires Wf(hash, st) && e !in st.order
    requires var st1 := Add(hash, st, e);
      LegalRun(hash, st1, ops) && forall i :: 0 <= i < |ops| ==> Spares(ops[i], e)
    ensures var r := RunFrom(hash, Add(hash, st, e), ops);
      Find(hash, r, e.key) == e <==> EvenlyExpanded(st, r) || Equals(hash, r, e.key) == [e]
  {
    var st1 := Add(hash, st, e);
    AddKeepsWf(hash, st, e);
    AddedIsNewest(hash, st, st.order + [e], e);
    RunKeepsNewest(hash, st1, ops, e, EvenlyExpanded(st, st1));
    var r := RunFrom(hash, st1, ops);
    EvenSum(st, st1, r);
    FindIsFirst(r.chains[Bucket(hash, e.key, |r.chains|)], e.key);
    FirstIfNewest(Equals(hash, r, e.key), e, EvenlyExpanded(st, r));
  }
}
