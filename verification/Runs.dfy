// Whole runs of hash operations: what every one of them keeps, and how lookup
// compares with an ordinary map.
module Runs {
  import opened Bits
  import opened Handles
  import opened HashState
  import opened Sequences
  import opened SortSpec

  datatype Op =
    | OpAdd(e: Element)
    | OpAddInOrder(e: Element, cmp: Cmp)
    | OpReplace(e: Element)
    | OpDelete(e: Element)
    | OpSort(cmp: Cmp)

  ghost function Apply(hash: HashFn, st: State, op: Op): (r: State)
    requires Shape(st)
    ensures Shape(r)
  {
    match op
    case OpAdd(e) => Add(hash, st, e)
    case OpAddInOrder(e, cmp) => AddInOrder(hash, st, e, cmp)
    case OpReplace(e) => Replace(hash, st, e)
    case OpDelete(e) => Delete(hash, st, e)
    case OpSort(cmp) => Sorted(st, cmp)
  }

  // What the macros ask of their caller: an added element is not in the table, a
  // deleted one is.
  ghost predicate Legal(hash: HashFn, st: State, op: Op)
    requires Shape(st)
  {
    match op
    case OpAdd(e) => e !in st.order
    case OpAddInOrder(e, _) => e !in st.order
    case OpReplace(e) => e !in st.order || e == Find(hash, st, e.key)
    case OpDelete(e) => e in st.order
    case OpSort(_) => true
  }

  ghost function RunFrom(hash: HashFn, st: State, ops: seq<Op>): (r: State)
    requires Shape(st)
    ensures Shape(r)
    decreases |ops|
  {
    if ops == [] then st else RunFrom(hash, Apply(hash, st, ops[0]), ops[1..])
  }

  ghost predicate LegalRun(hash: HashFn, st: State, ops: seq<Op>)
    requires Shape(st)
    decreases |ops|
  {
    ops == [] || (Legal(hash, st, ops[0]) && LegalRun(hash, Apply(hash, st, ops[0]), ops[1..]))
  }

  lemma {:induction false} RunAppend(hash: HashFn, st: State, ops: seq<Op>, more: seq<Op>)
    requires Shape(st)
    ensures RunFrom(hash, st, ops + more) == RunFrom(hash, RunFrom(hash, st, ops), more)
    ensures LegalRun(hash, st, ops + more) <==> LegalRun(hash, st, ops) && LegalRun(hash, RunFrom(hash, st, ops), more)
    decreases |ops|
  {
    if ops == [] {
      assert ops + more == more;
    } else {
      assert (ops + more)[0] == ops[0] && (ops + more)[1..] == ops[1..] + more;
      RunAppend(hash, Apply(hash, st, ops[0]), ops[1..], more);
    }
  }

  // ------------------------------------------------------------ structure

  lemma SortKeepsMembers(cmp: Cmp, s: seq<Element>)
    requires Distinct(s)
    ensures Distinct(MergeSort(cmp, s)) && SameMembers(MergeSort(cmp, s), s)
  {
    SortFromMultiset(cmp, s, 1);
    DistinctFromMultiset(MergeSort(cmp, s), s);
    SameFromMultiset(MergeSort(cmp, s), s);
  }

  lemma {:induction false} MergeMultiset(cmp: Cmp, p: seq<Element>, q: seq<Element>)
    ensures multiset(Merge(cmp, p, q)) == multiset(p) + multiset(q)
    decreases |p| + |q|
  {
    if p != [] && q != [] {
      assert p == [p[0]] + p[1..] && q == [q[0]] + q[1..];
      if cmp(p[0], q[0]) <= 0 {
        MergeMultiset(cmp, p[1..], q);
      } else {
        MergeMultiset(cmp, p, q[1..]);
      }
    }
  }

  lemma {:induction false} PassMultiset(cmp: Cmp, s: seq<Element>, w: nat)
    requires w > 0
    ensures multiset(Pass(cmp, s, w)) == multiset(s)
    decreases |s|
  {
    if s != [] {
      var i, j := Min(w, |s|), Min(2 * w, |s|);
      MergeMultiset(cmp, s[..i], s[i..j]);
      PassMultiset(cmp, s[j..], w);
      ThreeParts(s, i, j);
    }
  }

  lemma ThreeParts(s: seq<Element>, i: nat, j: nat)
    requires i <= j <= |s|
    ensures multiset(s) == multiset(s[..i]) + multiset(s[i..j]) + multiset(s[j..])
  {
    assert s == s[..i] + s[i..j] + s[j..];
  }

  lemma {:induction false} SortFromMultiset(cmp: Cmp, s: seq<Element>, w: nat)
    requires w > 0
    ensures multiset(SortFrom(cmp, s, w)) == multiset(s)
    decreases if |s| > w then |s| - w else 0
  {
    PassMultiset(cmp, s, w);
    if |s| > 2 * w {
      SortFromMultiset(cmp, Pass(cmp, s, w), 2 * w);
    }
  }

  lemma DistinctFromMultiset<T>(r: seq<T>, s: seq<T>)
    requires Distinct(s) && multiset(r) == multiset(s)
    ensures Distinct(r)
  {
    forall x | x in s ensures multiset(s)[x] == 1 {
      OnceInDistinct(s, x);
    }
    forall i, j | 0 <= i < j < |r| ensures r[i] != r[j] {
      assert r[i] in multiset(s);
      if r[i] == r[j] {
        TwiceInMultiset(r, i, j);
      }
    }
  }

  lemma {:induction false} OnceInDistinct<T>(s: seq<T>, x: T)
    requires Distinct(s) && x in s
    ensures multiset(s)[x] == 1
  {
    assert s == [s[0]] + s[1..];
    if s[0] == x {
      assert x !in s[1..];
    } else {
      OnceInDistinct(s[1..], x);
    }
  }

  lemma TwiceInMultiset<T>(r: seq<T>, i: nat, j: nat)
    requires i < j < |r| && r[i] == r[j]
    ensures multiset(r)[r[i]] >= 2
  {
    assert r == r[..i] + [r[i]] + r[i + 1..j] + [r[j]] + r[j + 1..];
  }

  lemma ApplyKeepsWf(hash: HashFn, st: State, op: Op)
    requires Wf(hash, st) && Legal(hash, st, op)
    ensures Wf(hash, Apply(hash, st, op))
  {
    match op
    case OpAdd(e) => AddKeepsWf(hash, st, e);
    case OpAddInOrder(e, cmp) => AddInOrderKeepsWf(hash, st, e, cmp);
    case OpReplace(e) => ReplaceKeepsWf(hash, st, e);
    case OpDelete(e) => DeleteKeepsWf(hash, st, e);
    case OpSort(cmp) =>
      SortKeepsMembers(cmp, st.order);
      ReorderKeepsWf(hash, st, MergeSort(cmp, st.order));
  }

  lemma ReplaceKeepsWf(hash: HashFn, st: State, e: Element)
    requires Wf(hash, st) && Legal(hash, st, OpReplace(e))
    ensures Wf(hash, Replace(hash, st, e))
  {
    FindFinds(hash, st, e.key);
    var f := Find(hash, st, e.key);
    if f != null {
      DeleteMembers(hash, st, f);
      DeleteKeepsWf(hash, st, f);
      AddKeepsWf(hash, Delete(hash, st, f), e);
    } else {
      AddKeepsWf(hash, st, e);
    }
  }

  // Every legal run keeps list and chains consistent.
  lemma {:induction false} RunKeepsWf(hash: HashFn, st: State, ops: seq<Op>)
    requires Wf(hash, st) && LegalRun(hash, st, ops)
    ensures Wf(hash, RunFrom(hash, st, ops))
    decreases |ops|
  {
    if ops != [] {
      ApplyKeepsWf(hash, st, ops[0]);
      RunKeepsWf(hash, Apply(hash, st, ops[0]), ops[1..]);
    }
  }

  // ------------------------------------------------------------ refinement of a map

  type KeyMap = map<Key, Element>

  ghost function ApplyMap(m: KeyMap, op: Op): KeyMap
  {
    match op
    case OpAdd(e) => m[e.key := e]
    case OpAddInOrder(e, _) => m[e.key := e]
    case OpReplace(e) => m[e.key := e]
    case OpDelete(e) => m - {e.key}
    case OpSort(_) => m
  }

  ghost function RunMap(m: KeyMap, ops: seq<Op>): KeyMap
    decreases |ops|
  {
    if ops == [] then m else RunMap(ApplyMap(m, ops[0]), ops[1..])
  }

  // A caller that keeps keys unique: it adds only keys that are not there.
  ghost predicate UniqueKeys(m: KeyMap, op: Op)
  {
    match op
    case OpAdd(e) => e.key !in m
    case OpAddInOrder(e, _) => e.key !in m
    case OpReplace(e) => true
    case OpDelete(e) => e.key in m && m[e.key] == e
    case OpSort(_) => true
  }

  ghost predicate UniqueKeysRun(m: KeyMap, ops: seq<Op>)
    decreases |ops|
  {
    ops == [] || (UniqueKeys(m, ops[0]) && UniqueKeysRun(ApplyMap(m, ops[0]), ops[1..]))
  }

  // The table holds exactly the values of the map.
  ghost predicate Holds(st: State, m: KeyMap)
  {
    && (forall k :: k in m ==> m[k].key == k && m[k] in st.order)
    && (forall e :: e in st.order ==> e.key in m && m[e.key] == e)
  }

  lemma HoldsFinds(hash: HashFn, st: State, m: KeyMap, key: Key)
    requires Wf(hash, st) && Holds(st, m)
    ensures Find(hash, st, key) == if key in m then m[key] else null
  {
    FindFinds(hash, st, key);
  }

  lemma HoldsAfterAdd(st: State, m: KeyMap, e: Element, r: State)
    requires Holds(st, m) && e.key !in m && forall x :: x in r.order <==> x in st.order || x == e
    ensures Holds(r, m[e.key := e])
  {
  }

  lemma HoldsAfterDelete(st: State, m: KeyMap, e: Element, r: State)
    requires Holds(st, m) && e in st.order && forall x :: x in r.order <==> x in st.order && x != e
    ensures Holds(r, m - {e.key})
  {
  }

  lemma AddMembers(hash: HashFn, st: State, e: Element)
    requires Shape(st)
    ensures forall x :: x in Add(hash, st, e).order <==> x in st.order || x == e
  {
  }

  lemma AddInOrderMembers(hash: HashFn, st: State, e: Element, cmp: Cmp)
    requires Shape(st)
    ensures forall x :: x in AddInOrder(hash, st, e, cmp).order <==> x in st.order || x == e
  {
    InsertInOrderMembers(cmp, st.order, e);
  }

  lemma ReplaceRefinesMap(hash: HashFn, st: State, m: KeyMap, e: Element)
    requires Wf(hash, st) && Holds(st, m)
    ensures Legal(hash, st, OpReplace(e)) && Holds(Replace(hash, st, e), m[e.key := e])
  {
    HoldsFinds(hash, st, m, e.key);
    if e.key in m {
      var kept := Delete(hash, st, m[e.key]);
      DeleteMembers(hash, st, m[e.key]);
      HoldsAfterDelete(st, m, m[e.key], kept);
      AddMembers(hash, kept, e);
      HoldsAfterAdd(kept, m - {e.key}, e, Add(hash, kept, e));
      assert (m - {e.key})[e.key := e] == m[e.key := e];
    } else {
      AddMembers(hash, st, e);
      HoldsAfterAdd(st, m, e, Add(hash, st, e));
    }
  }

  lemma SortRefinesMap(st: State, m: KeyMap, cmp: Cmp)
    requires Distinct(st.order) && Holds(st, m)
    ensures Holds(Sorted(st, cmp), m)
  {
    SortKeepsMembers(cmp, st.order);
  }

  lemma ApplyRefinesMap(hash: HashFn, st: State, m: KeyMap, op: Op)
    requires Wf(hash, st) && Holds(st, m) && UniqueKeys(m, op)
    ensures Legal(hash, st, op) && Holds(Apply(hash, st, op), ApplyMap(m, op))
  {
    match op
    case OpAdd(e) =>
      AddMembers(hash, st, e);
      HoldsAfterAdd(st, m, e, Add(hash, st, e));
    case OpAddInOrder(e, cmp) =>
      AddInOrderMembers(hash, st, e, cmp);
      HoldsAfterAdd(st, m, e, AddInOrder(hash, st, e, cmp));
    case OpReplace(e) =>
      ReplaceRefinesMap(hash, st, m, e);
    case OpDelete(e) =>
      DeleteMembers(hash, st, e);
      HoldsAfterDelete(st, m, e, Delete(hash, st, e));
    case OpSort(cmp) =>
      SortRefinesMap(st, m, cmp);
  }

  // After any run with unique keys, lookup agrees with the map.
  lemma {:induction false} RunRefinesMap(hash: HashFn, st: State, m: KeyMap, ops: seq<Op>, key: Key)
    requires Wf(hash, st) && Holds(st, m) && UniqueKeysRun(m, ops)
    ensures LegalRun(hash, st, ops)
    ensures var r := RunMap(m, ops);
      Find(hash, RunFrom(hash, st, ops), key) == if key in r then r[key] else null
    decreases |ops|
  {
    if ops == [] {
      HoldsFinds(hash, st, m, key);
    } else {
      ApplyRefinesMap(hash, st, m, ops[0]);
      ApplyKeepsWf(hash, st, ops[0]);
      RunRefinesMap(hash, Apply(hash, st, ops[0]), ApplyMap(m, ops[0]), ops[1..], key);
    }
  }
}
