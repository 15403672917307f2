// HASH_SRT: the merge sort that relinks the insertion-order list in place.
module ListSort {
  import opened Bits
  import opened Handles
  import opened HashState
  import opened Sequences
  import opened Buckets
  import opened InsertionList
  import opened SortSpec

  // From index a up to index b, the elements of s still point to their successors.
  ghost predicate Pending(s: seq<Element>, a: nat, b: nat)
    requires b <= |s|
    reads s`next
  {
    forall k {:trigger s[k].next} :: a <= k < b ==> s[k].next == At(s, k + 1)
  }

  // The output list so far; its last next pointer is stale.
  ghost predicate OutLinked(out: seq<Element>, list: Element?, tail: Element?)
    reads out`next, out`prev
  {
    && (forall k {:trigger out[k].next} :: 0 <= k < |out| - 1 ==> out[k].next == out[k + 1])
    && PrevLinked(out)
    && list == At(out, 0) && tail == At(out, |out| - 1)
  }

  // Appends e to the output list.
  method Emit(e: Element, list0: Element?, tail0: Element?, ghost out: seq<Element>)
    returns (list: Element?, tail: Element?)
    requires OutLinked(out, list0, tail0) && Distinct(out) && e !in out
    modifies e`prev, (if tail0 == null then {} else {tail0})`next
    ensures OutLinked(out + [e], list, tail)
  {
    list := list0;
    if tail0 != null {
      tail0.next := e;
    } else {
      list := e;
    }
    e.prev := tail0;
    tail := e;
  }

  // Walks over one run: its length, and the element after it.
  method SplitRun(p: Element, insize: nat, ghost s: seq<Element>, ghost i: nat) returns (q: Element?, psize: nat)
    requires insize > 0 && i < |s| && p == s[i] && Pending(s, i, |s|)
    ensures psize == Min(insize, |s| - i) && q == At(s, i + psize)
  {
    q := p;
    psize := 0;
    var n := 0;
    while n < insize
      invariant n == psize <= Min(insize, |s| - i)
      invariant psize < insize ==> q != null
      invariant q == At(s, i + psize)
    {
      psize := psize + 1;
      q := q.next;
      if q == null {
        break;
      }
      n := n + 1;
    }
  }

  // The unread part of two adjacent runs, at i in s[..m] and at j in s[m..e].
  ghost predicate Merging(s: seq<Element>, i: nat, m: nat, j: nat, e: nat, out: seq<Element>)
    reads s`next
  {
    && i <= m <= j <= e <= |s|
    && Pending(s, i, m) && Pending(s, j, |s|)
    && Distinct(out)
    && (forall k {:trigger s[k]} :: i <= k < m || j <= k < |s| ==> s[k] !in out)
  }

  lemma MergeTakesLeft(cmp: Cmp, s: seq<Element>, i: nat, m: nat, j: nat, e: nat)
    requires i < m <= j <= e <= |s| && (j == e || cmp(s[i], s[j]) <= 0)
    ensures Merge(cmp, s[i..m], s[j..e]) == [s[i]] + Merge(cmp, s[i + 1..m], s[j..e])
  {
    assert s[i..m][1..] == s[i + 1..m];
    assert j == e ==> Merge(cmp, s[i + 1..m], s[j..e]) == s[i + 1..m];
  }

  lemma MergeTakesRight(cmp: Cmp, s: seq<Element>, i: nat, m: nat, j: nat, e: nat)
    requires i <= m <= j < e <= |s| && (i == m || cmp(s[i], s[j]) > 0)
    ensures Merge(cmp, s[i..m], s[j..e]) == [s[j]] + Merge(cmp, s[i..m], s[j + 1..e])
  {
    assert s[j..e][1..] == s[j + 1..e];
  }

  // Picks the next element to output and steps past it.
  method Take(p0: Element?, q0: Element?, psize0: nat, qsize0: nat, cmp: Cmp,
              ghost s: seq<Element>, ghost i0: nat, ghost m: nat, ghost j0: nat, ghost e: nat)
    returns (el: Element, p: Element?, q: Element?, psize: nat, qsize: nat, ghost i: nat, ghost j: nat)
    requires i0 <= m <= j0 <= e <= |s| && Pending(s, i0, m) && Pending(s, j0, |s|)
    requires psize0 == m - i0 && (psize0 != 0 ==> p0 == s[i0])
    requires q0 == At(s, j0) && (qsize0 != 0 && q0 != null <==> j0 < e)
    requires i0 < m || j0 < e
    ensures (i == i0 + 1 && j == j0 && i <= m && el == s[i0]) || (i == i0 && j == j0 + 1 && j <= e && el == s[j0])
    ensures psize == m - i && (psize != 0 ==> p == s[i])
    ensures q == At(s, j) && qsize - qsize0 == j0 - j
    ensures Merge(cmp, s[i0..m], s[j0..e]) == [el] + Merge(cmp, s[i..m], s[j..e])
  {
    p, q, psize, qsize, i, j := p0, q0, psize0, qsize0, i0, j0;
    if psize == 0 {
      MergeTakesRight(cmp, s, i, m, j, e);
      el, q, qsize, j := q, q.next, qsize - 1, j + 1;
    } else if qsize == 0 || q == null {
      MergeTakesLeft(cmp, s, i, m, j, e);
      el, p, psize, i := p, p.next, psize - 1, i + 1;
    } else if cmp(p, q) <= 0 {
      MergeTakesLeft(cmp, s, i, m, j, e);
      el, p, psize, i := p, p.next, psize - 1, i + 1;
    } else {
      MergeTakesRight(cmp, s, i, m, j, e);
      el, q, qsize, j := q, q.next, qsize - 1, j + 1;
    }
  }

  // Outputting one of the two front elements leaves the others unread.
  lemma StepOver(s: seq<Element>, i0: nat, j0: nat, i: nat, m: nat, j: nat, e: nat, el: Element, out: seq<Element>)
    requires i0 <= m <= j0 <= e <= |s| && Distinct(s) && Distinct(out) && el !in out
    requires (i == i0 + 1 && j == j0 && i <= m && el == s[i0]) || (i == i0 && j == j0 + 1 && j <= e && el == s[j0])
    requires forall k {:trigger s[k]} :: i0 <= k < m || j0 <= k < |s| ==> s[k] !in out
    ensures Distinct(out + [el])
    ensures forall k {:trigger s[k]} :: i <= k < m || j <= k < |s| ==> s[k] !in out + [el]
  {
  }

  // One round of a merge
  method MergeStep(p0: Element?, q0: Element?, psize0: nat, qsize0: nat, list0: Element?, tail0: Element?, cmp: Cmp,
                   ghost s: seq<Element>, ghost i0: nat, ghost m: nat, ghost j0: nat, ghost e: nat,
                   ghost out: seq<Element>)
    returns (p: Element?, q: Element?, psize: nat, qsize: nat, list: Element?, tail: Element?,
             ghost el: Element, ghost i: nat, ghost j: nat)
    requires Distinct(s) && Merging(s, i0, m, j0, e, out) && OutLinked(out, list0, tail0) && (i0 < m || j0 < e)
    requires psize0 == m - i0 && (psize0 != 0 ==> p0 == s[i0])
    requires q0 == At(s, j0) && (qsize0 != 0 && q0 != null <==> j0 < e)
    modifies s`prev, out`next
    ensures Merging(s, i, m, j, e, out + [el]) && OutLinked(out + [el], list, tail) && el in s
    ensures psize == m - i && (psize != 0 ==> p == s[i])
    ensures q == At(s, j) && qsize - qsize0 == j0 - j
    ensures Merge(cmp, s[i0..m], s[j0..e]) == [el] + Merge(cmp, s[i..m], s[j..e])
  {
    hide Merge;
    assert tail0 != null ==> tail0 in out;
    var next: Element;
    next, p, q, psize, qsize, i, j := Take(p0, q0, psize0, qsize0, cmp, s, i0, m, j0, e);
    el := next;
    list, tail := Emit(next, list0, tail0, out);
    StepOver(s, i0, j0, i, m, j, e, el, out);
  }

  // Merges the run of psize elements at p with the run of at most insize at q0.
  method MergeRuns(p0: Element, q0: Element?, psize0: nat, insize: nat, list0: Element?, tail0: Element?, cmp: Cmp,
                   ghost s: seq<Element>, ghost i0: nat, ghost m: nat, ghost e: nat, ghost out0: seq<Element>)
    returns (q: Element?, list: Element?, tail: Element?, ghost out: seq<Element>)
    requires i0 < m == i0 + psize0 <= |s| && e == Min(m + insize, |s|) && p0 == s[i0] && q0 == At(s, m)
    requires Distinct(s) && OutLinked(out0, list0, tail0) && Merging(s, i0, m, m, e, out0)
    modifies s`next, s`prev, out0`next
    ensures q == At(s, e) && Merging(s, m, m, e, e, out) && OutLinked(out, list, tail)
    ensures out == out0 + Merge(cmp, s[i0..m], s[m..e])
    ensures forall k {:trigger out[k]} :: 0 <= k < |out| ==> out[k] in out0 || out[k] in s
  {
    hide Merge, Pending, OutLinked, Distinct;
    ghost var i: nat, j: nat := i0, m;
    ghost var rest := Merge(cmp, s[i..m], s[j..e]);
    ghost var target := out0 + rest;
    var p: Element? := p0;
    var psize, qsize := psize0, insize;
    q, list, tail, out := q0, list0, tail0, out0;
    while psize != 0 || (qsize != 0 && q != null)
      invariant Merging(s, i, m, j, e, out) && OutLinked(out, list, tail)
      invariant psize == m - i && (psize != 0 ==> p == s[i])
      invariant q == At(s, j) && qsize == insize - (j - m)
      invariant rest == Merge(cmp, s[i..m], s[j..e])
      invariant out + rest == target
      invariant forall k {:trigger out[k]} :: 0 <= k < |out| ==> out[k] in out0 || out[k] in s
      decreases |rest|
    {
      ghost var el;
      p, q, psize, qsize, list, tail, el, i, j := MergeStep(p, q, psize, qsize, list, tail, cmp, s, i, m, j, e, out);
      FirstMoves(out, rest);
      rest := rest[1..];
      out := out + [el];
    }
    assert i == m && j == e;
    assert rest == [] && out + [] == out;
    assert out == target;
  }

  lemma FirstMoves(out: seq<Element>, rest: seq<Element>)
    requires rest != []
    ensures out + rest == out + [rest[0]] + rest[1..]
  {
  }

  // What holds between two merges of a pass: s[..i] has been read, out written.
  ghost predicate Passing(s: seq<Element>, i: nat, p: Element?, out: seq<Element>, first: Element?, last: Element?)
    reads s`next, out`next, out`prev
  {
    && i <= |s| && p == At(s, i) && Pending(s, i, |s|)
    && OutLinked(out, first, last) && Distinct(out)
    && (forall k {:trigger s[k]} :: i <= k < |s| ==> s[k] !in out)
    && Within(out, s)
  }

  ghost predicate Within(r: seq<Element>, s: seq<Element>)
  {
    forall k {:trigger r[k]} :: 0 <= k < |r| ==> r[k] in s
  }

  // Splits two runs off at p and merges them.
  method MergePair(p0: Element, insize: nat, first0: Element?, last0: Element?, cmp: Cmp,
                   ghost s: seq<Element>, ghost i: nat, ghost out0: seq<Element>)
    returns (p: Element?, first: Element?, last: Element?, ghost e: nat, ghost out: seq<Element>)
    requires insize > 0 && Distinct(s) && Passing(s, i, p0, out0, first0, last0)
    modifies s`next, s`prev
    ensures e == Min(i + 2 * insize, |s|) && p == At(s, e) && Passing(s, e, p, out, first, last)
    ensures out + Pass(cmp, s[e..], insize) == out0 + Pass(cmp, s[i..], insize)
  {
    var q, psize := SplitRun(p0, insize, s, i);
    ghost var m: nat := i + psize;
    e := Min(m + insize, |s|);
    assert Merging(s, i, m, m, e, out0);
    p, first, last, out := MergeRuns(p0, q, psize, insize, first0, last0, cmp, s, i, m, e, out0);
    PairDone(cmp, s, insize, i, m, e, out0, out);
  }

  lemma PairDone(cmp: Cmp, s: seq<Element>, w: nat, i: nat, m: nat, e: nat, out0: seq<Element>, out: seq<Element>)
    requires w > 0 && i < |s| && m == i + Min(w, |s| - i) && e == Min(m + w, |s|)
    requires out == out0 + Merge(cmp, s[i..m], s[m..e])
    ensures out + Pass(cmp, s[e..], w) == out0 + Pass(cmp, s[i..], w)
  {
    hide Pass, Merge;
    PassUnfolds(cmp, s, w, i);
    Regroup(out0, Merge(cmp, s[i..m], s[m..e]), Pass(cmp, s[e..], w));
  }

  lemma Regroup(a: seq<Element>, b: seq<Element>, c: seq<Element>)
    ensures (a + b) + c == a + (b + c)
  {
  }

  lemma PassingFacts(s: seq<Element>, i: nat, p: Element?, out: seq<Element>, first: Element?, last: Element?)
    requires Passing(s, i, p, out, first, last)
    ensures i <= |s| && p == At(s, i) && first == At(out, 0) && last == At(out, |out| - 1)
    ensures OutLinked(out, first, last) && Distinct(out) && Within(out, s)
  {
  }

  lemma NothingPassed(s: seq<Element>, p: Element)
    requires NextLinked(s) && p == At(s, 0)
    ensures Passing(s, 0, p, [], null, null)
  {
  }

  lemma NothingToPass(cmp: Cmp, w: nat)
    requires w > 0
    ensures Pass(cmp, [], w) == []
  {
  }

  // The loop of one pass.
  method MergeAll(list0: Element, insize: nat, cmp: Cmp, ghost s: seq<Element>)
    returns (first: Element?, last: Element?, nmerges: nat, ghost out: seq<Element>)
    requires insize > 0 && Distinct(s) && Passing(s, 0, list0, [], null, null)
    modifies s`next, s`prev
    ensures OutLinked(out, first, last) && Distinct(out) && Within(out, s)
    ensures out == Pass(cmp, s, insize) && first == At(out, 0) && last == At(out, |out| - 1)
    ensures nmerges <= 1 <==> |s| <= 2 * insize
  {
    hide Passing, Pass, Merge, Distinct, OutLinked, Within;
    PassingFacts(s, 0, list0, [], null, null);
    var p: Element? := list0;
    first, last, nmerges, out := null, null, 0, [];
    ghost var i: nat := 0;
    assert s[0..] == s;
    while p != null
      invariant i <= |s| && p == At(s, i) && Passing(s, i, p, out, first, last)
      invariant out + Pass(cmp, s[i..], insize) == Pass(cmp, s, insize)
      invariant nmerges == 0 ==> i == 0
      invariant nmerges == 1 ==> i == Min(2 * insize, |s|)
      invariant nmerges > 1 ==> |s| > 2 * insize
      decreases |s| - i
    {
      nmerges := nmerges + 1;
      p, first, last, i, out := MergePair(p, insize, first, last, cmp, s, i, out);
    }
    assert i == |s| && s[i..] == [] && out + [] == out;
    NothingToPass(cmp, insize);
    PassingFacts(s, i, p, out, first, last);
  }

  // One pass over the list: s becomes Pass(cmp, s, insize).
  method MergePass(list0: Element, insize: nat, cmp: Cmp, ghost s: seq<Element>)
    returns (list: Element, tail: Element, nmerges: nat, ghost out: seq<Element>)
    requires insize > 0 && s != [] && list0 == s[0] && Distinct(s) && NextLinked(s)
    modifies s`next, s`prev
    ensures out == Pass(cmp, s, insize)
    ensures Distinct(out) && Within(out, s) && ListLinked(out) && list == out[0] && tail == Last(out)
    ensures nmerges <= 1 <==> |s| <= 2 * insize
  {
    hide Pass, Passing, OutLinked, Within, Distinct, ListLinked, NextLinked;
    var first: Element?, last: Element?;
    NothingPassed(s, list0);
    first, last, nmerges, out := MergeAll(list0, insize, cmp, s);
    assert Last(out) == last;
    TerminateList(last, out, s);
    list, tail := first, last;
  }

  // The null that ends the output list.
  method TerminateList(last: Element, ghost out: seq<Element>, ghost s: seq<Element>)
    requires out != [] && OutLinked(out, out[0], last) && last == Last(out) && Distinct(out) && Within(out, s)
    modifies s`next
    ensures ListLinked(out)
  {
    last.next := null;
  }

  lemma PassUnfolds(cmp: Cmp, s: seq<Element>, w: nat, i: nat)
    requires w > 0 && i < |s|
    ensures var m := i + Min(w, |s| - i); var e := Min(m + w, |s|);
      Pass(cmp, s[i..], w) == Merge(cmp, s[i..m], s[m..e]) + Pass(cmp, s[e..], w)
  {
    hide Pass, Merge;
    var m := i + Min(w, |s| - i);
    var e := Min(m + w, |s|);
    PassStep(cmp, s[i..], w, m - i, e - i);
    SliceOfRest(s, i, m, e);
  }

  lemma PassStep(cmp: Cmp, t: seq<Element>, w: nat, i: nat, j: nat)
    requires w > 0 && t != [] && i == Min(w, |t|) && j == Min(2 * w, |t|)
    ensures Pass(cmp, t, w) == Merge(cmp, t[..i], t[i..j]) + Pass(cmp, t[j..], w)
  {
  }

  lemma SliceOfRest(s: seq<Element>, i: nat, m: nat, e: nat)
    requires i <= m <= e <= |s|
    ensures s[i..][..m - i] == s[i..m] && s[i..][m - i..e - i] == s[m..e] && s[i..][e - i..] == s[e..]
  {
  }

  // The passes of HASH_SRT. Their number is the logarithm of the length, at least one.
  method SortList(head: Element, cmp: Cmp, ghost s: seq<Element>)
    returns (list: Element, tail: Element, ghost passes: nat, ghost r: seq<Element>)
    requires s != [] && head == s[0] && Distinct(s) && NextLinked(s)
    modifies s`next, s`prev
    ensures r == MergeSort(cmp, s)
    ensures Distinct(r) && Within(r, s) && ListLinked(r) && list == r[0] && tail == Last(r)
    ensures passes >= 1 && |s| <= Pow(2, passes) && (passes > 1 ==> Pow(2, passes - 1) < |s|)
  {
    hide Distinct, NextLinked, Pass;
    var insize := 1;
    var looping := true;
    list, tail, passes, r := head, head, 0, s;
    while looping
      invariant Distinct(r) && |r| == |s| && Within(r, s)
      invariant NextLinked(r) && list == r[0]
      invariant insize == Pow(2, passes)
      invariant looping ==> SortFrom(cmp, r, insize) == MergeSort(cmp, s)
      invariant looping && passes > 0 ==> Pow(2, passes) < |s|
      invariant !looping ==> r == MergeSort(cmp, s) && ListLinked(r) && tail == Last(r)
      invariant !looping ==> passes >= 1 && |s| <= Pow(2, passes) && (passes > 1 ==> Pow(2, passes - 1) < |s|)
      decreases looping, |s| - insize
    {
      var nmerges: nat;
      ghost var was := r;
      list, tail, nmerges, r := MergePass(list, insize, cmp, r);
      WithinWithin(r, was, s);
      passes := passes + 1;
      if nmerges <= 1 {
        looping := false;
      }
      insize := insize * 2;
    }
  }

  lemma WithinWithin(a: seq<Element>, b: seq<Element>, c: seq<Element>)
    requires Within(a, b) && Within(b, c)
    ensures Within(a, c)
  {
    forall k {:trigger a[k]} | 0 <= k < |a| ensures a[k] in c {
      assert a[k] in b;
    }
  }

  lemma WithinIsSame(r: seq<Element>, s: seq<Element>)
    requires Distinct(r) && Distinct(s) && |r| == |s| && Within(r, s)
    ensures SameMembers(r, s)
  {
    var rs, ss := set x | x in r, set x | x in s;
    DistinctLength(r);
    DistinctLength(s);
    assert rs <= ss;
    if rs < ss {
      SubsetCardinality(rs, ss);
    }
    assert rs == ss;
    assert forall x :: (x in r <==> x in rs) && (x in s <==> x in ss);
  }

  lemma SubsetCardinality<T>(a: set<T>, b: set<T>)
    requires a < b
    ensures |a| < |b|
  {
    assert b == a + (b - a);
  }
}
