// HASH_SRT yields a stable sorted permutation: the list that inserting the same
// elements one by one with HASH_ADD_INORDER would have built.
module SortTheorems {
  import opened Bits
  import opened Handles
  import opened HashState
  import opened SortSpec

  ghost predicate AtMost(cmp: Cmp, a: Element, b: Element)
  {
    cmp(a, b) <= 0
  }

  ghost predicate Tied(cmp: Cmp, a: Element, b: Element)
  {
    AtMost(cmp, a, b) && AtMost(cmp, b, a)
  }

  // cmp is total and transitive on the elements of s.
  ghost predicate TotalPreorder(cmp: Cmp, s: seq<Element>)
  {
    && (forall a, b {:trigger cmp(a, b)} :: a in s && b in s ==> cmp(a, b) <= 0 || cmp(b, a) <= 0)
    && (forall a, b, c {:trigger cmp(a, b), cmp(b, c)} ::
        a in s && b in s && c in s && cmp(a, b) <= 0 && cmp(b, c) <= 0 ==> cmp(a, c) <= 0)
  }

  ghost predicate InOrder(cmp: Cmp, s: seq<Element>)
  {
    forall i, j {:trigger s[i], s[j]} :: 0 <= i < j < |s| ==> cmp(s[i], s[j]) <= 0
  }

  // The elements of s that compare equal to x, in the order of s.
  ghost function Ties(cmp: Cmp, s: seq<Element>, x: Element): seq<Element>
  {
    if s == [] then []
    else (if Tied(cmp, s[0], x) then [s[0]] else []) + Ties(cmp, s[1..], x)
  }

  // Inserting the elements of s one after the other into an empty ordered list.
  function InsertAll(cmp: Cmp, s: seq<Element>): (r: seq<Element>)
    ensures |r| == |s|
  {
    if s == [] then []
    else
      var front := InsertAll(cmp, s[..|s| - 1]);
      InsertInOrderMembers(cmp, front, s[|s| - 1]);
      InsertInOrder(cmp, front, s[|s| - 1])
  }

  // ------------------------------------------------- merging is repeated insertion

  lemma {:induction false} MergeOfInsert(cmp: Cmp, all: seq<Element>, p: seq<Element>, q: seq<Element>, e: Element)
    requires TotalPreorder(cmp, all) && e in all
    requires (forall x :: x in p ==> x in all) && (forall x :: x in q ==> x in all)
    ensures Merge(cmp, p, InsertInOrder(cmp, q, e)) == InsertInOrder(cmp, Merge(cmp, p, q), e)
    decreases |p| + |q|
  {
    var qe := InsertInOrder(cmp, q, e);
    if p == [] {
    } else if q == [] {
      if cmp(p[0], e) <= 0 {
        MergeOfInsert(cmp, all, p[1..], q, e);
        assert Merge(cmp, p[1..], q) == p[1..];
      } else {
        assert [e][1..] == [] && Merge(cmp, p, []) == p;
      }
    } else {
      assert p[0] in all && q[0] in all;
      if cmp(p[0], q[0]) <= 0 {
        MergeOfInsert(cmp, all, p[1..], q, e);
        if cmp(q[0], e) > 0 && cmp(p[0], e) > 0 {
          assert qe[1..] == q;
        }
      } else if cmp(q[0], e) <= 0 {
        MergeOfInsert(cmp, all, p, q[1..], e);
        assert qe[1..] == InsertInOrder(cmp, q[1..], e);
      } else {
        assert cmp(e, q[0]) <= 0;
        assert qe[1..] == q;
      }
    }
  }

  lemma {:induction false} MergeOfRuns(cmp: Cmp, all: seq<Element>, a: seq<Element>, b: seq<Element>)
    requires TotalPreorder(cmp, all)
    requires (forall x :: x in a ==> x in all) && (forall x :: x in b ==> x in all)
    ensures Merge(cmp, InsertAll(cmp, a), InsertAll(cmp, b)) == InsertAll(cmp, a + b)
  {
    if b == [] {
      assert a + b == a;
    } else {
      var front, e := b[..|b| - 1], b[|b| - 1];
      assert forall x :: x in front ==> x in b;
      MergeOfRuns(cmp, all, a, front);
      InsertAllWithin(cmp, a, all);
      InsertAllWithin(cmp, front, all);
      assert e in b;
      MergeOfInsert(cmp, all, InsertAll(cmp, a), InsertAll(cmp, front), e);
      assert (a + b)[..|a + b| - 1] == a + front;
    }
  }

  lemma {:induction false} InsertAllMultiset(cmp: Cmp, s: seq<Element>)
    ensures multiset(InsertAll(cmp, s)) == multiset(s)
  {
    if s != [] {
      var front, e := s[..|s| - 1], s[|s| - 1];
      InsertAllMultiset(cmp, front);
      InsertInOrderMultiset(cmp, InsertAll(cmp, front), e);
      assert s == front + [e];
    }
  }

  lemma InsertAllWithin(cmp: Cmp, s: seq<Element>, all: seq<Element>)
    requires forall x :: x in s ==> x in all
    ensures forall x :: x in InsertAll(cmp, s) ==> x in all
  {
    InsertAllMultiset(cmp, s);
    forall x | x in InsertAll(cmp, s) ensures x in all {
      assert x in multiset(InsertAll(cmp, s));
      assert x in s;
    }
  }

  lemma {:induction false} InsertInOrderMultiset(cmp: Cmp, s: seq<Element>, e: Element)
    ensures multiset(InsertInOrder(cmp, s, e)) == multiset(s) + multiset{e}
  {
    if s != [] {
      assert s == [s[0]] + s[1..];
      if cmp(s[0], e) <= 0 {
        InsertInOrderMultiset(cmp, s[1..], e);
      }
    }
  }

  // s cut in blocks of length w, each of them sorted.
  function Runs(cmp: Cmp, s: seq<Element>, w: nat): (r: seq<Element>)
    requires w > 0
    ensures |r| == |s|
    decreases |s|
  {
    if s == [] then []
    else InsertAll(cmp, s[..Min(w, |s|)]) + Runs(cmp, s[Min(w, |s|)..], w)
  }

  lemma {:induction false} RunsOfOne(cmp: Cmp, s: seq<Element>)
    ensures Runs(cmp, s, 1) == s
    decreases |s|
  {
    if s != [] {
      RunsOfOne(cmp, s[1..]);
      assert InsertAll(cmp, s[..1]) == [s[0]] by {
        assert s[..1][..0] == [];
      }
    }
  }

  // A pass doubles the length of the sorted blocks.
  lemma {:induction false} PassDoublesRuns(cmp: Cmp, s: seq<Element>, w: nat)
    requires w > 0 && TotalPreorder(cmp, s)
    ensures Pass(cmp, Runs(cmp, s, w), w) == Runs(cmp, s, 2 * w)
    decreases |s|
  {
    if s != [] {
      var j := Min(2 * w, |s|);
      FirstPairMerges(cmp, s, w, j);
      assert forall x :: x in s[j..] ==> x in s;
      PassDoublesRuns(cmp, s[j..], w);
    }
  }

  lemma FirstPairMerges(cmp: Cmp, s: seq<Element>, w: nat, j: nat)
    requires w > 0 && TotalPreorder(cmp, s) && s != [] && j == Min(2 * w, |s|)
    ensures Pass(cmp, Runs(cmp, s, w), w) == InsertAll(cmp, s[..j]) + Pass(cmp, Runs(cmp, s[j..], w), w)
  {
    var i := Min(w, |s|);
    var left, right, rest := InsertAll(cmp, s[..i]), InsertAll(cmp, s[i..j]), Runs(cmp, s[j..], w);
    assert Runs(cmp, s, w) == left + right + rest by {
      RunsUnfold(cmp, s, w, i, j);
    }
    PassOfParts(cmp, left, right, rest, w);
    PairMerges(cmp, s, i, j);
  }

  lemma PairMerges(cmp: Cmp, s: seq<Element>, i: nat, j: nat)
    requires TotalPreorder(cmp, s) && i <= j <= |s|
    ensures Merge(cmp, InsertAll(cmp, s[..i]), InsertAll(cmp, s[i..j])) == InsertAll(cmp, s[..j])
  {
    assert (forall x :: x in s[..i] ==> x in s) && (forall x :: x in s[i..j] ==> x in s);
    MergeOfRuns(cmp, s, s[..i], s[i..j]);
    assert s[..i] + s[i..j] == s[..j];
  }

  lemma RunsStep(cmp: Cmp, s: seq<Element>, w: nat, i: nat)
    requires w > 0 && i == Min(w, |s|)
    ensures Runs(cmp, s, w) == InsertAll(cmp, s[..i]) + Runs(cmp, s[i..], w)
  {
  }

  lemma RunsUnfold(cmp: Cmp, s: seq<Element>, w: nat, i: nat, j: nat)
    requires w > 0 && i == Min(w, |s|) && j == Min(2 * w, |s|)
    ensures Runs(cmp, s, w) == InsertAll(cmp, s[..i]) + InsertAll(cmp, s[i..j]) + Runs(cmp, s[j..], w)
  {
    hide Runs, InsertAll;
    RunsStep(cmp, s, w, i);
    RunsStep(cmp, s[i..], w, j - i);
    assert s[i..][..j - i] == s[i..j] && s[i..][j - i..] == s[j..];
    JoinThree(InsertAll(cmp, s[..i]), InsertAll(cmp, s[i..j]), Runs(cmp, s[j..], w));
  }

  lemma JoinThree<T>(a: seq<T>, b: seq<T>, c: seq<T>)
    ensures a + (b + c) == a + b + c
  {
  }

  lemma PassOfParts(cmp: Cmp, left: seq<Element>, right: seq<Element>, rest: seq<Element>, w: nat)
    requires w > 0 && left != [] && |left| <= w && |right| <= w
    requires (|left| < w ==> right == []) && (|right| < w ==> rest == [])
    ensures Pass(cmp, left + right + rest, w) == Merge(cmp, left, right) + Pass(cmp, rest, w)
  {
    var s := left + right + rest;
    var i, j := Min(w, |s|), Min(2 * w, |s|);
    assert s[..i] == left && s[i..j] == right && s[j..] == rest;
  }

  lemma {:induction false} SortFromRuns(cmp: Cmp, s: seq<Element>, w: nat)
    requires w > 0 && TotalPreorder(cmp, s)
    ensures SortFrom(cmp, Runs(cmp, s, w), w) == InsertAll(cmp, s)
    decreases if |s| > w then |s| - w else 0
  {
    PassDoublesRuns(cmp, s, w);
    if |s| <= 2 * w {
      assert s[..|s|] == s && s[|s|..] == [];
    } else {
      SortFromRuns(cmp, s, 2 * w);
    }
  }

  // HASH_SRT leaves the list that HASH_ADD_INORDER would have built.
  lemma SortIsInsertion(cmp: Cmp, s: seq<Element>)
    requires TotalPreorder(cmp, s)
    ensures MergeSort(cmp, s) == InsertAll(cmp, s)
  {
    RunsOfOne(cmp, s);
    SortFromRuns(cmp, s, 1);
  }

  // ------------------------------------------------- sorted, stable, a permutation

  lemma {:induction false} InsertKeepsOrder(cmp: Cmp, all: seq<Element>, s: seq<Element>, e: Element)
    requires TotalPreorder(cmp, all) && e in all && forall x :: x in s ==> x in all
    requires InOrder(cmp, s)
    ensures InOrder(cmp, InsertInOrder(cmp, s, e))
  {
    if s != [] {
      assert s[0] in all;
      HeadIsLeast(cmp, s);
      if cmp(s[0], e) > 0 {
        assert cmp(e, s[0]) <= 0;
        forall x | x in s ensures cmp(e, x) <= 0 {
          assert x in all && (x == s[0] || x in s[1..]);
        }
        ConsInOrder(cmp, e, s);
      } else {
        var t := InsertInOrder(cmp, s[1..], e);
        InsertKeepsOrder(cmp, all, s[1..], e);
        InsertInOrderMultiset(cmp, s[1..], e);
        forall x | x in t ensures cmp(s[0], x) <= 0 {
          assert x in multiset(t);
          assert x in s[1..] || x == e;
        }
        ConsInOrder(cmp, s[0], t);
      }
    } else {
      ConsInOrder(cmp, e, []);
    }
  }

  lemma HeadIsLeast(cmp: Cmp, s: seq<Element>)
    requires InOrder(cmp, s) && s != []
    ensures forall x :: x in s[1..] ==> cmp(s[0], x) <= 0
    ensures InOrder(cmp, s[1..])
  {
    forall x | x in s[1..] ensures cmp(s[0], x) <= 0 {
      var k :| 0 <= k < |s| - 1 && s[1..][k] == x;
      assert s[k + 1] == x;
    }
  }

  lemma ConsInOrder(cmp: Cmp, h: Element, t: seq<Element>)
    requires InOrder(cmp, t) && forall x :: x in t ==> cmp(h, x) <= 0
    ensures InOrder(cmp, [h] + t)
  {
    var r := [h] + t;
    forall i, j | 0 <= i < j < |r| ensures cmp(r[i], r[j]) <= 0 {
      assert r[j] == t[j - 1];
      assert i > 0 ==> r[i] == t[i - 1];
    }
  }

  lemma {:induction false} InsertIsStable(cmp: Cmp, all: seq<Element>, s: seq<Element>, e: Element, x: Element)
    requires TotalPreorder(cmp, all) && e in all && x in all && forall y :: y in s ==> y in all
    requires InOrder(cmp, s)
    ensures Ties(cmp, InsertInOrder(cmp, s, e), x) == Ties(cmp, s, x) + if Tied(cmp, e, x) then [e] else []
  {
    if s != [] {
      assert s[0] in all;
      if cmp(s[0], e) > 0 {
        assert ([e] + s)[1..] == s;
        if Tied(cmp, e, x) {
          NoTiesAfter(cmp, all, s, e, x);
        }
      } else {
        InsertIsStable(cmp, all, s[1..], e, x);
        var r := InsertInOrder(cmp, s, e);
        assert r[0] == s[0] && r[1..] == InsertInOrder(cmp, s[1..], e);
      }
    }
  }

  // Nothing in an ordered list that starts above e ties with e's equals.
  lemma {:induction false} NoTiesAfter(cmp: Cmp, all: seq<Element>, s: seq<Element>, e: Element, x: Element)
    requires TotalPreorder(cmp, all) && e in all && x in all && forall y :: y in s ==> y in all
    requires Tied(cmp, e, x) && InOrder(cmp, s) && (s != [] ==> cmp(s[0], e) > 0)
    ensures Ties(cmp, s, x) == []
  {
    if s != [] {
      assert s[0] in all && AtMost(cmp, x, e);
      assert !AtMost(cmp, s[0], x);
      if |s| > 1 {
        assert s[1] in all && cmp(s[0], s[1]) <= 0;
        assert s[1..][0] == s[1];
      }
      NoTiesAfter(cmp, all, s[1..], e, x);
    }
  }

  lemma {:induction false} InsertAllIsOrdered(cmp: Cmp, all: seq<Element>, s: seq<Element>)
    requires TotalPreorder(cmp, all) && forall y :: y in s ==> y in all
    ensures InOrder(cmp, InsertAll(cmp, s))
  {
    if s != [] {
      var front, e := s[..|s| - 1], s[|s| - 1];
      assert (forall x :: x in front ==> x in s) && e in s;
      InsertAllIsOrdered(cmp, all, front);
      InsertAllWithin(cmp, front, all);
      InsertKeepsOrder(cmp, all, InsertAll(cmp, front), e);
    }
  }

  lemma {:induction false} InsertAllIsStable(cmp: Cmp, all: seq<Element>, s: seq<Element>, x: Element)
    requires TotalPreorder(cmp, all) && x in all && forall y :: y in s ==> y in all
    ensures Ties(cmp, InsertAll(cmp, s), x) == Ties(cmp, s, x)
  {
    if s != [] {
      var front, e := s[..|s| - 1], s[|s| - 1];
      assert (forall y :: y in front ==> y in s) && e in s;
      InsertAllIsStable(cmp, all, front, x);
      var r := InsertAll(cmp, front);
      assert Ties(cmp, InsertAll(cmp, s), x) == Ties(cmp, r, x) + if Tied(cmp, e, x) then [e] else [] by {
        InsertAllWithin(cmp, front, all);
        InsertAllIsOrdered(cmp, all, front);
        InsertIsStable(cmp, all, r, e, x);
      }
      TiesSnoc(cmp, front, e, x);
      assert s == front + [e];
    }
  }

  lemma {:induction false} TiesSnoc(cmp: Cmp, s: seq<Element>, e: Element, x: Element)
    ensures Ties(cmp, s + [e], x) == Ties(cmp, s, x) + if Tied(cmp, e, x) then [e] else []
  {
    if s == [] {
      assert s + [e] == [e];
    } else {
      TiesSnoc(cmp, s[1..], e, x);
      assert (s + [e])[1..] == s[1..] + [e];
    }
  }

  // HASH_SRT: ordered, a permutation, and elements that compare equal keep their order.
  lemma SortIsStableSort(cmp: Cmp, s: seq<Element>)
    requires TotalPreorder(cmp, s)
    ensures InOrder(cmp, MergeSort(cmp, s))
    ensures multiset(MergeSort(cmp, s)) == multiset(s)
    ensures forall x :: x in s ==> Ties(cmp, MergeSort(cmp, s), x) == Ties(cmp, s, x)
  {
    SortIsInsertion(cmp, s);
    InsertAllMultiset(cmp, s);
    forall x | x in s ensures Ties(cmp, InsertAll(cmp, s), x) == Ties(cmp, s, x) {
      InsertAllIsStable(cmp, s, s, x);
    }
    InsertAllIsOrdered(cmp, s, s);
  }
}
