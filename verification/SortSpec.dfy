// What HASH_SRT computes: a bottom-up merge sort of the insertion order.
module SortSpec {
  import opened Bits
  import opened Handles
  import opened HashState

  function Merge(cmp: Cmp, p: seq<Element>, q: seq<Element>): (r: seq<Element>)
    ensures |r| == |p| + |q|
    decreases |p| + |q|
  {
    if p == [] then q
    else if q == [] then p
    else if cmp(p[0], q[0]) <= 0 then [p[0]] + Merge(cmp, p[1..], q)
    else [q[0]] + Merge(cmp, p, q[1..])
  }

  // One pass: adjacent runs of length w are merged in pairs.
  function Pass(cmp: Cmp, s: seq<Element>, w: nat): (r: seq<Element>)
    requires w > 0
    ensures |r| == |s|
    decreases |s|
  {
    if s == [] then []
    else
      var i := Min(w, |s|);
      var j := Min(2 * w, |s|);
      Merge(cmp, s[..i], s[i..j]) + Pass(cmp, s[j..], w)
  }

  // Passes with runs of length w, 2w, 4w, ... until one pass makes a single merge.
  function SortFrom(cmp: Cmp, s: seq<Element>, w: nat): (r: seq<Element>)
    requires w > 0
    ensures |r| == |s|
    decreases if |s| > w then |s| - w else 0
  {
    if |s| <= 2 * w then Pass(cmp, s, w) else SortFrom(cmp, Pass(cmp, s, w), 2 * w)
  }

  function MergeSort(cmp: Cmp, s: seq<Element>): (r: seq<Element>)
    ensures |r| == |s|
  {
    SortFrom(cmp, s, 1)
  }

  // HASH_SRT
  function Sorted(st: State, cmp: Cmp): (r: State)
    ensures Shape(st) ==> Shape(r)
  {
    st.(order := MergeSort(cmp, st.order))
  }
}
