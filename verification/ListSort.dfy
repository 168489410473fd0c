/**
 The sorts of components/osal/ulist.h: `LL_SORT2`, `DL_SORT2` and `CDL_SORT2`
 (lines 111-309), relinking the nodes of a list in place.

 The three macros share their text. They differ in where a list ends (a null `next`, or the
 old head while a ring is being rewritten), in whether `prev` is written, and in how the new
 list is closed after a pass; here the kind of list, a `Shape`, decides.
 */
module ListSort {
  import opened ListShapes
  import opened MergeSortSpec

  // ----- one pass -----

  /** `x->next`, with the end of the list read as null. */
  method Next(x: Node, stop: Node?) returns (r: Node?)
    ensures r == if x.next == stop then null else x.next
  {
    r := x.next;
    if r == stop {
      r := null;
    }
  }

  ghost function NodeAt(s: seq<Node>, i: nat): Node? {
    if i < |s| then s[i] else null
  }

  /** `stop` ends the list: it is not met before the last node. */
  ghost predicate Ends(s: seq<Node>, stop: Node?) {
    forall i | 0 < i < |s| :: s[i] != stop
  }

  /** The loop that finds where the second run starts. */
  method SecondRun(p: Node, insize: nat, stop: Node?, ghost s: seq<Node>, ghost a: nat) returns (q: Node?, psize: nat)
    requires insize > 0 && a < |s| && p == s[a] && Ends(s, stop) && Linked(s, a, |s|, stop)
    ensures psize == Min(insize, |s| - a) && q == NodeAt(s, a + psize)
  {
    q := p;
    psize := 0;
    var i := 0;
    while i < insize
      invariant i == psize <= insize && a + psize < |s| && q == s[a + psize]
    {
      psize := psize + 1;
      q := Next(q, stop);
      if q == null {
        break;
      }
      i := i + 1;
    }
  }

  // ----- merging two runs -----

  /** The part of the new list linked so far. */
  ghost predicate Built(out: seq<Node>, list: Node?, tail: Node?, prevs: bool)
    reads out
  {
    && Distinct(out) && Chained(out) && (prevs ==> Backed(out, null))
    && if out == [] then list == null && tail == null else list == out[0] && tail == out[|out| - 1]
  }

  /** `if (tail) tail->next = e; else list = e;` and, where there is one, `e->prev = tail`. */
  method Append(e: Node, list: Node?, tail: Node?, prevs: bool, ghost out: seq<Node>) returns (list': Node?)
    requires Built(out, list, tail, prevs) && e !in out
    modifies (if tail == null then {} else {tail})`next, e`prev
    ensures Built(out + [e], list', e, prevs)
    ensures !prevs ==> e.prev == old(e.prev)
  {
    list' := list;
    assert forall i | 0 <= i < |out| :: out[i] in out && out[i] != e;
    if tail != null {
      tail.next := e;
    } else {
      list' := e;
    }
    if prevs {
      e.prev := tail;
    }
  }

  /** What is linked is none of the nodes still to come: `s[i..m]` and those from `s[j]` on. */
  ghost predicate Apart(out: seq<Node>, s: seq<Node>, i: nat, m: nat, j: nat) {
    forall x, y | 0 <= x < |out| && 0 <= y < |s| && (i <= y < m || j <= y) :: out[x] != s[y]
  }

  ghost predicate From(out: seq<Node>, s: seq<Node>) {
    forall x | 0 <= x < |out| :: out[x] in s
  }

  lemma TakeLeft(cmp: (Node, Node) -> int, s: seq<Node>, i: nat, m: nat, j: nat, e: nat, out: seq<Node>)
    requires i < m <= j <= e <= |s| && (j == e || cmp(s[i], s[j]) <= 0)
    ensures out + Merge(cmp, s[i..m], s[j..e]) == (out + [s[i]]) + Merge(cmp, s[i + 1..m], s[j..e])
    ensures MergeCalls(cmp, s[i..m], s[j..e]) == (if j < e then 1 else 0) + MergeCalls(cmp, s[i + 1..m], s[j..e])
  {
    assert s[i..m][1..] == s[i + 1..m] && s[i..m] == [s[i]] + s[i + 1..m];
  }

  lemma TakeRight(cmp: (Node, Node) -> int, s: seq<Node>, i: nat, m: nat, j: nat, e: nat, out: seq<Node>)
    requires i <= m <= j < e <= |s| && (i == m || cmp(s[i], s[j]) > 0)
    ensures out + Merge(cmp, s[i..m], s[j..e]) == (out + [s[j]]) + Merge(cmp, s[i..m], s[j + 1..e])
    ensures MergeCalls(cmp, s[i..m], s[j..e]) == (if i < m then 1 else 0) + MergeCalls(cmp, s[i..m], s[j + 1..e])
  {
    assert s[j..e][1..] == s[j + 1..e] && s[j..e] == [s[j]] + s[j + 1..e];
  }

  /** Between two steps: `out` is linked, the nodes still to come are linked as they were. */
  ghost predicate Mid(s: seq<Node>, i: nat, m: nat, j: nat, stop: Node?,
                      out: seq<Node>, list: Node?, tail: Node?, prevs: bool)
    reads s, out
  {
    && Distinct(s) && Ends(s, stop) && i <= m <= j <= |s|
    && Linked(s, i, m, stop) && Linked(s, j, |s|, stop)
    && Built(out, list, tail, prevs) && From(out, s) && Apart(out, s, i, m, j)
  }

  lemma BuiltFrom(s: seq<Node>, out: seq<Node>, list: Node?, tail: Node?, prevs: bool, x: Node, i: nat, m: nat, j: nat)
    requires Built(out, list, tail, prevs) && Apart(out, s, i, m, j)
    requires exists y :: 0 <= y < |s| && (i <= y < m || j <= y) && s[y] == x
    ensures (tail != null ==> tail in out) && x !in out
  {
  }

  method Emit(x: Node, list: Node?, tail: Node?, stop: Node?, prevs: bool,
              ghost s: seq<Node>, ghost i: nat, ghost m: nat, ghost j: nat, ghost out: seq<Node>, ghost left: bool)
    returns (list': Node?)
    requires Mid(s, i, m, j, stop, out, list, tail, prevs)
    requires if left then i < m && x == s[i] else j < |s| && x == s[j]
    modifies (if tail == null then {} else {tail})`next, x`prev
    ensures Mid(s, if left then i + 1 else i, m, if left then j else j + 1, stop, out + [x], list', x, prevs)
    ensures !prevs ==> x.prev == old(x.prev)
  {
    hide Built, Distinct, Ends, From;
    ghost var i', j' := if left then i + 1 else i, if left then j else j + 1;
    BuiltFrom(s, out, list, tail, prevs, x, i, m, j);
    TailApart(s, i, m, j, out, tail);
    StillApart(s, i, m, j, i', j', out, x);
    list' := Append(x, list, tail, prevs, out);
  }

  lemma TailApart(s: seq<Node>, i: nat, m: nat, j: nat, out: seq<Node>, tail: Node?)
    requires Apart(out, s, i, m, j) && (tail != null ==> tail in out)
    ensures forall y | 0 <= y < |s| && (i <= y < m || j <= y) :: s[y] != tail
  {
    if tail != null {
      var x :| 0 <= x < |out| && out[x] == tail;
    }
  }

  lemma StillApart(s: seq<Node>, i: nat, m: nat, j: nat, i': nat, j': nat, out: seq<Node>, x: Node)
    requires i <= i' <= m <= j <= j' <= |s| && Apart(out, s, i, m, j) && Distinct(s) && From(out, s)
    requires (i < m && i' == i + 1 && j' == j && x == s[i]) || (i' == i && j' == j + 1 && x == s[j])
    ensures Apart(out + [x], s, i', m, j') && From(out + [x], s)
  {
  }

  /** Where the two runs that start at `a` end. */
  lemma RunEnds(a: nat, k: nat, n: nat)
    requires a < n && k > 0
    ensures var m, e := a + Min(k, n - a), Min(a + 2 * k, n);
      a < m <= e <= n && m - a <= k && e - m <= k && (e < n ==> e - m == k)
  {
  }

  lemma TakeOne(cmp: (Node, Node) -> int, s: seq<Node>, i: nat, m: nat, j: nat, e: nat, out: seq<Node>, left: bool)
    requires i <= m <= j <= e <= |s|
    requires if left then i < m && (j == e || cmp(s[i], s[j]) <= 0) else j < e && (i == m || cmp(s[i], s[j]) > 0)
    ensures var i', j' := if left then i + 1 else i, if left then j else j + 1; var x := if left then s[i] else s[j];
      && out + Merge(cmp, s[i..m], s[j..e]) == (out + [x]) + Merge(cmp, s[i'..m], s[j'..e])
      && MergeCalls(cmp, s[i..m], s[j..e]) == (if i < m && j < e then 1 else 0) + MergeCalls(cmp, s[i'..m], s[j'..e])
  {
    hide Merge, MergeCalls;
    if left {
      TakeLeft(cmp, s, i, m, j, e, out);
    } else {
      TakeRight(cmp, s, i, m, j, e, out);
    }
  }

  /** Which run the next node comes from: the other one if one is used up, otherwise `cmp` decides. */
  method TakesLeft(cmp: (Node, Node) -> int, p: Node?, q: Node?, psize: nat, qsize: nat)
    returns (left: bool, ghost called: nat)
    requires psize > 0 ==> p != null
    requires psize > 0 || (qsize > 0 && q != null)
    ensures left ==> psize > 0 && (qsize == 0 || q == null || cmp(p, q) <= 0)
    ensures !left ==> qsize > 0 && q != null && (psize == 0 || cmp(p, q) > 0)
    ensures called == if psize > 0 && qsize > 0 && q != null then 1 else 0
  {
    called := 0;
    if psize == 0 {
      left := false;
    } else if qsize == 0 || q == null {
      left := true;
    } else {
      left := cmp(p, q) <= 0;
      called := 1;
    }
  }

  /** One turn of the inner loop: the node that comes next is linked behind `tail`. */
  method MergeStep(cmp: (Node, Node) -> int, p: Node?, q: Node?, psize: nat, qsize: nat, list: Node?, tail: Node?,
                   stop: Node?, prevs: bool, ghost s: seq<Node>, ghost i: nat, ghost m: nat, ghost j: nat, ghost e: nat,
                   ghost out: seq<Node>)
    returns (left: bool, p': Node?, q': Node?, list': Node?, x: Node, ghost i': nat, ghost j': nat, ghost called: nat)
    requires i <= m <= j <= e <= |s| && psize == m - i && (qsize > 0 && q != null <==> j < e)
    requires q == NodeAt(s, j) && (i < m ==> p == s[i]) && (i < m || j < e)
    requires Mid(s, i, m, j, stop, out, list, tail, prevs)
    modifies s
    ensures if left then i' == i + 1 <= m && j' == j else i' == i && j' == j + 1 <= e
    ensures
      && q' == NodeAt(s, j') && (i' < m ==> p' == s[i'])
      && Mid(s, i', m, j', stop, out + [x], list', x, prevs)
      && out + Merge(cmp, s[i..m], s[j..e]) == (out + [x]) + Merge(cmp, s[i'..m], s[j'..e])
      && MergeCalls(cmp, s[i..m], s[j..e]) == called + MergeCalls(cmp, s[i'..m], s[j'..e])
    ensures !prevs ==> forall y | y in s :: y.prev == old(y.prev)
  {
    hide Mid, Merge, MergeCalls, NodeAt;
    AtEnd(s, j);
    AtEnd(s, i + 1);
    left, called := TakesLeft(cmp, p, q, psize, qsize);
    x := if left then p else q;
    MidNext(s, i, m, j, stop, out, list, tail, prevs);
    TakeOne(cmp, s, i, m, j, e, out, left);
    p', q' := p, q;
    if left {
      p' := Next(p, stop);
    } else {
      q' := Next(q, stop);
    }
    list' := Emit(x, list, tail, stop, prevs, s, i, m, j, out, left);
    i', j' := if left then i + 1 else i, if left then j else j + 1;
  }

  /** The inner loop: the runs `s[a..m]` at `p` and `s[m..e]` at `q` are merged behind `out`. */
  method MergeRuns(cmp: (Node, Node) -> int, p0: Node, q0: Node?, psize0: nat, insize: nat, list0: Node?, tail0: Node?,
                   stop: Node?, prevs: bool, ghost s: seq<Node>, ghost a: nat, ghost out0: seq<Node>)
    returns (list: Node?, tail: Node?, q: Node?, ghost out: seq<Node>, ghost calls: nat)
    requires a < |s| && p0 == s[a] && psize0 == Min(insize, |s| - a) && insize > 0 && q0 == NodeAt(s, a + psize0)
    requires Mid(s, a, a, a, stop, out0, list0, tail0, prevs)
    modifies s
    ensures var m, e := a + psize0, Min(a + 2 * insize, |s|);
      && out == out0 + Merge(cmp, s[a..m], s[m..e]) && calls == MergeCalls(cmp, s[a..m], s[m..e])
      && q == NodeAt(s, e) && Mid(s, e, e, e, stop, out, list, tail, prevs)
    ensures !prevs ==> forall x | x in s :: x.prev == old(x.prev)
  {
    hide Mid, Merge, MergeCalls, NodeAt, Min;
    ghost var m, e := a + psize0, Min(a + 2 * insize, |s|);
    RunEnds(a, insize, |s|);
    MidStart(s, a, m, stop, out0, list0, tail0, prevs);
    var p: Node?, psize, qsize := p0, psize0, insize;
    list, tail, q := list0, tail0, q0;
    ghost var i, j := a, m;
    out, calls := out0, 0;
    AtEnd(s, j);
    while psize > 0 || (qsize > 0 && q != null)
      invariant a <= i <= m <= j <= e && psize == m - i && qsize == insize - (j - m)
      invariant q == NodeAt(s, j) && (q == null <==> j >= |s|) && (i < m ==> p == s[i])
      invariant Mid(s, i, m, j, stop, out, list, tail, prevs)
      invariant out + Merge(cmp, s[i..m], s[j..e]) == out0 + Merge(cmp, s[a..m], s[m..e])
      invariant calls + MergeCalls(cmp, s[i..m], s[j..e]) == MergeCalls(cmp, s[a..m], s[m..e])
      invariant !prevs ==> forall x | x in s :: x.prev == old(x.prev)
      decreases psize + qsize
    {
      var left, x;
      ghost var called;
      left, p, q, list, x, i, j, called :=
        MergeStep(cmp, p, q, psize, qsize, list, tail, stop, prevs, s, i, m, j, e, out);
      psize, qsize := if left then psize - 1 else psize, if left then qsize else qsize - 1;
      AtEnd(s, j);
      tail, calls := x, calls + called;
      out := out + [x];
    }
    assert i == m && j == e && s[m..m] == [] && s[e..e] == [] && out + [] == out;
    NothingToMerge(cmp);
    MidEnd(s, m, e, stop, out, list, tail, prevs);
  }

  lemma MidNext(s: seq<Node>, i: nat, m: nat, j: nat, stop: Node?, out: seq<Node>, list: Node?, tail: Node?,
                prevs: bool)
    requires Mid(s, i, m, j, stop, out, list, tail, prevs)
    ensures i <= m <= j <= |s| && (tail != null ==> tail in s)
    ensures i < m ==> (if s[i].next == stop then null else s[i].next) == NodeAt(s, i + 1)
    ensures j < |s| ==> (if s[j].next == stop then null else s[j].next) == NodeAt(s, j + 1)
  {
  }

  lemma MidStart(s: seq<Node>, a: nat, m: nat, stop: Node?, out: seq<Node>, list: Node?, tail: Node?, prevs: bool)
    requires Mid(s, a, a, a, stop, out, list, tail, prevs) && a <= m <= |s|
    ensures Mid(s, a, m, m, stop, out, list, tail, prevs)
  {
  }

  lemma MidEnd(s: seq<Node>, m: nat, e: nat, stop: Node?, out: seq<Node>, list: Node?, tail: Node?, prevs: bool)
    requires Mid(s, m, m, e, stop, out, list, tail, prevs)
    ensures Mid(s, e, e, e, stop, out, list, tail, prevs)
  {
  }

  lemma NothingToMerge(cmp: (Node, Node) -> int)
    ensures Merge(cmp, [], []) == [] && MergeCalls(cmp, [], []) == 0
  {
  }

  lemma PassStep(cmp: (Node, Node) -> int, s: seq<Node>, a: nat, k: nat, out: seq<Node>)
    requires k > 0 && a < |s|
    ensures var m, e := a + Min(k, |s| - a), Min(a + 2 * k, |s|);
      && m <= e
      && out + Pass(cmp, s[a..], k) == out + Merge(cmp, s[a..m], s[m..e]) + Pass(cmp, s[e..], k)
      && PassCalls(cmp, s[a..], k) == MergeCalls(cmp, s[a..m], s[m..e]) + PassCalls(cmp, s[e..], k)
      && Merges(|s| - a, k) == 1 + Merges(|s| - e, k)
      && a < e <= |s|
  {
    hide Pass, PassCalls, Merge, MergeCalls, Merges;
    var m, e := a + Min(k, |s| - a), Min(a + 2 * k, |s|);
    var r := s[a..];
    assert r[..m - a] == s[a..m] && r[m - a..e - a] == s[m..e] && r[e - a..] == s[e..];
    PassUnfolds(cmp, r, k);
    assert out + (Merge(cmp, s[a..m], s[m..e]) + Pass(cmp, s[e..], k))
        == out + Merge(cmp, s[a..m], s[m..e]) + Pass(cmp, s[e..], k);
  }

  lemma PassUnfolds(cmp: (Node, Node) -> int, r: seq<Node>, k: nat)
    requires k > 0 && r != []
    ensures var m, e := Min(k, |r|), Min(2 * k, |r|);
      && Pass(cmp, r, k) == Merge(cmp, r[..m], r[m..e]) + Pass(cmp, r[e..], k)
      && PassCalls(cmp, r, k) == MergeCalls(cmp, r[..m], r[m..e]) + PassCalls(cmp, r[e..], k)
      && Merges(|r|, k) == 1 + Merges(|r| - e, k)
  {
  }

  lemma PassOver(cmp: (Node, Node) -> int, s: seq<Node>, k: nat, out: seq<Node>)
    requires k > 0
    ensures s[0..] == s && [] + Pass(cmp, s, k) == Pass(cmp, s, k)
    ensures out + Pass(cmp, s[|s|..], k) == out && PassCalls(cmp, s[|s|..], k) == 0 && Merges(0, k) == 0
  {
  }

  /** One pass: neighbouring runs of size `insize` are merged until the list is used up. */
  method SortPass(cmp: (Node, Node) -> int, list0: Node, insize: nat, stop: Node?, prevs: bool, ghost s: seq<Node>)
    returns (list: Node, tail: Node, nmerges: nat, ghost calls: nat)
    requires insize > 0 && s != [] && list0 == s[0]
    requires Distinct(s) && Ends(s, stop) && Linked(s, 0, |s|, stop)
    modifies s
    ensures Built(Pass(cmp, s, insize), list, tail, prevs)
    ensures nmerges == Merges(|s|, insize) && calls == PassCalls(cmp, s, insize)
    ensures !prevs ==> forall x | x in s :: x.prev == old(x.prev)
  {
    hide Mid, Pass, PassCalls, Merges, Merge, MergeCalls, Ends, Distinct, Linked, Built, NodeAt, Min;
    var p: Node?, first: Node?, last: Node? := list0, null, null;
    ghost var a, out: seq<Node> := 0, [];
    nmerges, calls := 0, 0;
    PassOver(cmp, s, insize, []);
    Untouched(s, stop, prevs);
    AtEnd(s, 0);
    while p != null
      invariant a <= |s| && p == NodeAt(s, a) && Mid(s, a, a, a, stop, out, first, last, prevs)
      invariant out + Pass(cmp, s[a..], insize) == Pass(cmp, s, insize)
      invariant calls + PassCalls(cmp, s[a..], insize) == PassCalls(cmp, s, insize)
      invariant nmerges + Merges(|s| - a, insize) == Merges(|s|, insize)
      invariant !prevs ==> forall x | x in s :: x.prev == old(x.prev)
      decreases |s| - a
    {
      nmerges := nmerges + 1;
      AtEnd(s, a);
      PassStep(cmp, s, a, insize, out);
      MidUnpacked(s, a, stop, out, first, last, prevs);
      var q, psize := SecondRun(p, insize, stop, s, a);
      ghost var mergeCalls;
      first, last, q, out, mergeCalls := MergeRuns(cmp, p, q, psize, insize, first, last, stop, prevs, s, a, out);
      calls := calls + mergeCalls;
      p := q;
      a := Min(a + 2 * insize, |s|);
    }
    AtEnd(s, a);
    PassOver(cmp, s, insize, out);
    MidUnpacked(s, a, stop, out, first, last, prevs);
    BuiltEnds(out, first, last, prevs);
    list, tail := first, last;
  }

  lemma AtEnd(s: seq<Node>, a: nat)
    ensures a < |s| ==> NodeAt(s, a) == s[a]
    ensures NodeAt(s, a) == null <==> a >= |s|
  {
  }

  lemma BuiltEnds(out: seq<Node>, list: Node?, tail: Node?, prevs: bool)
    requires Built(out, list, tail, prevs) && out != []
    ensures list != null && tail != null
  {
  }

  lemma Untouched(s: seq<Node>, stop: Node?, prevs: bool)
    requires Distinct(s) && Ends(s, stop) && Linked(s, 0, |s|, stop)
    ensures Mid(s, 0, 0, 0, stop, [], null, null, prevs)
  {
  }

  lemma MidUnpacked(s: seq<Node>, a: nat, stop: Node?, out: seq<Node>, list: Node?, tail: Node?, prevs: bool)
    requires Mid(s, a, a, a, stop, out, list, tail, prevs)
    ensures Ends(s, stop) && Linked(s, a, |s|, stop) && Built(out, list, tail, prevs)
  {
  }

  // ----- the sorts -----

  lemma FirstPass()
    ensures Pow2(0) == 1
  {
  }

  lemma SortStep(cmp: (Node, Node) -> int, s: seq<Node>, k: nat, passes: nat, all: seq<Node>)
    requires k > 0 && s != [] && k == Pow2(passes) && Among(s, all)
    ensures Pass(cmp, s, k) != [] && |Pass(cmp, s, k)| == |s| && Among(Pass(cmp, s, k), all)
    ensures 2 * k == Pow2(passes + 1)
    ensures if Merges(|s|, k) <= 1
            then SortFrom(cmp, s, k) == Pass(cmp, s, k) &&
                 SortCalls(cmp, s, k) == PassCalls(cmp, s, k) && Passes(|s|, k) == 1
            else SortFrom(cmp, s, k) == SortFrom(cmp, Pass(cmp, s, k), 2 * k) && 2 * k < |s| &&
                 SortCalls(cmp, s, k) == PassCalls(cmp, s, k) + SortCalls(cmp, Pass(cmp, s, k), 2 * k) &&
                 Passes(|s|, k) == 1 + Passes(|s|, 2 * k)
  {
    FewMerges(|s|, k);
    PassPermutes(cmp, s, k);
    SameElements(s, Pass(cmp, s, k));
  }

  lemma Ready(shape: Shape, list: Node, s: seq<Node>)
    requires Is(shape, list, s)
    ensures s != [] && list == s[0] && Distinct(s)
    ensures var stop := if shape.CDL? then list else null; Ends(s, stop) && Linked(s, 0, |s|, stop)
  {
  }

  lemma BuiltTail(t: seq<Node>, list: Node, tail: Node, prevs: bool)
    requires Built(t, list, tail, prevs)
    ensures t != [] && tail == t[|t| - 1] && list == t[0]
  {
  }

  lemma TwoEnds(t: seq<Node>)
    requires Distinct(t) && t != []
    ensures forall i | 0 <= i < |t| :: (t[i] == t[0] <==> i == 0) && (t[i] == t[|t| - 1] <==> i == |t| - 1)
  {
  }

  /** What follows a pass: the tail points to nothing, or to the head of a ring, and where there is `prev` the
      head's is the tail. */
  method Close(shape: Shape, list: Node, tail: Node, ghost t: seq<Node>)
    requires Built(t, list, tail, !shape.LL?)
    modifies (if shape.LL? then {} else {list})`prev, tail`next
    ensures Is(shape, list, t)
    ensures shape.LL? ==> forall x | x in t :: x.prev == old(x.prev)
  {
    TwoEnds(t);
    if !shape.LL? {
      list.prev := tail;
    }
    if shape.CDL? {
      tail.next := list;
    } else {
      tail.next := null;
    }
  }

  method PassOf(shape: Shape, cmp: (Node, Node) -> int, list0: Node, insize: nat, ghost s: seq<Node>)
    returns (list: Node, nmerges: nat, ghost calls: nat)
    requires insize > 0 && s != [] && Is(shape, list0, s)
    modifies s
    ensures Is(shape, list, Pass(cmp, s, insize))
    ensures nmerges == Merges(|s|, insize) && calls == PassCalls(cmp, s, insize)
    ensures shape.LL? ==> forall x | x in s :: x.prev == old(x.prev)
  {
    hide Pass, PassCalls, Merges, Built, Distinct, Is;
    var tail;
    var stop: Node? := null;
    if shape.CDL? {
      stop := list0;
    }
    ghost var t := Pass(cmp, s, insize);
    Ready(shape, list0, s);
    PassPermutes(cmp, s, insize);
    SameElements(s, t);
    list, tail, nmerges, calls := SortPass(cmp, list0, insize, stop, !shape.LL?, s);
    BuiltTail(t, list, tail, !shape.LL?);
    Close(shape, list, tail, t);
  }

  /** The loop the three macros share: passes with doubling run size, until one needs at most one merge. */
  method SortOf(shape: Shape, cmp: (Node, Node) -> int, list0: Node?, ghost s: seq<Node>)
    returns (list: Node?, ghost calls: nat, ghost passes: nat)
    requires Is(shape, list0, s)
    modifies s
    ensures Is(shape, list, Sort(cmp, s))
    ensures s != [] ==> calls == SortCalls(cmp, s, 1) && passes == Passes(|s|, 1)
    ensures shape.LL? ==> forall x | x in s :: x.prev == old(x.prev)
  {
    hide Pass, PassCalls, Passes, Pow2, Merges, SortFrom, SortCalls, Is;
    FirstPass();
    HeadOfList(shape, list0, s);
    list, calls, passes := list0, 0, 0;
    if list != null {
      var insize: nat, looping := 1, true;
      ghost var cur := s;
      while looping
        invariant insize > 0 && cur != [] && |cur| == |s| && Is(shape, list, cur) && list != null && Among(cur, s)
        invariant insize == Pow2(passes) && passes + (if looping then Passes(|s|, insize) else 0) == Passes(|s|, 1)
        invariant if looping then SortFrom(cmp, cur, insize) == Sort(cmp, s) && (insize == 1 || insize < |s|)
                  else cur == Sort(cmp, s)
        invariant calls + (if looping then SortCalls(cmp, cur, insize) else 0) == SortCalls(cmp, s, 1)
        invariant shape.LL? ==> forall x | x in s :: x.prev == old(x.prev)
        decreases if looping then 1 else 0, |s| - insize
      {
        SortStep(cmp, cur, insize, passes, s);
        var head, nmerges;
        ghost var passCalls;
        head, nmerges, passCalls := PassOf(shape, cmp, list, insize, cur);
        cur := Pass(cmp, cur, insize);
        list := head;
        calls, passes := calls + passCalls, passes + 1;
        if nmerges <= 1 {
          looping := false;
        }
        insize := insize * 2;
      }
    }
  }

  lemma HeadOfList(shape: Shape, list: Node?, s: seq<Node>)
    requires Is(shape, list, s)
    ensures list == null <==> s == []
  {
  }

  /** LL_SORT2: the nodes of a singly linked list end up in sorted order; `prev` is not touched. */
  method SortLL(cmp: (Node, Node) -> int, list0: Node?, ghost s: seq<Node>)
    returns (list: Node?, ghost calls: nat, ghost passes: nat)
    requires IsLL(list0, s)
    modifies s
    ensures IsLL(list, Sort(cmp, s))
    ensures s != [] ==> calls == SortCalls(cmp, s, 1) && passes == Passes(|s|, 1)
    ensures forall x | x in s :: x.prev == old(x.prev)
  {
    list, calls, passes := SortOf(LL, cmp, list0, s);
  }

  /** DL_SORT2: a doubly linked list is sorted, with `prev` mirroring `next` and the head's `prev` the tail. */
  method SortDL(cmp: (Node, Node) -> int, list0: Node?, ghost s: seq<Node>)
    returns (list: Node?, ghost calls: nat, ghost passes: nat)
    requires IsDL(list0, s)
    modifies s
    ensures IsDL(list, Sort(cmp, s))
    ensures s != [] ==> calls == SortCalls(cmp, s, 1) && passes == Passes(|s|, 1)
  {
    list, calls, passes := SortOf(DL, cmp, list0, s);
  }

  /** CDL_SORT2: a ring is sorted and closed again in both directions. */
  method SortCDL(cmp: (Node, Node) -> int, list0: Node?, ghost s: seq<Node>)
    returns (list: Node?, ghost calls: nat, ghost passes: nat)
    requires IsCDL(list0, s)
    modifies s
    ensures IsCDL(list, Sort(cmp, s))
    ensures s != [] ==> calls == SortCalls(cmp, s, 1) && passes == Passes(|s|, 1)
  {
    list, calls, passes := SortOf(CDL, cmp, list0, s);
  }
}
