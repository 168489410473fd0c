/**
 What the bottom-up merge sort of components/osal/ulist.h computes, on sequences: the
 merge of two runs, one pass over the list, and the passes with doubling run size.
 */
module MergeSortSpec {
  /** A three-way comparison that orders the elements of `s` (ties allowed). */
  ghost predicate Orders<E>(cmp: (E, E) -> int, s: seq<E>) {
    && (forall x, y | x in s && y in s :: cmp(x, y) <= 0 <==> cmp(y, x) >= 0)
    && (forall x, y, z | x in s && y in s && z in s :: cmp(x, y) <= 0 && cmp(y, z) <= 0 ==> cmp(x, z) <= 0)
  }

  ghost predicate Sorted<E>(cmp: (E, E) -> int, s: seq<E>) {
    forall i, j | 0 <= i < j < |s| :: cmp(s[i], s[j]) <= 0
  }

  /** The elements of `s` that compare equal to `x`, in their order in `s`. */
  ghost function Alike<E>(cmp: (E, E) -> int, x: E, s: seq<E>): seq<E> {
    if s == [] then []
    else (if cmp(x, s[0]) <= 0 && cmp(s[0], x) <= 0 then [s[0]] else []) + Alike(cmp, x, s[1..])
  }

  /** `t` is `s` sorted, with equal elements in the order they had. */
  ghost predicate StablySorted<E>(cmp: (E, E) -> int, s: seq<E>, t: seq<E>) {
    && multiset(t) == multiset(s)
    && Sorted(cmp, t)
    && forall x | x in s :: Alike(cmp, x, t) == Alike(cmp, x, s)
  }

  // ----- the algorithm -----

  function Merge<E>(cmp: (E, E) -> int, a: seq<E>, b: seq<E>): (r: seq<E>)
    ensures |r| == |a| + |b|
  {
    if a == [] then b
    else if b == [] then a
    else if cmp(a[0], b[0]) <= 0 then [a[0]] + Merge(cmp, a[1..], b)
    else [b[0]] + Merge(cmp, a, b[1..])
  }

  /** Calls of `cmp` in one merge. */
  function MergeCalls<E>(cmp: (E, E) -> int, a: seq<E>, b: seq<E>): nat {
    if a == [] || b == [] then 0
    else if cmp(a[0], b[0]) <= 0 then 1 + MergeCalls(cmp, a[1..], b)
    else 1 + MergeCalls(cmp, a, b[1..])
  }

  function Min(a: nat, b: nat): nat {
    if a < b then a else b
  }

  /** Neighbouring runs of size `k` merged, from left to right. */
  function Pass<E>(cmp: (E, E) -> int, s: seq<E>, k: nat): (r: seq<E>)
    requires k > 0
    ensures |r| == |s|
    decreases |s|
  {
    if s == [] then []
    else
      var m, e := Min(k, |s|), Min(2 * k, |s|);
      Merge(cmp, s[..m], s[m..e]) + Pass(cmp, s[e..], k)
  }

  function PassCalls<E>(cmp: (E, E) -> int, s: seq<E>, k: nat): nat
    requires k > 0
    decreases |s|
  {
    if s == [] then 0
    else
      var m, e := Min(k, |s|), Min(2 * k, |s|);
      MergeCalls(cmp, s[..m], s[m..e]) + PassCalls(cmp, s[e..], k)
  }

  /** Merges in one pass. */
  function Merges(n: nat, k: nat): nat
    requires k > 0
  {
    if n == 0 then 0 else 1 + Merges(n - Min(2 * k, n), k)
  }

  /** Passes from run size `k` on: the one that needs at most one merge is the last. */
  function SortFrom<E>(cmp: (E, E) -> int, s: seq<E>, k: nat): seq<E>
    requires k > 0
    decreases |s| - k
  {
    if Merges(|s|, k) <= 1 then Pass(cmp, s, k)
    else
      assert |s| > k by { FewMerges(|s|, k); }
      SortFrom(cmp, Pass(cmp, s, k), 2 * k)
  }

  function Sort<E>(cmp: (E, E) -> int, s: seq<E>): seq<E> {
    if s == [] then [] else SortFrom(cmp, s, 1)
  }

  lemma FewMerges(n: nat, k: nat)
    requires k > 0
    ensures Merges(n, k) <= 1 <==> n <= 2 * k
  {
    if n > 2 * k {
      assert Merges(n - 2 * k, k) >= 1;
    }
  }

  // ----- permutation -----

  lemma InThree<E>(s: seq<E>, m: nat, e: nat)
    requires m <= e <= |s|
    ensures s == s[..m] + s[m..e] + s[e..]
  {
  }

  lemma SliceOfSlice<E>(s: seq<E>, m: nat, e: nat)
    requires m <= e <= |s|
    ensures s[m..][..e - m] == s[m..e] && s[m..][e - m..] == s[e..]
  {
  }

  lemma {:induction false} MergePermutes<E>(cmp: (E, E) -> int, a: seq<E>, b: seq<E>)
    ensures multiset(Merge(cmp, a, b)) == multiset(a) + multiset(b)
  {
    if a != [] && b != [] {
      assert a == [a[0]] + a[1..] && b == [b[0]] + b[1..];
      if cmp(a[0], b[0]) <= 0 {
        MergePermutes(cmp, a[1..], b);
      } else {
        MergePermutes(cmp, a, b[1..]);
      }
    }
  }

  lemma {:induction false} PassPermutes<E>(cmp: (E, E) -> int, s: seq<E>, k: nat)
    requires k > 0
    ensures multiset(Pass(cmp, s, k)) == multiset(s)
    decreases |s|
  {
    if s != [] {
      var m, e := Min(k, |s|), Min(2 * k, |s|);
      MergePermutes(cmp, s[..m], s[m..e]);
      PassPermutes(cmp, s[e..], k);
      InThree(s, m, e);
    }
  }

  ghost predicate Among<E>(t: seq<E>, s: seq<E>) {
    forall i | 0 <= i < |t| :: t[i] in s
  }

  lemma SameElements<E>(s: seq<E>, t: seq<E>)
    requires multiset(s) == multiset(t)
    ensures |s| == |t| && Among(s, t) && Among(t, s)
  {
    assert |multiset(s)| == |multiset(t)|;
    forall i | 0 <= i < |s| ensures s[i] in t && t[i] in s {
      assert s[i] in multiset(t) && t[i] in multiset(s);
    }
  }

  // ----- order and stability -----

  /** What precedes the head of a sorted sequence precedes all of it. */
  lemma HeadBelow<E>(cmp: (E, E) -> int, x: E, t: seq<E>, s: seq<E>)
    requires Orders(cmp, s) && x in s && Among(t, s) && Sorted(cmp, t) && t != [] && cmp(x, t[0]) <= 0
    ensures forall i | 0 <= i < |t| :: cmp(x, t[i]) <= 0
  {
    forall i | 0 <= i < |t| ensures cmp(x, t[i]) <= 0 {
      assert t[0] in s && t[i] in s;
    }
  }

  lemma HeadsCompare<E>(cmp: (E, E) -> int, x: E, y: E, s: seq<E>)
    requires Orders(cmp, s) && x in s && y in s
    ensures cmp(x, y) <= 0 || cmp(y, x) <= 0
    ensures cmp(x, x) <= 0
  {
  }

  lemma MergeBelow<E>(cmp: (E, E) -> int, x: E, a: seq<E>, b: seq<E>)
    requires forall i | 0 <= i < |a| :: cmp(x, a[i]) <= 0
    requires forall i | 0 <= i < |b| :: cmp(x, b[i]) <= 0
    ensures forall i | 0 <= i < |a| + |b| :: cmp(x, Merge(cmp, a, b)[i]) <= 0
  {
    var r := Merge(cmp, a, b);
    MergePermutes(cmp, a, b);
    forall i | 0 <= i < |r| ensures cmp(x, r[i]) <= 0 {
      assert r[i] in multiset(r);
      assert r[i] in a || r[i] in b;
    }
  }

  lemma {:induction false} MergeSorts<E>(cmp: (E, E) -> int, a: seq<E>, b: seq<E>, s: seq<E>)
    requires Orders(cmp, s) && Among(a, s) && Among(b, s) && Sorted(cmp, a) && Sorted(cmp, b)
    ensures Sorted(cmp, Merge(cmp, a, b))
  {
    hide Orders;
    if a != [] && b != [] {
      HeadsCompare(cmp, a[0], b[0], s);
      HeadsCompare(cmp, a[0], a[0], s);
      HeadsCompare(cmp, b[0], b[0], s);
      if cmp(a[0], b[0]) <= 0 {
        MergeSorts(cmp, a[1..], b, s);
        HeadBelow(cmp, a[0], a, s);
        HeadBelow(cmp, a[0], b, s);
        MergeBelow(cmp, a[0], a[1..], b);
        ConsSorted(cmp, a[0], Merge(cmp, a[1..], b));
      } else {
        MergeSorts(cmp, a, b[1..], s);
        HeadBelow(cmp, b[0], a, s);
        HeadBelow(cmp, b[0], b, s);
        MergeBelow(cmp, b[0], a, b[1..]);
        ConsSorted(cmp, b[0], Merge(cmp, a, b[1..]));
      }
    }
  }

  lemma ConsSorted<E>(cmp: (E, E) -> int, first: E, rest: seq<E>)
    requires Sorted(cmp, rest) && forall i | 0 <= i < |rest| :: cmp(first, rest[i]) <= 0
    ensures Sorted(cmp, [first] + rest)
  {
  }

  lemma {:induction false} AlikeConcat<E>(cmp: (E, E) -> int, x: E, a: seq<E>, b: seq<E>)
    ensures Alike(cmp, x, a + b) == Alike(cmp, x, a) + Alike(cmp, x, b)
  {
    if a == [] {
      assert a + b == b;
    } else {
      AlikeConcat(cmp, x, a[1..], b);
      assert a + b == [a[0]] + (a[1..] + b) && a == [a[0]] + a[1..];
      AlikeCons(cmp, x, a[0], a[1..] + b);
      AlikeCons(cmp, x, a[0], a[1..]);
      hide Alike;
    }
  }

  lemma {:induction false} NoneAlike<E>(cmp: (E, E) -> int, x: E, s: seq<E>)
    requires forall i | 0 <= i < |s| :: !(cmp(x, s[i]) <= 0 && cmp(s[i], x) <= 0)
    ensures Alike(cmp, x, s) == []
  {
    if s != [] {
      NoneAlike(cmp, x, s[1..]);
    }
  }

  /** Nothing in a sorted run is tied with what strictly precedes its head. */
  lemma RunAboveTies<E>(cmp: (E, E) -> int, x: E, y: E, a: seq<E>, s: seq<E>)
    requires Orders(cmp, s) && x in s && y in s && Among(a, s) && Sorted(cmp, a) && a != []
    requires cmp(a[0], y) > 0 && cmp(x, y) <= 0 && cmp(y, x) <= 0
    ensures Alike(cmp, x, a) == []
  {
    HeadsCompare(cmp, a[0], a[0], s);
    HeadBelow(cmp, a[0], a, s);
    assert a[0] in s && cmp(a[0], x) > 0;
    forall i | 0 <= i < |a| ensures !(cmp(x, a[i]) <= 0 && cmp(a[i], x) <= 0) {
      assert a[i] in s && a[0] in s && cmp(a[0], a[i]) <= 0;
    }
    NoneAlike(cmp, x, a);
  }

  lemma AlikeEmpty<E>(cmp: (E, E) -> int, x: E)
    ensures Alike(cmp, x, []) == []
  {
  }

  lemma AlikeHead<E>(cmp: (E, E) -> int, x: E, s: seq<E>)
    requires s != []
    ensures Alike(cmp, x, s) == (if cmp(x, s[0]) <= 0 && cmp(s[0], x) <= 0 then [s[0]] else []) + Alike(cmp, x, s[1..])
  {
  }

  lemma Assoc<E>(a: seq<E>, b: seq<E>, c: seq<E>)
    ensures a + (b + c) == a + b + c
  {
  }

  /** Ties go to the left run, so merging keeps equal elements in order. */
  lemma {:induction false} MergeStable<E>(cmp: (E, E) -> int, x: E, a: seq<E>, b: seq<E>, s: seq<E>)
    requires Orders(cmp, s) && x in s && Among(a, s) && Among(b, s) && Sorted(cmp, a)
    ensures Alike(cmp, x, Merge(cmp, a, b)) == Alike(cmp, x, a) + Alike(cmp, x, b)
  {
    hide Orders, Sorted, Alike;
    AlikeEmpty(cmp, x);
    if a != [] && b != [] {
      AlikeHead(cmp, x, a);
      AlikeHead(cmp, x, b);
      if cmp(a[0], b[0]) <= 0 {
        TailSorted(cmp, a);
        MergeStable(cmp, x, a[1..], b, s);
        AlikeCons(cmp, x, a[0], Merge(cmp, a[1..], b));
        Assoc(if cmp(x, a[0]) <= 0 && cmp(a[0], x) <= 0 then [a[0]] else [], Alike(cmp, x, a[1..]), Alike(cmp, x, b));
      } else {
        MergeStable(cmp, x, a, b[1..], s);
        AlikeCons(cmp, x, b[0], Merge(cmp, a, b[1..]));
        if cmp(x, b[0]) <= 0 && cmp(b[0], x) <= 0 {
          RunAboveTies(cmp, x, b[0], a, s);
        }
      }
    }
  }

  lemma TailSorted<E>(cmp: (E, E) -> int, a: seq<E>)
    requires a != [] && Sorted(cmp, a)
    ensures Sorted(cmp, a[1..])
  {
  }

  lemma AlikeCons<E>(cmp: (E, E) -> int, x: E, y: E, s: seq<E>)
    ensures Alike(cmp, x, [y] + s) == (if cmp(x, y) <= 0 && cmp(y, x) <= 0 then [y] else []) + Alike(cmp, x, s)
  {
    assert ([y] + s)[1..] == s;
  }

  /** `s` is cut into sorted runs of size `k`, the last perhaps shorter. */
  ghost predicate Runs<E>(cmp: (E, E) -> int, s: seq<E>, k: nat)
    requires k > 0
    decreases |s|
  {
    s == [] || (Sorted(cmp, s[..Min(k, |s|)]) && Runs(cmp, s[Min(k, |s|)..], k))
  }

  lemma {:induction false} UnitRuns<E>(cmp: (E, E) -> int, s: seq<E>)
    ensures Runs(cmp, s, 1)
  {
    if s != [] {
      UnitRuns(cmp, s[1..]);
    }
  }

  lemma EmptySorted<E>(cmp: (E, E) -> int, s: seq<E>)
    requires s == []
    ensures Sorted(cmp, s)
  {
  }

  lemma FirstRun<E>(cmp: (E, E) -> int, s: seq<E>, k: nat)
    requires k > 0 && s != [] && Runs(cmp, s, k)
    ensures Sorted(cmp, s[..Min(k, |s|)]) && Runs(cmp, s[Min(k, |s|)..], k)
  {
  }

  lemma SecondRun<E>(cmp: (E, E) -> int, s: seq<E>, k: nat, m: nat, e: nat)
    requires k > 0 && m < e <= |s| && e - m == Min(k, |s| - m) && Runs(cmp, s[m..], k)
    ensures Sorted(cmp, s[m..e]) && Runs(cmp, s[e..], k)
  {
    hide Sorted, Runs;
    FirstRun(cmp, s[m..], k);
    SliceOfSlice(s, m, e);
  }

  lemma RunsStep<E>(cmp: (E, E) -> int, s: seq<E>, k: nat)
    requires k > 0 && s != [] && Runs(cmp, s, k)
    ensures var m, e := Min(k, |s|), Min(2 * k, |s|);
      Sorted(cmp, s[..m]) && Sorted(cmp, s[m..e]) && Runs(cmp, s[e..], k)
  {
    hide Sorted, Runs;
    FirstRun(cmp, s, k);
    if k < |s| {
      SecondRun(cmp, s, k, k, Min(2 * k, |s|));
    } else {
      EmptySorted(cmp, s[|s|..|s|]);
    }
  }

  /** One pass turns sorted runs of size `k` into sorted runs of size `2k`. */
  lemma {:induction false} PassDoublesRuns<E>(cmp: (E, E) -> int, s: seq<E>, k: nat, all: seq<E>)
    requires k > 0 && Orders(cmp, all) && Among(s, all) && Runs(cmp, s, k)
    ensures Runs(cmp, Pass(cmp, s, k), 2 * k)
    decreases |s|
  {
    hide Orders, Sorted, Runs;
    if s == [] {
      NoRuns(cmp, 2 * k);
    } else {
      var m, e := Min(k, |s|), Min(2 * k, |s|);
      var a, b, rest := s[..m], s[m..e], s[e..];
      RunsStep(cmp, s, k);
      PassDoublesRuns(cmp, rest, k, all);
      MergeSorts(cmp, a, b, all);
      RunsJoin(cmp, Merge(cmp, a, b), Pass(cmp, rest, k), 2 * k);
    }
  }

  lemma NoRuns<E>(cmp: (E, E) -> int, k: nat)
    requires k > 0
    ensures Runs(cmp, [], k)
  {
  }

  /** One pass over sorted runs keeps equal elements in order. */
  lemma {:induction false} PassStable<E>(cmp: (E, E) -> int, x: E, s: seq<E>, k: nat, all: seq<E>)
    requires k > 0 && Orders(cmp, all) && x in all && Among(s, all) && Runs(cmp, s, k)
    ensures Alike(cmp, x, Pass(cmp, s, k)) == Alike(cmp, x, s)
    decreases |s|
  {
    hide Orders, Sorted, Runs, Alike;
    if s != [] {
      var m, e := Min(k, |s|), Min(2 * k, |s|);
      var a, b, rest := s[..m], s[m..e], s[e..];
      RunsStep(cmp, s, k);
      PassStable(cmp, x, rest, k, all);
      MergeStable(cmp, x, a, b, all);
      AlikeConcat(cmp, x, Merge(cmp, a, b), Pass(cmp, rest, k));
      AlikeConcat(cmp, x, a, b);
      AlikeConcat(cmp, x, a + b, rest);
      InThree(s, m, e);
    }
  }

  lemma RunsJoin<E>(cmp: (E, E) -> int, r: seq<E>, t: seq<E>, k: nat)
    requires k > 0 && r != [] && Sorted(cmp, r) && Runs(cmp, t, k) && (|r| == k || (|r| < k && t == []))
    ensures Runs(cmp, r + t, k)
  {
    var s := r + t;
    assert s[..Min(k, |s|)] == r && s[Min(k, |s|)..] == t;
  }

  lemma OneRun<E>(cmp: (E, E) -> int, s: seq<E>, k: nat)
    requires k > 0 && |s| <= k && Runs(cmp, s, k)
    ensures Sorted(cmp, s)
  {
    if s != [] {
      assert s[..|s|] == s;
    }
  }

  lemma {:induction false} SortFromSorts<E>(cmp: (E, E) -> int, s: seq<E>, k: nat)
    requires k > 0 && Orders(cmp, s) && Runs(cmp, s, k)
    ensures StablySorted(cmp, s, SortFrom(cmp, s, k))
    decreases |s| - k
  {
    hide Orders, Sorted, Runs, Pass, Alike;
    var t := Pass(cmp, s, k);
    PassPermutes(cmp, s, k);
    SameElements(s, t);
    PassDoublesRuns(cmp, s, k, s);
    forall x | x in s ensures Alike(cmp, x, t) == Alike(cmp, x, s) {
      PassStable(cmp, x, s, k, s);
    }
    FewMerges(|s|, k);
    if |s| <= 2 * k {
      OneRun(cmp, t, 2 * k);
    } else {
      OrdersPermuted(cmp, s, t);
      SortFromSorts(cmp, t, 2 * k);
    }
  }

  lemma OrdersPermuted<E>(cmp: (E, E) -> int, s: seq<E>, t: seq<E>)
    requires Orders(cmp, s) && Among(t, s)
    ensures Orders(cmp, t)
  {
  }

  /** The sort returns a stable sorted permutation. */
  lemma SortSorts<E>(cmp: (E, E) -> int, s: seq<E>)
    requires Orders(cmp, s)
    ensures StablySorted(cmp, s, Sort(cmp, s))
  {
    if s != [] {
      UnitRuns(cmp, s);
      SortFromSorts(cmp, s, 1);
    }
  }

  /** Being stably sorted leaves no choice: two stable sorted permutations are the same. */
  lemma {:induction false} StableSortUnique<E>(cmp: (E, E) -> int, s: seq<E>, t: seq<E>, u: seq<E>)
    requires Orders(cmp, s) && Among(t, s) && Among(u, s) && multiset(t) == multiset(u)
    requires Sorted(cmp, t) && Sorted(cmp, u)
    requires forall x | x in s :: Alike(cmp, x, t) == Alike(cmp, x, u)
    ensures t == u
    decreases |t|
  {
    hide Orders, Alike, Sorted;
    assert |multiset(t)| == |multiset(u)|;
    if t != [] {
      HeadsAgree(cmp, s, t, u);
      assert t == [t[0]] + t[1..] && u == [t[0]] + u[1..];
      TailsAlike(cmp, s, t[0], t[1..], u[1..]);
      TailsPermuted(t[0], t[1..], u[1..]);
      TailSorted(cmp, t);
      TailSorted(cmp, u);
      StableSortUnique(cmp, s, t[1..], u[1..]);
    }
  }

  lemma TailsPermuted<E>(h: E, t: seq<E>, u: seq<E>)
    requires multiset([h] + t) == multiset([h] + u)
    ensures multiset(t) == multiset(u)
  {
    assert multiset(t) == multiset([h] + t) - multiset{h};
  }

  lemma TailsAlike<E>(cmp: (E, E) -> int, s: seq<E>, h: E, t: seq<E>, u: seq<E>)
    requires forall x | x in s :: Alike(cmp, x, [h] + t) == Alike(cmp, x, [h] + u)
    ensures forall x | x in s :: Alike(cmp, x, t) == Alike(cmp, x, u)
  {
    forall x | x in s ensures Alike(cmp, x, t) == Alike(cmp, x, u) {
      AlikeCons(cmp, x, h, t);
      AlikeCons(cmp, x, h, u);
      var own: seq<E> := if cmp(x, h) <= 0 && cmp(h, x) <= 0 then [h] else [];
      assert Alike(cmp, x, [h] + t)[|own|..] == Alike(cmp, x, t);
      assert Alike(cmp, x, [h] + u)[|own|..] == Alike(cmp, x, u);
    }
  }

  lemma HeadsAgree<E>(cmp: (E, E) -> int, s: seq<E>, t: seq<E>, u: seq<E>)
    requires Orders(cmp, s) && Among(t, s) && Among(u, s) && multiset(t) == multiset(u)
    requires Sorted(cmp, t) && Sorted(cmp, u) && t != [] && u != []
    requires forall x | x in s :: Alike(cmp, x, t) == Alike(cmp, x, u)
    ensures t[0] == u[0]
  {
    hide Orders, Alike;
    HeadIsLeast(cmp, s, t, u);
    HeadIsLeast(cmp, s, u, t);
    HeadsCompare(cmp, t[0], t[0], s);
    AlikeCons(cmp, t[0], t[0], t[1..]);
    AlikeCons(cmp, t[0], u[0], u[1..]);
    assert t == [t[0]] + t[1..] && u == [u[0]] + u[1..];
    assert Alike(cmp, t[0], t)[0] == t[0] && Alike(cmp, t[0], u)[0] == u[0];
  }

  lemma HeadIsLeast<E>(cmp: (E, E) -> int, s: seq<E>, t: seq<E>, u: seq<E>)
    requires Orders(cmp, s) && Among(t, s) && Sorted(cmp, t) && t != [] && u != [] && multiset(t) == multiset(u)
    ensures cmp(t[0], u[0]) <= 0
  {
    hide Orders;
    assert u[0] in multiset(t);
    var j :| 0 <= j < |t| && t[j] == u[0];
    HeadsCompare(cmp, t[0], t[0], s);
  }

  lemma {:induction false} SortFromPermutes<E>(cmp: (E, E) -> int, s: seq<E>, k: nat)
    requires k > 0
    ensures multiset(SortFrom(cmp, s, k)) == multiset(s)
    decreases |s| - k
  {
    PassPermutes(cmp, s, k);
    FewMerges(|s|, k);
    if |s| > 2 * k {
      SortFromPermutes(cmp, Pass(cmp, s, k), 2 * k);
    }
  }

  // ----- cost -----

  /** Calls of `cmp` from run size `k` on. */
  function SortCalls<E>(cmp: (E, E) -> int, s: seq<E>, k: nat): nat
    requires k > 0
    decreases |s| - k
  {
    PassCalls(cmp, s, k) + if |s| <= 2 * k then 0 else SortCalls(cmp, Pass(cmp, s, k), 2 * k)
  }

  function Passes(n: nat, k: nat): nat
    requires k > 0
    decreases n - k
  {
    if n <= 2 * k then 1 else 1 + Passes(n, 2 * k)
  }

  /** Least `l` with `n <= 2^l`. */
  function CeilLog2(n: nat): nat
    requires n > 0
  {
    if n == 1 then 0 else 1 + CeilLog2((n + 1) / 2)
  }

  lemma {:induction false} MergeCallsBound<E>(cmp: (E, E) -> int, a: seq<E>, b: seq<E>)
    ensures a != [] || b != [] ==> MergeCalls(cmp, a, b) <= |a| + |b| - 1
  {
    if a != [] && b != [] {
      if cmp(a[0], b[0]) <= 0 {
        MergeCallsBound(cmp, a[1..], b);
      } else {
        MergeCallsBound(cmp, a, b[1..]);
      }
    }
  }

  lemma {:induction false} PassCallsBound<E>(cmp: (E, E) -> int, s: seq<E>, k: nat)
    requires k > 0 && s != []
    ensures PassCalls(cmp, s, k) <= |s| - 1
    decreases |s|
  {
    var m, e := Min(k, |s|), Min(2 * k, |s|);
    MergeCallsBound(cmp, s[..m], s[m..e]);
    if e < |s| {
      PassCallsBound(cmp, s[e..], k);
    }
  }

  lemma {:induction false} PassesHalve(n: nat, k: nat)
    requires k > 0
    ensures Passes(n, 2 * k) == Passes((n + 1) / 2, k)
    decreases n - k
  {
    if n > 4 * k {
      PassesHalve(n, 2 * k);
    }
  }

  lemma {:induction false} PassesIsLog(n: nat)
    requires n > 0
    ensures Passes(n, 1) == if n == 1 then 1 else CeilLog2(n)
  {
    if n > 2 {
      PassesHalve(n, 1);
      PassesIsLog((n + 1) / 2);
    }
  }

  lemma OneMore(n: nat, p: nat)
    ensures n * (1 + p) == n + n * p
  {
  }

  lemma {:induction false} SortCallsBound<E>(cmp: (E, E) -> int, s: seq<E>, k: nat)
    requires k > 0 && s != []
    ensures SortCalls(cmp, s, k) <= (|s| - 1) * Passes(|s|, k)
    decreases |s| - k
  {
    hide Pass, PassCalls;
    PassCallsBound(cmp, s, k);
    if |s| > 2 * k {
      SortCallsBound(cmp, Pass(cmp, s, k), 2 * k);
      OneMore(|s| - 1, Passes(|s|, 2 * k));
    }
  }

  /** Sorting n elements takes max(1, ceil(log2 n)) passes and at most n * ceil(log2 n) comparisons. */
  lemma SortCost<E>(cmp: (E, E) -> int, s: seq<E>)
    requires s != []
    ensures Passes(|s|, 1) == if |s| == 1 then 1 else CeilLog2(|s|)
    ensures SortCalls(cmp, s, 1) <= |s| * CeilLog2(|s|)
  {
    PassesIsLog(|s|);
    SortCallsBound(cmp, s, 1);
    var l := CeilLog2(|s|);
    if |s| > 1 {
      assert (|s| - 1) * l <= |s| * l;
    }
  }

  function Pow2(n: nat): (r: nat)
    ensures r > 0
  {
    if n == 0 then 1 else 2 * Pow2(n - 1)
  }

  lemma {:induction false} LastRunSize(n: nat, k: nat)
    requires n > 0 && k > 0
    ensures k * Pow2(Passes(n, k)) >= n
    ensures n > 2 * k ==> k * Pow2(Passes(n, k)) < 2 * n
    ensures n <= 2 * k ==> k * Pow2(Passes(n, k)) == 2 * k
    decreases n - k
  {
    if n > 2 * k {
      LastRunSize(n, 2 * k);
      assert k * (2 * Pow2(Passes(n, 2 * k))) == 2 * k * Pow2(Passes(n, 2 * k));
    }
  }

  /** The run size behind the last pass, 2^passes, is an `int` of 32 bits for up to 2^30 nodes. */
  lemma RunSizeFits(n: nat)
    requires 0 < n <= 0x4000_0000
    ensures n <= Pow2(Passes(n, 1)) <= 0x7fff_ffff
  {
    LastRunSize(n, 1);
  }
}
