/**
 The editing macros of components/osal/ulist.h (lines 314-1041): each keeps its list's
 shape and does to the sequence of nodes what its name says.
 */
module ListEdits {
  import opened ListShapes
  import opened MergeSortSpec

  // ----- sequences of nodes -----

  ghost function InsertAt(s: seq<Node>, k: nat, x: Node): seq<Node>
    requires k <= |s|
  {
    s[..k] + [x] + s[k..]
  }

  ghost function RemoveAt(s: seq<Node>, k: nat): seq<Node>
    requires k < |s|
  {
    s[..k] + s[k + 1..]
  }

  /** How many leading elements are strictly below `like`. */
  ghost function LowerIndex(cmp: (Node, Node) -> int, s: seq<Node>, like: Node): (k: nat)
    ensures k <= |s|
  {
    if s == [] || cmp(s[0], like) >= 0 then 0 else 1 + LowerIndex(cmp, s[1..], like)
  }

  lemma {:induction false} LowerIndexSplits(cmp: (Node, Node) -> int, s: seq<Node>, like: Node)
    ensures var k := LowerIndex(cmp, s, like);
      (forall i | 0 <= i < k :: cmp(s[i], like) < 0) && (k < |s| ==> cmp(s[k], like) >= 0)
  {
    if s != [] && cmp(s[0], like) < 0 {
      LowerIndexSplits(cmp, s[1..], like);
      var k := LowerIndex(cmp, s[1..], like);
      forall i | 0 <= i < k + 1 ensures cmp(s[i], like) < 0 {
        assert i > 0 ==> s[i] == s[1..][i - 1];
      }
    }
  }

  /** Inserting at the lower bound keeps a sorted list sorted, with the new node before its equals. */
  lemma InsertSorted(cmp: (Node, Node) -> int, s: seq<Node>, x: Node)
    requires Orders(cmp, s + [x]) && Sorted(cmp, s)
    ensures var k := LowerIndex(cmp, s, x);
      && (forall i | 0 <= i < k :: cmp(s[i], x) < 0)
      && (forall i | k <= i < |s| :: cmp(x, s[i]) <= 0)
      && Sorted(cmp, InsertAt(s, k, x))
  {
    hide Orders;
    var k := LowerIndex(cmp, s, x);
    LowerIndexSplits(cmp, s, x);
    forall i | k <= i < |s| ensures cmp(x, s[i]) <= 0 {
      Above(cmp, s, x, k, i);
    }
    var t := InsertAt(s, k, x);
    forall i, j | 0 <= i < j < |t| ensures cmp(t[i], t[j]) <= 0 {
      assert i > k ==> t[i] == s[i - 1];
      assert j > k ==> t[j] == s[j - 1];
    }
  }

  lemma Above(cmp: (Node, Node) -> int, s: seq<Node>, x: Node, k: nat, i: nat)
    requires Orders(cmp, s + [x]) && Sorted(cmp, s) && k <= i < |s| && cmp(s[k], x) >= 0
    ensures cmp(x, s[i]) <= 0
  {
    var all := s + [x];
    assert all[k] in all && all[i] in all && all[|s|] in all;
    assert k == i || cmp(s[k], s[i]) <= 0;
  }

  // ----- the links that make a list -----

  lemma OnlyAt(s: seq<Node>, k: nat)
    requires Distinct(s) && k < |s|
    ensures forall i | 0 <= i < |s| :: s[i] == s[k] <==> i == k
  {
  }

  /** The nodes an edit at `k` touches occur nowhere else. */
  lemma Around(s: seq<Node>, k: nat)
    requires (s != [] ==> Distinct(s)) && k <= |s|
    ensures Distinct(s)
    ensures forall i | 0 <= i < |s| :: (s[i] == s[0] <==> i == 0) && (s[i] == s[|s| - 1] <==> i == |s| - 1)
    ensures k > 0 ==> forall i | 0 <= i < |s| :: s[i] == s[k - 1] <==> i == k - 1
    ensures k < |s| ==> forall i | 0 <= i < |s| :: s[i] == s[k] <==> i == k
    ensures k + 1 < |s| ==> forall i | 0 <= i < |s| :: s[i] == s[k + 1] <==> i == k + 1
  {
    if s != [] {
      OnlyAt(s, 0);
      OnlyAt(s, |s| - 1);
    }
    if k > 0 {
      OnlyAt(s, k - 1);
    }
    if k < |s| {
      OnlyAt(s, k);
    }
    if k + 1 < |s| {
      OnlyAt(s, k + 1);
    }
  }

  lemma Nowhere(s: seq<Node>, x: Node)
    requires x !in s
    ensures forall i | 0 <= i < |s| :: s[i] != x
  {
    forall i | 0 <= i < |s| ensures s[i] != x {
      assert s[i] in s;
    }
  }

  /** The links that make the list `InsertAt(s, k, x)`. */
  lemma Inserted(s: seq<Node>, k: nat, x: Node, stop: Node?, first: Node?)
    requires Distinct(s) && x !in s && k <= |s|
    requires forall i | 0 <= i < |s| && i != k - 1 :: s[i].next == After(s, i, stop)
    requires forall i | 0 <= i < |s| && i != k :: s[i].prev == Before(s, i, first)
    requires k > 0 ==> s[k - 1].next == x
    requires k < |s| ==> s[k].prev == x
    requires x.next == if k < |s| then s[k] else stop
    requires x.prev == if k > 0 then s[k - 1] else first
    ensures Links(InsertAt(s, k, x), stop, first)
  {
    hide Distinct;
    var t := InsertAt(s, k, x);
    InsertDistinct(s, k, x);
    InsertedNext(s, k, x, stop);
    forall i | 0 <= i < |t| ensures t[i].prev == Before(t, i, first) {
      assert i < k ==> t[i] == s[i];
      assert i > k ==> t[i] == s[i - 1];
    }
  }

  lemma InsertedNext(s: seq<Node>, k: nat, x: Node, stop: Node?)
    requires k <= |s|
    requires forall i | 0 <= i < |s| && i != k - 1 :: s[i].next == After(s, i, stop)
    requires k > 0 ==> s[k - 1].next == x
    requires x.next == if k < |s| then s[k] else stop
    ensures Linked(InsertAt(s, k, x), 0, |s| + 1, stop)
  {
    var t := InsertAt(s, k, x);
    forall i | 0 <= i < |t| ensures t[i].next == After(t, i, stop) {
      assert i < k ==> t[i] == s[i];
      assert i > k ==> t[i] == s[i - 1];
    }
  }

  lemma InsertDistinct(s: seq<Node>, k: nat, x: Node)
    requires Distinct(s) && x !in s && k <= |s|
    ensures Distinct(InsertAt(s, k, x))
  {
    Nowhere(s, x);
  }

  lemma RemoveDistinct(s: seq<Node>, k: nat)
    requires Distinct(s) && k < |s|
    ensures Distinct(RemoveAt(s, k))
  {
  }

  lemma ReplaceDistinct(s: seq<Node>, k: nat, x: Node)
    requires Distinct(s) && k < |s| && x !in s
    ensures Distinct(s[k := x])
  {
    Nowhere(s, x);
  }

  lemma RemovedAt(s: seq<Node>, k: nat)
    requires k < |s|
    ensures var t := RemoveAt(s, k);
      |t| == |s| - 1 && (forall i | 0 <= i < k :: t[i] == s[i]) && (forall i | k <= i < |t| :: t[i] == s[i + 1])
  {
  }

  lemma RemovedNext(s: seq<Node>, k: nat, stop: Node?)
    requires k < |s|
    requires forall i | 0 <= i < |s| && i != k && i != k - 1 :: s[i].next == After(s, i, stop)
    requires k > 0 ==> s[k - 1].next == After(s, k, stop)
    ensures var t := RemoveAt(s, k); forall i | 0 <= i < |t| :: t[i].next == After(t, i, stop)
  {
    var t := RemoveAt(s, k);
    RemovedAt(s, k);
    hide RemoveAt;
    forall i | 0 <= i < |t| ensures t[i].next == After(t, i, stop) {
      assert i >= k ==> t[i] == s[i + 1];
    }
  }

  lemma RemovedPrev(s: seq<Node>, k: nat, first: Node?)
    requires k < |s|
    requires forall i | 0 <= i < |s| && i != k && i != k + 1 :: s[i].prev == Before(s, i, first)
    requires k + 1 < |s| ==> s[k + 1].prev == Before(s, k, first)
    ensures var t := RemoveAt(s, k); forall i | 0 <= i < |t| :: t[i].prev == Before(t, i, first)
  {
    var t := RemoveAt(s, k);
    RemovedAt(s, k);
    hide RemoveAt;
    forall i | 0 <= i < |t| ensures t[i].prev == Before(t, i, first) {
      assert i >= k ==> t[i] == s[i + 1];
    }
  }

  lemma Removed(s: seq<Node>, k: nat, stop: Node?, first: Node?)
    requires Distinct(s) && k < |s|
    requires forall i | 0 <= i < |s| && i != k && i != k - 1 :: s[i].next == After(s, i, stop)
    requires forall i | 0 <= i < |s| && i != k && i != k + 1 :: s[i].prev == Before(s, i, first)
    requires k > 0 ==> s[k - 1].next == After(s, k, stop)
    requires k + 1 < |s| ==> s[k + 1].prev == Before(s, k, first)
    ensures Links(RemoveAt(s, k), stop, first)
  {
    hide Distinct, RemoveAt, After, Before;
    RemoveDistinct(s, k);
    RemovedNext(s, k, stop);
    RemovedPrev(s, k, first);
  }

  lemma Replaced(s: seq<Node>, k: nat, x: Node, stop: Node?, first: Node?)
    requires Distinct(s) && x !in s && k < |s|
    requires forall i | 0 <= i < |s| && i != k && i != k - 1 :: s[i].next == After(s, i, stop)
    requires forall i | 0 <= i < |s| && i != k && i != k + 1 :: s[i].prev == Before(s, i, first)
    requires k > 0 ==> s[k - 1].next == x
    requires k + 1 < |s| ==> s[k + 1].prev == x
    requires x.next == After(s, k, stop) && x.prev == Before(s, k, first)
    ensures Links(s[k := x], stop, first)
  {
    hide Distinct;
    var t := s[k := x];
    ReplaceDistinct(s, k, x);
    forall i | 0 <= i < |t| ensures t[i].next == After(t, i, stop) {
      assert i != k ==> t[i] == s[i];
    }
    forall i | 0 <= i < |t| ensures t[i].prev == Before(t, i, first) {
      assert i != k ==> t[i] == s[i];
    }
  }

  lemma JoinedAt(s: seq<Node>, u: seq<Node>)
    ensures var t := s + u;
      (forall i | 0 <= i < |s| :: t[i] == s[i]) && (forall i | |s| <= i < |t| :: t[i] == u[i - |s|])
  {
  }

  lemma JoinedNext(s: seq<Node>, u: seq<Node>, stop: Node?)
    requires s != [] && u != []
    requires forall i | 0 <= i < |s| :: s[i].next == After(s, i, u[0])
    requires forall i | 0 <= i < |u| :: u[i].next == After(u, i, stop)
    ensures Linked(s + u, 0, |s + u|, stop)
  {
    var t := s + u;
    JoinedAt(s, u);
    forall i | 0 <= i < |t| ensures t[i].next == After(t, i, stop) {
      if i < |s| {
        assert t[i] == s[i];
      } else {
        assert t[i] == u[i - |s|];
      }
    }
  }

  lemma JoinedPrev(s: seq<Node>, u: seq<Node>, first: Node?)
    requires s != [] && u != [] && Backed(s, first) && Backed(u, s[|s| - 1])
    ensures Backed(s + u, first)
  {
    var t := s + u;
    JoinedAt(s, u);
    forall i | 0 <= i < |t| ensures t[i].prev == Before(t, i, first) {
      if i < |s| {
        assert t[i] == s[i];
      } else {
        assert t[i] == u[i - |s|];
      }
    }
  }

  lemma Joined(s: seq<Node>, u: seq<Node>, stop: Node?, first: Node?)
    requires s != [] && u != [] && Distinct(s + u)
    requires forall i | 0 <= i < |s| :: s[i].next == After(s, i, u[0])
    requires forall i | 0 <= i < |u| :: u[i].next == After(u, i, stop)
    requires Backed(s, first) && Backed(u, s[|s| - 1])
    ensures Links(s + u, stop, first)
  {
    hide Backed, Distinct, Linked;
    JoinedNext(s, u, stop);
    JoinedPrev(s, u, first);
  }

  // ----- doubly linked lists -----

  /** DL_PREPEND2 */
  method PrependDL(head: Node?, add: Node, ghost s: seq<Node>) returns (head': Node)
    requires IsDL(head, s) && add !in s
    modifies add, s
    ensures IsDL(head', InsertAt(s, 0, add))
  {
    hide Distinct;
    Around(s, 0);
    Nowhere(s, add);
    add.next := head;
    if head != null {
      add.prev := head.prev;
      head.prev := add;
    } else {
      add.prev := add;
    }
    head' := add;
    Inserted(s, 0, add, null, if s == [] then add else s[|s| - 1]);
  }

  /** DL_APPEND2 */
  method AppendDL(head: Node?, add: Node, ghost s: seq<Node>) returns (head': Node)
    requires IsDL(head, s) && add !in s
    modifies add, s
    ensures IsDL(head', InsertAt(s, |s|, add))
  {
    hide Distinct;
    Around(s, |s|);
    Nowhere(s, add);
    if head != null {
      add.prev := head.prev;
      head.prev.next := add;
      head.prev := add;
      add.next := null;
      head' := head;
    } else {
      head' := add;
      head'.prev := head';
      head'.next := null;
    }
    Inserted(s, |s|, add, null, add);
  }

  /** DL_PREPEND_ELEM2 */
  method PrependElemDL(head: Node?, el: Node?, add: Node, ghost s: seq<Node>, ghost k: nat) returns (head': Node)
    requires IsDL(head, s) && add !in s
    requires if el == null then k == |s| else k < |s| && el == s[k]
    modifies add, s
    ensures IsDL(head', InsertAt(s, k, add))
  {
    hide Distinct;
    Around(s, k);
    if el != null {
      Nowhere(s, add);
      add.next := el;
      add.prev := el.prev;
      el.prev := add;
      if head == el {
        head' := add;
      } else {
        head' := head;
        add.prev.next := add;
      }
      Inserted(s, k, add, null, s[|s| - 1]);
    } else {
      head' := AppendDL(head, add, s);
    }
  }

  /** DL_APPEND_ELEM2: `k` is where the new node goes, behind `el`. */
  method AppendElemDL(head: Node?, el: Node?, add: Node, ghost s: seq<Node>, ghost k: nat) returns (head': Node)
    requires IsDL(head, s) && add !in s
    requires if el == null then k == 0 else 0 < k <= |s| && el == s[k - 1]
    modifies add, s
    ensures IsDL(head', InsertAt(s, k, add))
  {
    hide Distinct;
    Around(s, k);
    if el != null {
      Nowhere(s, add);
      head' := head;
      add.next := el.next;
      add.prev := el;
      el.next := add;
      if add.next != null {
        add.next.prev := add;
      } else {
        head'.prev := add;
      }
      Inserted(s, k, add, null, if k == |s| then add else s[|s| - 1]);
    } else {
      head' := PrependDL(head, add, s);
    }
  }

  /** DL_DELETE2 */
  method DeleteDL(head: Node, del: Node, ghost s: seq<Node>, ghost k: nat) returns (head': Node?)
    requires IsDL(head, s) && k < |s| && del == s[k]
    modifies s
    ensures IsDL(head', RemoveAt(s, k))
  {
    hide Distinct;
    Around(s, k);
    if del.prev == del {
      head' := null;
    } else if del == head {
      del.next.prev := del.prev;
      head' := del.next;
    } else {
      head' := head;
      del.prev.next := del.next;
      if del.next != null {
        del.next.prev := del.prev;
      } else {
        head'.prev := del.prev;
      }
    }
    if |s| > 1 {
      Removed(s, k, null, if k == |s| - 1 then s[k - 1] else s[|s| - 1]);
    }
  }

  /** DL_REPLACE_ELEM2 */
  method ReplaceElemDL(head: Node, el: Node, add: Node, ghost s: seq<Node>, ghost k: nat) returns (head': Node)
    requires IsDL(head, s) && add !in s && k < |s| && el == s[k]
    modifies add, s
    ensures IsDL(head', s[k := add])
  {
    hide Distinct;
    Around(s, k);
    Nowhere(s, add);
    if head == el {
      head' := add;
      add.next := el.next;
      if el.next == null {
        add.prev := add;
      } else {
        add.prev := el.prev;
        add.next.prev := add;
      }
    } else {
      head' := head;
      add.next := el.next;
      add.prev := el.prev;
      add.prev.next := add;
      if el.next == null {
        head'.prev := add;
      } else {
        add.next.prev := add;
      }
    }
    Replaced(s, k, add, null, if k == |s| - 1 then add else s[|s| - 1]);
  }

  /** DL_CONCAT2 */
  method ConcatDL(head1: Node?, head2: Node?, ghost s: seq<Node>, ghost u: seq<Node>) returns (head: Node?)
    requires IsDL(head1, s) && IsDL(head2, u) && Distinct(s + u)
    modifies s, u
    ensures IsDL(head, s + u)
  {
    hide Distinct;
    head := head1;
    if head2 != null {
      if head1 != null {
        Apart(s, u);
        Around(s, 0);
        Around(u, 0);
        var tmp := head2.prev;
        head2.prev := head1.prev;
        head1.prev.next := head2;
        head1.prev := tmp;
        Joined(s, u, null, u[|u| - 1]);
      } else {
        head := head2;
        assert s + u == u;
      }
    } else {
      assert s + u == s;
    }
  }

  lemma Apart(s: seq<Node>, u: seq<Node>)
    requires Distinct(s + u)
    ensures forall i, j | 0 <= i < |s| && 0 <= j < |u| :: s[i] != u[j]
  {
    forall i, j | 0 <= i < |s| && 0 <= j < |u| ensures s[i] != u[j] {
      assert (s + u)[i] == s[i] && (s + u)[|s| + j] == u[j];
    }
  }

  /** DL_LOWER_BOUND2: the last of the leading nodes below `like`, null if there is none. */
  method LowerBoundDL(head: Node?, like: Node, cmp: (Node, Node) -> int, ghost s: seq<Node>) returns (elt: Node?)
    requires IsDL(head, s)
    ensures var k := LowerIndex(cmp, s, like); elt == if k == 0 then null else s[k - 1]
  {
    if head == null || cmp(head, like) >= 0 {
      elt := null;
    } else {
      elt := head;
      ghost var i := 0;
      while elt.next != null
        invariant 0 <= i < |s| && elt == s[i]
        invariant LowerIndex(cmp, s, like) == i + 1 + LowerIndex(cmp, s[i + 1..], like)
        decreases |s| - i
      {
        assert elt.next == After(s, i, null) && s[i + 1..][1..] == s[i + 2..];
        if cmp(elt.next, like) >= 0 {
          break;
        }
        elt := elt.next;
        i := i + 1;
      }
      assert elt.next == After(s, i, null);
    }
  }

  /** DL_INSERT_INORDER2 */
  method InsertInorderDL(head: Node?, add: Node, cmp: (Node, Node) -> int, ghost s: seq<Node>) returns (head': Node)
    requires IsDL(head, s) && add !in s
    modifies add, s
    ensures IsDL(head', InsertAt(s, LowerIndex(cmp, s, add), add))
  {
    if head != null {
      var tmp := LowerBoundDL(head, add, cmp, s);
      head' := AppendElemDL(head, tmp, add, s, LowerIndex(cmp, s, add));
    } else {
      head' := AppendDL(head, add, s);
    }
  }

  // ----- rings -----

  /** CDL_APPEND2 */
  method AppendCDL(head: Node?, add: Node, ghost s: seq<Node>) returns (head': Node)
    requires IsCDL(head, s) && add !in s
    modifies add, s
    ensures IsCDL(head', InsertAt(s, |s|, add))
  {
    hide Distinct;
    Around(s, |s|);
    Nowhere(s, add);
    if head != null {
      add.prev := head.prev;
      add.next := head;
      head.prev := add;
      add.prev.next := add;
      head' := head;
    } else {
      add.prev := add;
      add.next := add;
      head' := add;
    }
    Inserted(s, |s|, add, head', add);
  }

  /** CDL_PREPEND2 */
  method PrependCDL(head: Node?, add: Node, ghost s: seq<Node>) returns (head': Node)
    requires IsCDL(head, s) && add !in s
    modifies add, s
    ensures IsCDL(head', InsertAt(s, 0, add))
  {
    hide Distinct;
    Around(s, 0);
    Nowhere(s, add);
    if head != null {
      add.prev := head.prev;
      add.next := head;
      head.prev := add;
      add.prev.next := add;
    } else {
      add.prev := add;
      add.next := add;
    }
    head' := add;
    Inserted(s, 0, add, add, if s == [] then add else s[|s| - 1]);
  }

  /** CDL_PREPEND_ELEM2 */
  method PrependElemCDL(head: Node?, el: Node?, add: Node, ghost s: seq<Node>, ghost k: nat) returns (head': Node)
    requires IsCDL(head, s) && add !in s
    requires if el == null then k == |s| else k < |s| && el == s[k]
    modifies add, s
    ensures IsCDL(head', InsertAt(s, k, add))
  {
    hide Distinct;
    Around(s, k);
    if el != null {
      Nowhere(s, add);
      head' := head;
      add.next := el;
      add.prev := el.prev;
      el.prev := add;
      add.prev.next := add;
      if head == el {
        head' := add;
      }
      Inserted(s, k, add, head', s[|s| - 1]);
    } else {
      head' := AppendCDL(head, add, s);
    }
  }

  /** CDL_APPEND_ELEM2 */
  method AppendElemCDL(head: Node?, el: Node?, add: Node, ghost s: seq<Node>, ghost k: nat) returns (head': Node)
    requires IsCDL(head, s) && add !in s
    requires if el == null then k == 0 else 0 < k <= |s| && el == s[k - 1]
    modifies add, s
    ensures IsCDL(head', InsertAt(s, k, add))
  {
    hide Distinct;
    Around(s, k);
    if el != null {
      Nowhere(s, add);
      head' := head;
      add.next := el.next;
      add.prev := el;
      el.next := add;
      add.next.prev := add;
      Inserted(s, k, add, head', if k == |s| then add else s[|s| - 1]);
    } else {
      head' := PrependCDL(head, add, s);
    }
  }

  /** CDL_DELETE2 */
  method DeleteCDL(head: Node, del: Node, ghost s: seq<Node>, ghost k: nat) returns (head': Node?)
    requires IsCDL(head, s) && k < |s| && del == s[k]
    modifies s
    ensures IsCDL(head', RemoveAt(s, k))
  {
    hide Distinct;
    Around(s, k);
    head' := head;
    if head == del && head.next == head {
      head' := null;
    } else {
      del.next.prev := del.prev;
      del.prev.next := del.next;
      if del == head {
        head' := del.next;
      }
      Removed(s, k, head', if k == |s| - 1 then s[k - 1] else s[|s| - 1]);
    }
  }

  /** CDL_REPLACE_ELEM2 */
  method ReplaceElemCDL(head: Node, el: Node, add: Node, ghost s: seq<Node>, ghost k: nat) returns (head': Node)
    requires IsCDL(head, s) && add !in s && k < |s| && el == s[k]
    modifies add, s
    ensures IsCDL(head', s[k := add])
  {
    hide Distinct;
    Around(s, k);
    Nowhere(s, add);
    head' := head;
    if el.next == el {
      add.next := add;
      add.prev := add;
      head' := add;
    } else {
      add.next := el.next;
      add.prev := el.prev;
      add.next.prev := add;
      add.prev.next := add;
      if head == el {
        head' := add;
      }
    }
    Replaced(s, k, add, head', if k == |s| - 1 then add else s[|s| - 1]);
  }

  /** CDL_LOWER_BOUND2 */
  method LowerBoundCDL(head: Node?, like: Node, cmp: (Node, Node) -> int, ghost s: seq<Node>) returns (elt: Node?)
    requires IsCDL(head, s)
    ensures var k := LowerIndex(cmp, s, like); elt == if k == 0 then null else s[k - 1]
  {
    if head == null || cmp(head, like) >= 0 {
      elt := null;
    } else {
      elt := head;
      ghost var i := 0;
      while elt.next != head
        invariant 0 <= i < |s| && elt == s[i]
        invariant LowerIndex(cmp, s, like) == i + 1 + LowerIndex(cmp, s[i + 1..], like)
        decreases |s| - i
      {
        assert elt.next == After(s, i, s[0]) && s[i + 1..][1..] == s[i + 2..];
        if cmp(elt.next, like) >= 0 {
          break;
        }
        elt := elt.next;
        i := i + 1;
      }
      assert elt.next == After(s, i, s[0]);
    }
  }

  /** CDL_INSERT_INORDER2 */
  method InsertInorderCDL(head: Node?, add: Node, cmp: (Node, Node) -> int, ghost s: seq<Node>) returns (head': Node)
    requires IsCDL(head, s) && add !in s
    modifies add, s
    ensures IsCDL(head', InsertAt(s, LowerIndex(cmp, s, add), add))
  {
    if head != null {
      var tmp := LowerBoundCDL(head, add, cmp, s);
      head' := AppendElemCDL(head, tmp, add, s, LowerIndex(cmp, s, add));
    } else {
      head' := AppendCDL(head, add, s);
    }
  }

  // ----- singly linked lists -----

  lemma InsertedLL(s: seq<Node>, k: nat, x: Node)
    requires Distinct(s) && x !in s && k <= |s|
    requires forall i | 0 <= i < |s| && i != k - 1 :: s[i].next == After(s, i, null)
    requires k > 0 ==> s[k - 1].next == x
    requires x.next == if k < |s| then s[k] else null
    ensures IsLL(if k == 0 then x else s[0], InsertAt(s, k, x))
  {
    hide Distinct;
    InsertDistinct(s, k, x);
    InsertedNext(s, k, x, null);
  }

  /** LL_APPEND_ELEM2; without `el` it is LL_PREPEND2. */
  method AppendElemLL(head: Node?, el: Node?, add: Node, ghost s: seq<Node>, ghost k: nat) returns (head': Node)
    requires IsLL(head, s) && add !in s
    requires if el == null then k == 0 else 0 < k <= |s| && el == s[k - 1]
    modifies add`next, s`next
    ensures IsLL(head', InsertAt(s, k, add))
  {
    hide Distinct;
    Around(s, k);
    Nowhere(s, add);
    if el != null {
      add.next := el.next;
      el.next := add;
      head' := head;
    } else {
      add.next := head;
      head' := add;
    }
    InsertedLL(s, k, add);
  }

  /** LL_LOWER_BOUND2 */
  method LowerBoundLL(head: Node?, like: Node, cmp: (Node, Node) -> int, ghost s: seq<Node>) returns (elt: Node?)
    requires IsLL(head, s)
    ensures var k := LowerIndex(cmp, s, like); elt == if k == 0 then null else s[k - 1]
  {
    if head == null || cmp(head, like) >= 0 {
      elt := null;
    } else {
      elt := head;
      ghost var i := 0;
      while elt.next != null
        invariant 0 <= i < |s| && elt == s[i]
        invariant LowerIndex(cmp, s, like) == i + 1 + LowerIndex(cmp, s[i + 1..], like)
        decreases |s| - i
      {
        assert elt.next == After(s, i, null) && s[i + 1..][1..] == s[i + 2..];
        if cmp(elt.next, like) >= 0 {
          break;
        }
        elt := elt.next;
        i := i + 1;
      }
      assert elt.next == After(s, i, null);
    }
  }

  /** LL_INSERT_INORDER2 */
  method InsertInorderLL(head: Node?, add: Node, cmp: (Node, Node) -> int, ghost s: seq<Node>) returns (head': Node)
    requires IsLL(head, s) && add !in s
    modifies add`next, s`next
    ensures IsLL(head', InsertAt(s, LowerIndex(cmp, s, add), add))
  {
    if head != null {
      var tmp := LowerBoundLL(head, add, cmp, s);
      head' := AppendElemLL(head, tmp, add, s, LowerIndex(cmp, s, add));
    } else {
      head' := add;
      head'.next := null;
      InsertedLL(s, 0, add);
    }
  }
}
