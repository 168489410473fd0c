/** The nodes of components/osal/ulist.h and the three list shapes its macros maintain. */
module ListShapes {
  class Node {
    var next: Node?
    var prev: Node?
  }

  // ----- shapes -----

  ghost predicate Distinct(s: seq<Node>) {
    forall i, j | 0 <= i < j < |s| :: s[i] != s[j]
  }

  /** The node behind `s[i]`; behind the last one comes `stop`. */
  ghost function After(s: seq<Node>, i: nat, stop: Node?): Node?
    requires i < |s|
  {
    if i + 1 < |s| then s[i + 1] else stop
  }

  /** The node in front of `s[i]`; in front of the first one comes `first`. */
  ghost function Before(s: seq<Node>, i: nat, first: Node?): Node?
    requires i < |s|
  {
    if i == 0 then first else s[i - 1]
  }

  /** Nodes `lo` to `hi` of `s` still point to the node behind them. */
  ghost predicate Linked(s: seq<Node>, lo: int, hi: int, stop: Node?)
    reads s
  {
    forall i | 0 <= i < |s| && lo <= i < hi :: s[i].next == After(s, i, stop)
  }

  /** Each node but the last points to the one behind it. */
  ghost predicate Chained(t: seq<Node>)
    reads t
  {
    forall i | 0 <= i < |t| - 1 :: t[i].next == After(t, i, null)
  }

  /** Each node but the first points back to the one in front of it, the first to `first`. */
  ghost predicate Backed(t: seq<Node>, first: Node?)
    reads t
  {
    forall i | 0 <= i < |t| :: t[i].prev == Before(t, i, first)
  }

  ghost predicate Links(s: seq<Node>, stop: Node?, first: Node?)
    reads s
  {
    Distinct(s) && Linked(s, 0, |s|, stop) && Backed(s, first)
  }

  ghost function HeadOf(s: seq<Node>): Node? {
    if s == [] then null else s[0]
  }

  /** A null-terminated list reached from `head`. */
  ghost predicate IsLL(head: Node?, s: seq<Node>)
    reads s
  {
    head == HeadOf(s) && Distinct(s) && Linked(s, 0, |s|, null)
  }

  /** The same with `prev` mirroring `next`, the head's `prev` being the tail. */
  ghost predicate IsDL(head: Node?, s: seq<Node>)
    reads s
  {
    head == HeadOf(s) && (s != [] ==> Links(s, null, s[|s| - 1]))
  }

  /** A ring in both directions. */
  ghost predicate IsCDL(head: Node?, s: seq<Node>)
    reads s
  {
    head == HeadOf(s) && (s != [] ==> Links(s, s[0], s[|s| - 1]))
  }

  /** The three kinds of lists. */
  datatype Shape = LL | DL | CDL

  ghost predicate Is(shape: Shape, head: Node?, s: seq<Node>)
    reads s
  {
    match shape
    case LL => IsLL(head, s)
    case DL => IsDL(head, s)
    case CDL => IsCDL(head, s)
  }
}
