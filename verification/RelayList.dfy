/**
 The relay's list in place (components/net/udhcp/dhcprelay.c:28-100, 193-249): items linked
 behind a head item, unlinked in passing.
 */
module RelayList {
  import opened Basics
  import opened RelaySpec

  class XidItem {
    const timestamp: nat
    const client: nat
    const xid: int
    var ip: int
    var next: XidItem?

    constructor (timestamp: nat, client: nat, xid: int, ip: int, next: XidItem?)
      ensures this.timestamp == timestamp && this.client == client && this.xid == xid
      ensures this.ip == ip && this.next == next
    {
      this.timestamp, this.client, this.xid, this.ip, this.next := timestamp, client, xid, ip, next;
    }

    function View(): Entry
      reads this
    {
      Entry(timestamp, client, xid, ip)
    }
  }

  ghost predicate Linked(ns: seq<XidItem>)
    reads ns
  {
    && (forall i, j :: 0 <= i < j < |ns| ==> ns[i] != ns[j])
    && (forall i :: 0 <= i < |ns| ==> ns[i].next == Behind(ns, i))
  }

  ghost function Behind(ns: seq<XidItem>, i: nat): XidItem?
    requires i < |ns|
  {
    if i + 1 < |ns| then ns[i + 1] else null
  }

  ghost function Views(ns: seq<XidItem>): (es: seq<Entry>)
    reads ns
    ensures |es| == |ns| && forall i :: 0 <= i < |ns| ==> es[i] == ns[i].View()
  {
    seq(|ns|, i requires 0 <= i < |ns| reads ns => ns[i].View())
  }

  ghost function Unlinked(ns: seq<XidItem>, k: nat): seq<XidItem>
    requires k < |ns|
  {
    ns[..k] + ns[k + 1..]
  }

  lemma UnlinkKeepsDistinct(ns: seq<XidItem>, k: nat)
    requires 0 < k < |ns| && forall i, j :: 0 <= i < j < |ns| ==> ns[i] != ns[j]
    ensures forall i, j :: 0 <= i < j < |Unlinked(ns, k)| ==> Unlinked(ns, k)[i] != Unlinked(ns, k)[j]
    ensures forall i :: 0 <= i < |ns| && ns[i] == ns[k - 1] ==> i == k - 1
  {
  }

  /** The items that stay when those expired, or those with an xid, are dropped. */
  ghost function Living(ns: seq<XidItem>, now: nat): seq<XidItem> {
    if ns == [] then []
    else (if TooOld(ns[0].timestamp, now) then [] else [ns[0]]) + Living(ns[1..], now)
  }

  ghost function Others(ns: seq<XidItem>, xid: int): seq<XidItem> {
    if ns == [] then [] else (if ns[0].xid == xid then [] else [ns[0]]) + Others(ns[1..], xid)
  }

  lemma {:induction false} LivingViews(ns: seq<XidItem>, now: nat)
    ensures Views(Living(ns, now)) == Unexpired(Views(ns), now)
    ensures forall i :: 0 <= i < |Living(ns, now)| ==> Living(ns, now)[i] in ns
    decreases |ns|
  {
    hide TooOld;
    if ns != [] {
      LivingViews(ns[1..], now);
      assert Views(ns)[1..] == Views(ns[1..]);
      assert Views([ns[0]] + Living(ns[1..], now)) == [ns[0].View()] + Views(Living(ns[1..], now));
    }
  }

  lemma {:induction false} OthersViews(ns: seq<XidItem>, xid: int)
    ensures Views(Others(ns, xid)) == Without(Views(ns), xid)
    ensures forall i :: 0 <= i < |Others(ns, xid)| ==> Others(ns, xid)[i] in ns
    decreases |ns|
  {
    if ns != [] {
      OthersViews(ns[1..], xid);
      assert Views(ns)[1..] == Views(ns[1..]);
      assert Views([ns[0]] + Others(ns[1..], xid)) == [ns[0].View()] + Views(Others(ns[1..], xid));
    }
  }

  lemma IndexStep(es: seq<Entry>, j: nat, xid: int)
    requires j <= |es|
    ensures es[0..] == es
    ensures j == |es| ==> IndexOf(es[j..], xid) == -1
    ensures j < |es| && es[j].xid == xid ==> IndexOf(es[j..], xid) == 0
    ensures j < |es| && es[j].xid != xid ==>
      IndexOf(es[j..], xid) == if IndexOf(es[j + 1..], xid) < 0 then -1 else 1 + IndexOf(es[j + 1..], xid)
  {
    assert j < |es| ==> es[j..][1..] == es[j + 1..];
  }

  lemma LivingStep(all: seq<XidItem>, j: nat, now: nat)
    requires j <= |all|
    ensures j == |all| ==> Living(all[j..], now) == []
    ensures j < |all| && TooOld(all[j].timestamp, now) ==> Living(all[j..], now) == Living(all[j + 1..], now)
    ensures j < |all| && !TooOld(all[j].timestamp, now) ==>
      Living(all[j..], now) == [all[j]] + Living(all[j + 1..], now)
  {
    hide TooOld;
    assert j < |all| ==> all[j..][1..] == all[j + 1..];
  }

  lemma OthersStep(all: seq<XidItem>, j: nat, xid: int)
    requires j <= |all|
    ensures j == |all| ==> Others(all[j..], xid) == []
    ensures j < |all| && all[j].xid == xid ==> Others(all[j..], xid) == Others(all[j + 1..], xid)
    ensures j < |all| && all[j].xid != xid ==> Others(all[j..], xid) == [all[j]] + Others(all[j + 1..], xid)
  {
    assert j < |all| ==> all[j..][1..] == all[j + 1..];
  }

  /** The sequences at one step of a loop that keeps `ns[..k]` and has `all[j..]` before it. */
  lemma SpliceStep(ns: seq<XidItem>, all: seq<XidItem>, k: nat, j: nat)
    requires 0 < k < |ns| && j <= |all| && ns[k..] == all[j..] && forall i :: 0 <= i < |ns| ==> ns[i] in all
    ensures j < |all| && ns[k] == all[j] && ns[k + 1..] == all[j + 1..] && all[j..] == [ns[k]] + all[j + 1..]
    ensures ns[1..k + 1] == ns[1..k] + [ns[k]]
    ensures var u := Unlinked(ns, k);
      |u| == |ns| - 1 && u[k..] == all[j + 1..] && u[1..k] == ns[1..k] && u[k - 1] == ns[k - 1] &&
      forall i :: 0 <= i < |u| ==> u[i] in all
  {
    assert ns[k..][0] == all[j..][0] && ns[k..][1..] == all[j..][1..];
    var u := Unlinked(ns, k);
    forall i | 0 <= i < |u| ensures u[i] in all {
      assert u[i] == if i < k then ns[i] else ns[i + 1];
    }
  }

  lemma Regroup(a: seq<XidItem>, x: XidItem, b: seq<XidItem>)
    ensures a + ([x] + b) == a + [x] + b
  {
  }

  lemma LinkedParts(ns: seq<XidItem>)
    requires Linked(ns)
    ensures forall i, j :: 0 <= i < j < |ns| ==> ns[i] != ns[j]
    ensures forall i :: 0 <= i < |ns| ==> ns[i].next == Behind(ns, i)
  {
  }

  lemma LinkedAdded(before: seq<XidItem>, item: XidItem, ns: seq<XidItem>)
    requires before != [] && item !in before && ns == [before[0], item] + before[1..]
    requires forall i, j :: 0 <= i < j < |before| ==> before[i] != before[j]
    requires forall i :: 0 < i < |before| ==> before[i].next == Behind(before, i)
    requires before[0].next == item && item.next == Behind(before, 0)
    ensures Linked(ns)
  {
    assert forall i :: 0 < i < |before| ==> ns[i + 1] == before[i];
    forall i, j | 0 <= i < j < |ns| ensures ns[i] != ns[j] {
      assert ns[i] == if i == 0 then before[0] else if i == 1 then item else before[i - 1];
      assert ns[j] == if j == 1 then item else before[j - 1];
    }
    forall i | 0 <= i < |ns| ensures ns[i].next == Behind(ns, i) {
      assert ns[i] == if i == 0 then before[0] else if i == 1 then item else before[i - 1];
    }
  }

  lemma AddedViews(item: XidItem, rest: seq<XidItem>, ns: seq<XidItem>)
    requires |ns| == |rest| + 2 && ns[1..] == [item] + rest
    ensures Views(ns[1..]) == [item.View()] + Views(rest)
  {
  }

  /** What a reply does, case by case. */
  lemma ReplyStep(r: Relay, xid: int, kind: int, sent: bool)
    ensures var k := IndexOf(r.es, xid); var s := Step(r, FromServer(xid, kind, sent));
      if k < 0 || !FromServerKind(kind) then s == r
      else
        var es := r.es[k := Addressed(r.es[k])];
        s == if sent then r.(es := Without(es, xid), log := r.log + [ToClient(es[k].client, es[k].ip, xid)])
             else r.(es := es)
  {
  }

  lemma RunNothing(r: Relay)
    ensures Run(r, []) == r
  {
  }

  lemma {:induction false} RunConcat(r: Relay, a: seq<Event>, b: seq<Event>)
    ensures Run(r, a + b) == Run(Run(r, a), b)
    decreases |a|
  {
    if a == [] {
      assert a + b == b;
    } else {
      RunConcat(Step(r, a[0]), a[1..], b);
      assert (a + b)[1..] == a[1..] + b;
    }
  }

  lemma {:induction false} RunOn(r: Relay, evs: seq<Event>, e: Event)
    ensures Run(r, evs + [e]) == Step(Run(r, evs), e)
    decreases |evs|
  {
    if evs == [] {
      assert [e][1..] == [];
    } else {
      RunOn(Step(r, evs[0]), evs[1..], e);
      assert (evs + [e])[1..] == evs[1..] + [e];
    }
  }

  /** The relay: a head item, the items behind it, and the packets sent. */
  class RelayState {
    const ourNip: int
    const head: XidItem
    ghost var nodes: seq<XidItem>
    var log: seq<Out>

    ghost predicate Valid()
      reads this, nodes
    {
      nodes != [] && nodes[0] == head && Linked(nodes)
    }

    ghost function Entries(): seq<Entry>
      requires Valid()
      reads this, nodes
    {
      Views(nodes[1..])
    }

    ghost function State(): Relay
      requires Valid()
      reads this, nodes
    {
      Relay(ourNip, Entries(), log)
    }

    constructor (ourNip: int)
      ensures Valid() && State() == Relay(ourNip, [], [])
    {
      this.ourNip := ourNip;
      head := new XidItem(0, 0, 0, 0, null);
      log := [];
      new;
      nodes := [head];
    }

    method XidAdd(xid: int, ip: int, client: nat, now: nat)
      requires Valid()
      modifies this`nodes, head`next
      ensures Valid() && Entries() == [Entry(now, client, xid, ip)] + old(Entries())
      ensures |nodes| == |old(nodes)| + 1 && fresh(nodes[1]) && nodes == [head, nodes[1]] + old(nodes[1..])
    {
      hide Linked, Views, Behind;
      var item := new XidItem(now, client, xid, ip, head.next);
      ghost var before := nodes;
      LinkedParts(before);
      head.next := item;
      nodes := [head, item] + before[1..];
      assert nodes[1..] == [item] + before[1..];
      LinkedAdded(before, item, nodes);
      AddedViews(item, before[1..], nodes);
    }

    /** `last->next = item->next` */
    method Unlink(last: XidItem, item: XidItem, ghost k: nat)
      requires Valid() && 0 < k < |nodes| && last == nodes[k - 1] && item == nodes[k]
      modifies this`nodes, last`next
      ensures Valid() && nodes == Unlinked(old(nodes), k) && last.next == if k < |nodes| then nodes[k] else null
    {
      UnlinkKeepsDistinct(nodes, k);
      last.next := item.next;
      nodes := Unlinked(nodes, k);
    }

    lemma HeadOfNodes()
      requires Valid()
      ensures head.next == if 1 < |nodes| then nodes[1] else null
    {
    }

    lemma NodeBehind(k: nat)
      requires Valid() && k < |nodes|
      ensures nodes[k].next == if k + 1 < |nodes| then nodes[k + 1] else null
    {
    }

    method XidExpire(now: nat)
      requires Valid()
      modifies this`nodes, nodes`next
      ensures Valid() && nodes == [head] + Living(old(nodes[1..]), now)
      ensures Entries() == Unexpired(old(Entries()), now)
    {
      hide Linked, Views, TooOld, Unlinked, Living;
      ghost var all := nodes;
      var item := head.next;
      var last := head;
      ghost var k, j := 1, 1;
      HeadOfNodes();
      while item != null
        invariant Valid() && 1 <= k <= |nodes| && 1 <= j <= |all| && last == nodes[k - 1]
        invariant forall i :: 0 <= i < |nodes| ==> nodes[i] in all
        invariant item == if k < |nodes| then nodes[k] else null
        invariant nodes[k..] == all[j..]
        invariant nodes[1..k] + Living(all[j..], now) == Living(all[1..], now)
        decreases |all| - j
      {
        NodeBehind(k);
        SpliceStep(nodes, all, k, j);
        LivingStep(all, j, now);
        if TooOld(item.timestamp, now) {
          Unlink(last, item, k);
          item := last.next;
        } else {
          Regroup(nodes[1..k], item, Living(all[j + 1..], now));
          last := item;
          item := item.next;
          k := k + 1;
        }
        j := j + 1;
      }
      assert nodes[1..k] == nodes[1..] && j == |all|;
      LivingStep(all, j, now);
      LivingViews(all[1..], now);
      assert Views(all[1..]) == old(Views(nodes[1..]));
    }

    method XidDel(xid: int)
      requires Valid()
      modifies this`nodes, nodes`next
      ensures Valid() && nodes == [head] + Others(old(nodes[1..]), xid)
      ensures Entries() == Without(old(Entries()), xid)
    {
      hide Linked, Views, TooOld, Unlinked, Others;
      ghost var all := nodes;
      var item := head.next;
      var last := head;
      ghost var k, j := 1, 1;
      HeadOfNodes();
      while item != null
        invariant Valid() && 1 <= k <= |nodes| && 1 <= j <= |all| && last == nodes[k - 1]
        invariant forall i :: 0 <= i < |nodes| ==> nodes[i] in all
        invariant item == if k < |nodes| then nodes[k] else null
        invariant nodes[k..] == all[j..]
        invariant nodes[1..k] + Others(all[j..], xid) == Others(all[1..], xid)
        decreases |all| - j
      {
        NodeBehind(k);
        SpliceStep(nodes, all, k, j);
        OthersStep(all, j, xid);
        if item.xid == xid {
          Unlink(last, item, k);
          item := last.next;
        } else {
          Regroup(nodes[1..k], item, Others(all[j + 1..], xid));
          last := item;
          item := item.next;
          k := k + 1;
        }
        j := j + 1;
      }
      assert nodes[1..k] == nodes[1..] && j == |all|;
      OthersStep(all, j, xid);
      OthersViews(all[1..], xid);
      assert Views(all[1..]) == old(Views(nodes[1..]));
    }

    method XidFind(xid: int) returns (item: XidItem?)
      requires Valid()
      ensures var k := IndexOf(Entries(), xid); item == if k < 0 then null else nodes[k + 1]
    {
      hide Linked, IndexOf, Views;
      item := head.next;
      ghost var es := Entries();
      ghost var j := 0;
      HeadOfNodes();
      IndexStep(es, 0, xid);
      while item != null
        invariant 0 <= j <= |es| && item == if j < |es| then nodes[j + 1] else null
        invariant IndexOf(es, xid) == if IndexOf(es[j..], xid) < 0 then -1 else j + IndexOf(es[j..], xid)
        decreases |es| - j
      {
        IndexStep(es, j, xid);
        assert es[j] == nodes[1..][j].View();
        if item.xid == xid {
          break;
        }
        NodeBehind(j + 1);
        item := item.next;
        j := j + 1;
      }
      IndexStep(es, j, xid);
    }

    method PassToServer(xid: int, kind: int, client: nat, ip: int, gateway: int, ghost iface: Option<int>, now: nat)
      requires Valid() && gateway == Gateway(ourNip, iface)
      modifies this`nodes, this`log, head`next
      ensures Valid() && State() == Step(old(State()), FromClient(client, ip, xid, kind, iface, now))
      ensures forall i :: 0 <= i < |nodes| ==> nodes[i] in old(nodes) || fresh(nodes[i])
    {
      hide Linked, Views, Unexpired, Without, IndexOf, TooOld;
      if kind != 1 && kind != 3 && kind != 4 && kind != 7 && kind != 8 {
        return;
      }
      XidAdd(xid, ip, client, now);
      log := log + [ToServer(xid, gateway)];
    }

    method FixAddress(item: XidItem, ghost k: nat)
      requires Valid() && k + 1 < |nodes| && item == nodes[k + 1]
      modifies item`ip
      ensures Valid() && Entries() == old(Entries())[k := Addressed(old(Entries())[k])]
      ensures item.View() == Entries()[k]
    {
      if item.ip == 0 {
        item.ip := BROADCAST;
      }
      assert forall i :: 0 <= i < |nodes[1..]| && i != k ==> nodes[1..][i] != item;
    }

    /** `sent` tells whether the packet could be sent. */
    method PassToClient(xid: int, kind: int, sent: bool)
      requires Valid()
      modifies this`nodes, this`log, nodes
      ensures Valid() && State() == Step(old(State()), FromServer(xid, kind, sent))
      ensures forall i :: 0 <= i < |nodes| ==> nodes[i] in old(nodes)
    {
      hide Without, Linked, IndexOf, Views, Others, Unexpired, TooOld, Step, Addressed;
      ReplyStep(State(), xid, kind, sent);
      ghost var es := Entries();
      ghost var k := IndexOf(es, xid);
      var item := XidFind(xid);
      if item == null {
        return;
      }
      if kind != 2 && kind != 5 && kind != 6 {
        return;
      }
      FixAddress(item, k);
      if sent {
        log := log + [ToClient(item.client, item.ip, xid)];
        OthersViews(nodes[1..], xid);
        XidDel(xid);
      }
    }

    /** The client sockets, one after another. */
    method PassRequests(requests: seq<Event>)
      requires Valid() && forall i :: 0 <= i < |requests| ==> requests[i].FromClient?
      modifies this`nodes, this`log, nodes
      ensures Valid() && State() == Run(old(State()), requests)
      ensures forall i :: 0 <= i < |nodes| ==> nodes[i] in old(nodes) || fresh(nodes[i])
    {
      hide Linked, Views, Step, Run;
      ghost var s := State();
      RunNothing(s);
      assert requests[..0] == [];
      for i := 0 to |requests|
        invariant Valid() && State() == Run(s, requests[..i])
        invariant forall i :: 0 <= i < |nodes| ==> nodes[i] in old(nodes) || fresh(nodes[i])
      {
        var e := requests[i];
        RunOn(s, requests[..i], e);
        var gateway := ourNip;
        if e.iface.Some? {
          gateway := e.iface.value;
        }
        PassToServer(e.xid, e.kind, e.client, e.ip, gateway, e.iface, e.now);
        assert requests[..i + 1] == requests[..i] + [e];
      }
      assert requests[..|requests|] == requests;
    }

    method ExpireTurn(now: nat)
      requires Valid()
      modifies this`nodes, nodes`next
      ensures Valid() && State() == Step(old(State()), EndOfTurn(now))
    {
      XidExpire(now);
    }

    /** One turn of the main loop: the server socket, the client sockets, and expiry. */
    method Turn(reply: Option<Event>, requests: seq<Event>, now: nat)
      requires Valid()
      requires reply.Some? ==> reply.value.FromServer?
      requires forall i :: 0 <= i < |requests| ==> requests[i].FromClient?
      modifies this`nodes, this`log, nodes
      ensures Valid()
      ensures var first := if reply.Some? then [reply.value] else [];
        State() == Run(old(State()), first + requests + [EndOfTurn(now)])
    {
      hide Linked, Views, Step, Run;
      ghost var s := State();
      ghost var evs: seq<Event> := [];
      RunNothing(s);
      if reply.Some? {
        var e := reply.value;
        RunOn(s, [], e);
        PassToClient(e.xid, e.kind, e.sent);
        evs := [e];
        assert [] + [e] == evs;
      }
      RunConcat(s, evs, requests);
      PassRequests(requests);
      RunOn(s, evs + requests, EndOfTurn(now));
      ExpireTurn(now);
    }
  }
}
