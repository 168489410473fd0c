/**
 What each packet and each expiry does to the DHCP relay (components/net/udhcp/dhcprelay.c:56-100, 193-249,
 355-369), written out.
 */
module RelayEffects {
  import opened Basics
  import opened RelaySpec

  /** DHCPDISCOVER, DHCPREQUEST, DHCPDECLINE, DHCPRELEASE and DHCPINFORM are remembered and passed on, with the address
      of the interface they came in on, or ours if that cannot be read. */
  lemma RequestPassed(r: Relay, client: nat, ip: int, xid: int, kind: int, iface: Option<int>, now: nat)
    requires kind == 1 || kind == 3 || kind == 4 || kind == 7 || kind == 8
    ensures Step(r, FromClient(client, ip, xid, kind, iface, now)) == r.(
      es := [Entry(now, client, xid, ip)] + r.es,
      log := r.log + [ToServer(xid, if iface.Some? then iface.value else r.ourNip)])
  {
  }

  /** Nothing else from a client is. */
  lemma RequestDropped(r: Relay, client: nat, ip: int, xid: int, kind: int, iface: Option<int>, now: nat)
    requires kind != 1 && kind != 3 && kind != 4 && kind != 7 && kind != 8
    ensures Step(r, FromClient(client, ip, xid, kind, iface, now)) == r
  {
  }

  /** Request `k` is the newest with the xid. */
  predicate Newest(es: seq<Entry>, xid: int, k: nat) {
    k < |es| && es[k].xid == xid && forall j :: 0 <= j < k ==> es[j].xid != xid
  }

  lemma {:induction false} NewestIs(es: seq<Entry>, xid: int, k: nat)
    requires Newest(es, xid, k)
    ensures IndexOf(es, xid) == k
  {
    if k > 0 {
      NewestIs(es[1..], xid, k - 1);
    }
  }

  lemma {:induction false} NoneFound(es: seq<Entry>, xid: int)
    requires forall j :: 0 <= j < |es| ==> es[j].xid != xid
    ensures IndexOf(es, xid) == -1
  {
    if es != [] {
      NoneFound(es[1..], xid);
    }
  }

  /** A DHCPOFFER, DHCPACK or DHCPNAK that can be sent goes to the client of the newest request with its xid, to that
      request's address, or to 255.255.255.255 if it came from 0.0.0.0; the requests with the xid are forgotten. */
  lemma ReplyPassed(r: Relay, xid: int, kind: int, k: nat)
    requires (kind == 2 || kind == 5 || kind == 6) && Newest(r.es, xid, k)
    ensures var s := Step(r, FromServer(xid, kind, true)); var e := r.es[k];
      && s.log == r.log + [ToClient(e.client, if e.ip == 0 then 0xffff_ffff else e.ip, xid)]
      && s.ourNip == r.ourNip
      && forall x: Entry :: multiset(s.es)[x] == if x.xid == xid then 0 else multiset(r.es)[x]
  {
    NewestIs(r.es, xid, k);
    var es := r.es[k := Addressed(r.es[k])];
    forall x: Entry ensures multiset(Without(es, xid))[x] == if x.xid == xid then 0 else multiset(r.es)[x] {
      WithoutKeeps(es, xid, x);
    }
  }

  lemma {:induction false} WithoutKeeps(es: seq<Entry>, xid: int, x: Entry)
    ensures multiset(Without(es, xid))[x] == if x.xid == xid then 0 else multiset(es)[x]
  {
    if es != [] {
      WithoutKeeps(es[1..], xid, x);
      assert es == [es[0]] + es[1..];
    }
  }

  /** If it cannot be sent, only the address of that request is made the broadcast address where it was 0.0.0.0. */
  lemma ReplyUnsent(r: Relay, xid: int, kind: int, k: nat)
    requires (kind == 2 || kind == 5 || kind == 6) && Newest(r.es, xid, k)
    ensures var e := r.es[k];
      Step(r, FromServer(xid, kind, false)) == r.(es := r.es[k := e.(ip := if e.ip == 0 then 0xffff_ffff else e.ip)])
  {
    NewestIs(r.es, xid, k);
  }

  /** Nothing else from the server changes anything, and nothing for which no request is remembered. */
  lemma ReplyDropped(r: Relay, xid: int, kind: int, sent: bool)
    requires (kind != 2 && kind != 5 && kind != 6) || forall j :: 0 <= j < |r.es| ==> r.es[j].xid != xid
    ensures Step(r, FromServer(xid, kind, sent)) == r
  {
    if forall j :: 0 <= j < |r.es| ==> r.es[j].xid != xid {
      NoneFound(r.es, xid);
    }
  }

  /** At the end of a turn exactly the requests older than 120 seconds, in 32-bit arithmetic, are forgotten. */
  lemma OldForgotten(r: Relay, now: nat)
    ensures var s := Step(r, EndOfTurn(now));
      && s.log == r.log && s.ourNip == r.ourNip
      && forall x: Entry ::
           multiset(s.es)[x] == if (now - x.timestamp) % 0x1_0000_0000 > 120 then 0 else multiset(r.es)[x]
  {
    forall x: Entry
      ensures multiset(Unexpired(r.es, now))[x] ==
        if (now - x.timestamp) % 0x1_0000_0000 > 120 then 0 else multiset(r.es)[x]
    {
      UnexpiredKeeps(r.es, now, x);
    }
  }

  lemma {:induction false} UnexpiredKeeps(es: seq<Entry>, now: nat, x: Entry)
    ensures multiset(Unexpired(es, now))[x] ==
      if (now - x.timestamp) % 0x1_0000_0000 > 120 then 0 else multiset(es)[x]
  {
    if es != [] {
      UnexpiredKeeps(es[1..], now, x);
      assert es == [es[0]] + es[1..];
    }
  }
}
