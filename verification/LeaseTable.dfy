/**
 The lease table of the DHCP server (components/net/udhcp/leases.c:15-119): a fixed array
 of slots, cleaned and rewritten in place.
 */
module LeaseTable {
  import opened Basics
  import opened LeaseNames

  const TWO32 := 0x1_0000_0000

  /** `mac` is the six octets as one number; addresses are in network order. */
  datatype Lease = Lease(expires: nat, nip: nat, mac: nat, hostname: seq<byte>)

  const EMPTY := Lease(0, 0, 0, Zeros(NAME_SIZE))

  /** `mac == None` asks for a conflict lease; `now` and `later` are the two readings of the clock. */
  datatype Request = Request(mac: Option<nat>, nip: nat, leasetime: nat, name: Name, now: nat, later: nat)

  // ----- on sequences of slots -----

  predicate Clashes(l: Lease, mac: Option<nat>, nip: nat) {
    (mac.Some? && l.mac == mac.value) || (nip != 0 && l.nip == nip)
  }

  function Cleared(s: seq<Lease>, mac: Option<nat>, nip: nat): (t: seq<Lease>)
    ensures |t| == |s|
    ensures forall i :: 0 <= i < |s| ==> t[i] == if Clashes(s[i], mac, nip) then EMPTY else s[i]
  {
    seq(|s|, i requires 0 <= i < |s| => if Clashes(s[i], mac, nip) then EMPTY else s[i])
  }

  /** The first of the oldest expired leases among the first `n` slots, or -1. */
  function OldestIn(s: seq<Lease>, n: nat, now: nat): (r: int)
    requires n <= |s|
    ensures -1 <= r < n
  {
    if n == 0 then -1
    else
      var r := OldestIn(s, n - 1, now);
      if s[n - 1].expires < (if r < 0 then now else s[r].expires) then n - 1 else r
  }

  lemma {:induction false} OldestIsOldest(s: seq<Lease>, n: nat, now: nat)
    requires n <= |s|
    ensures var r := OldestIn(s, n, now);
      if r < 0 then forall i :: 0 <= i < n ==> s[i].expires >= now
      else s[r].expires < now && (forall i :: 0 <= i < n ==> s[r].expires <= s[i].expires)
                              && (forall i :: 0 <= i < r ==> s[r].expires < s[i].expires)
  {
    if n > 0 {
      OldestIsOldest(s, n - 1, now);
    }
  }

  /** The new table and the slot used, or -1. */
  function Added(s: seq<Lease>, q: Request): (r: (seq<Lease>, int))
    ensures |r.0| == |s| && -1 <= r.1 < |s|
  {
    var c := Cleared(s, q.mac, q.nip);
    var o := OldestIn(c, |c|, q.now);
    if o < 0 then (c, -1)
    else
      var mac := if q.mac.Some? then q.mac.value else 0;
      (c[o := Lease((q.later + q.leasetime) % TWO32, q.nip, mac, Field(q.name))], o)
  }

  /** The first slot with that address, or -1. */
  function FirstNip(s: seq<Lease>, nip: nat): (r: int)
    ensures -1 <= r < |s|
    ensures if r < 0 then forall i :: 0 <= i < |s| ==> s[i].nip != nip
            else s[r].nip == nip && forall i :: 0 <= i < r ==> s[i].nip != nip
  {
    if s == [] then -1
    else if s[0].nip == nip then 0
    else
      var r := FirstNip(s[1..], nip);
      assert forall i :: 0 < i < |s| ==> s[i] == s[1..][i - 1];
      if r < 0 then -1 else r + 1
  }

  // ----- what adding a lease promises -----

  /** No two slots share a nonzero hardware or IP address. */
  predicate Unique(s: seq<Lease>) {
    forall i, j :: 0 <= i < j < |s| ==>
      (s[i].mac == s[j].mac ==> s[i].mac == 0) && (s[i].nip == s[j].nip ==> s[i].nip == 0)
  }

  /** Uniqueness is kept, whatever is asked for. */
  lemma AddKeepsUnique(s: seq<Lease>, q: Request)
    requires Unique(s)
    ensures Unique(Added(s, q).0)
  {
    var c := Cleared(s, q.mac, q.nip);
    assert Unique(c);
    assert forall i :: 0 <= i < |c| ==>
      (q.mac.Some? && q.mac.value != 0 ==> c[i].mac != q.mac.value) && (q.nip != 0 ==> c[i].nip != q.nip);
  }

  /** A lease that has not expired and is not in the way stays where it is, unchanged. */
  lemma AddSpares(s: seq<Lease>, q: Request, i: nat)
    requires i < |s| && s[i].expires >= q.now && !Clashes(s[i], q.mac, q.nip)
    ensures Added(s, q).0[i] == s[i]
  {
    var c := Cleared(s, q.mac, q.nip);
    OldestIsOldest(c, |c|, q.now);
  }

  /** When no slot could be had, the table is as before exactly if the clock was running or nothing was in the way. */
  lemma NoSlotNoChange(s: seq<Lease>, q: Request)
    requires Added(s, q).1 < 0
    ensures Added(s, q).0 == s <==>
      q.now > 0 || forall i :: 0 <= i < |s| && Clashes(s[i], q.mac, q.nip) ==> s[i] == EMPTY
  {
    var c := Cleared(s, q.mac, q.nip);
    OldestIsOldest(c, |c|, q.now);
    if q.now > 0 {
      assert forall i :: 0 <= i < |s| ==> c[i].expires >= q.now;
      assert c == s;
    } else if c == s {
      assert forall i :: 0 <= i < |s| && Clashes(s[i], q.mac, q.nip) ==> s[i] == c[i];
    }
  }

  /** With the clock at 0, asking again for the station of the only lease clears it and finds no slot. */
  lemma LeaseClearedForNothing()
    ensures var s := [Lease(5, 1, 1, Zeros(NAME_SIZE))]; var q := Request(Some(1), 1, 10, NoName, 0, 0);
      Added(s, q) == ([EMPTY], -1) && s != [EMPTY]
  {
    var s := [Lease(5, 1, 1, Zeros(NAME_SIZE))];
    var c := Cleared(s, Some(1), 1);
    assert c == [EMPTY];
    assert OldestIn(c, 0, 0) == -1 && OldestIn(c, 1, 0) == -1;
  }

  /** A slot is found exactly if a lease has expired or, with the clock running, one is in the way. */
  lemma SlotFound(s: seq<Lease>, q: Request)
    requires q.now > 0
    ensures Added(s, q).1 >= 0 <==>
      exists i :: 0 <= i < |s| && (s[i].expires < q.now || Clashes(s[i], q.mac, q.nip))
  {
    var c := Cleared(s, q.mac, q.nip);
    OldestIsOldest(c, |c|, q.now);
    var o := OldestIn(c, |c|, q.now);
    if o >= 0 {
      assert s[o].expires < q.now || Clashes(s[o], q.mac, q.nip);
    }
    if i :| 0 <= i < |s| && (s[i].expires < q.now || Clashes(s[i], q.mac, q.nip)) {
      assert c[i].expires < q.now;
    }
  }

  /** The new lease is found under its address and, short of a wrap of the expiry, runs for the time granted. */
  lemma AddedIsFound(s: seq<Lease>, q: Request)
    requires Added(s, q).1 >= 0 && q.nip != 0
    ensures var (t, o) := Added(s, q);
      && FirstNip(t, q.nip) == o
      && t[o].mac == (if q.mac.Some? then q.mac.value else 0) && t[o].hostname == Field(q.name)
      && (q.later + q.leasetime < TWO32 ==> t[o].expires == q.later + q.leasetime)
  {
    hide FirstNip, OldestIn, Field, Cleared;
    var (t, o) := Added(s, q);
    var c := Cleared(s, q.mac, q.nip);
    AddressCleared(s, q.mac, q.nip);
    assert t == c[o := t[o]];
    assert forall i :: 0 <= i < |t| && i != o ==> t[i] == c[i];
    FirstNipIs(t, q.nip, o);
  }

  lemma AddressCleared(s: seq<Lease>, mac: Option<nat>, nip: nat)
    requires nip != 0
    ensures var c := Cleared(s, mac, nip); forall i :: 0 <= i < |c| ==> c[i].nip != nip
  {
  }

  /** The slot found is one that expired, of those the one that expired first, and of equals the first; every other slot
      is emptied exactly if it belongs to the station or has the nonzero address asked for. */
  lemma AddedInFull(s: seq<Lease>, q: Request)
    ensures var (t, o) := Added(s, q);
      && |t| == |s| && -1 <= o < |s|
      && (forall i :: 0 <= i < |s| && i != o ==>
            if q.mac == Some(s[i].mac) || (q.nip != 0 && s[i].nip == q.nip)
            then t[i].expires == 0 && t[i].nip == 0 && t[i].mac == 0 && t[i].hostname == seq(20, _ => 0)
            else t[i] == s[i])
      && (o >= 0 ==>
            && t[o].expires == (q.later + q.leasetime) % 0x1_0000_0000 && t[o].nip == q.nip
            && t[o].mac == (if q.mac.Some? then q.mac.value else 0) && t[o].hostname == Field(q.name))
  {
    hide OldestIn;
  }

  /** When a lease has, after the emptying, expired: an empty slot expired at 0. */
  function ExpiryAfter(l: Lease, q: Request): nat {
    if q.mac == Some(l.mac) || (q.nip != 0 && l.nip == q.nip) then 0 else l.expires
  }

  lemma FirstExpiredTaken(s: seq<Lease>, q: Request)
    ensures var o := Added(s, q).1;
      if o < 0 then forall i :: 0 <= i < |s| ==> ExpiryAfter(s[i], q) >= q.now
      else
        && ExpiryAfter(s[o], q) < q.now
        && (forall i :: 0 <= i < |s| ==> ExpiryAfter(s[o], q) <= ExpiryAfter(s[i], q))
        && (forall i :: 0 <= i < o ==> ExpiryAfter(s[o], q) < ExpiryAfter(s[i], q))
  {
    var c := Cleared(s, q.mac, q.nip);
    OldestIsOldest(c, |c|, q.now);
    assert forall i :: 0 <= i < |s| ==> c[i].expires == ExpiryAfter(s[i], q);
    hide Cleared, OldestIn, ExpiryAfter;
  }

  function AddedAll(s: seq<Lease>, qs: seq<Request>): seq<Lease>
    decreases |qs|
  {
    if qs == [] then s else AddedAll(Added(s, qs[0]).0, qs[1..])
  }

  /** Over any sequence of requests the addresses stay unique. */
  lemma {:induction false} UniqueForever(s: seq<Lease>, qs: seq<Request>)
    requires Unique(s)
    ensures Unique(AddedAll(s, qs))
    decreases |qs|
  {
    if qs != [] {
      AddKeepsUnique(s, qs[0]);
      UniqueForever(Added(s, qs[0]).0, qs[1..]);
    }
  }

  /** A lease survives any sequence of requests for other stations and addresses until it expires. */
  lemma {:induction false} LeaseSurvives(s: seq<Lease>, qs: seq<Request>, i: nat)
    requires i < |s|
    requires forall k :: 0 <= k < |qs| ==> s[i].expires >= qs[k].now && !Clashes(s[i], qs[k].mac, qs[k].nip)
    ensures |AddedAll(s, qs)| == |s| && AddedAll(s, qs)[i] == s[i]
    decreases |qs|
  {
    if qs != [] {
      AddSpares(s, qs[0], i);
      LeaseSurvives(Added(s, qs[0]).0, qs[1..], i);
    }
  }

  // ----- in place -----

  class Table {
    const leases: array<Lease>
    /** Stations and addresses reported to the access point. */
    var reports: seq<(nat, nat)>

    constructor (maxLeases: nat)
      ensures fresh(leases) && leases.Length == maxLeases
      ensures forall i :: 0 <= i < maxLeases ==> leases[i] == EMPTY
      ensures Unique(leases[..]) && reports == []
    {
      leases := new Lease[maxLeases](_ => EMPTY);
      reports := [];
    }

    method OldestExpiredLease(now: nat) returns (oldest: int)
      ensures oldest == OldestIn(leases[..], leases.Length, now)
    {
      oldest := -1;
      var oldestTime := now;
      for i := 0 to leases.Length
        invariant oldest == OldestIn(leases[..], i, now)
        invariant oldestTime == if oldest < 0 then now else leases[oldest].expires
      {
        if leases[i].expires < oldestTime {
          oldestTime := leases[i].expires;
          oldest := i;
        }
      }
    }

    method ClearLeases(mac: Option<nat>, nip: nat)
      modifies leases
      ensures leases[..] == Cleared(old(leases[..]), mac, nip)
    {
      for i := 0 to leases.Length
        invariant forall k :: 0 <= k < i ==> leases[k] == Cleared(old(leases[..]), mac, nip)[k]
        invariant forall k :: i <= k < leases.Length ==> leases[k] == old(leases[k])
      {
        if (mac.Some? && leases[i].mac == mac.value) || (nip != 0 && leases[i].nip == nip) {
          leases[i] := EMPTY;
        }
      }
    }

    method AddLease(mac: Option<nat>, nip: nat, leasetime: nat, name: Name, now: nat, later: nat) returns (slot: int)
      modifies leases, this`reports
      ensures (leases[..], slot) == Added(old(leases[..]), Request(mac, nip, leasetime, name, now, later))
      ensures reports == old(reports) + if slot < 0 then [] else [(leases[slot].mac, nip)]
    {
      ClearLeases(mac, nip);
      slot := OldestExpiredLease(now);
      if slot >= 0 {
        var m := 0;
        if mac.Some? {
          m := mac.value;
        }
        var hostname := StoreName(name);
        leases[slot] := Lease((later + leasetime) % TWO32, nip, m, hostname[..]);
        reports := reports + [(m, nip)];
      }
    }

    method FindLeaseByMac(mac: nat) returns (slot: int)
      ensures -1 <= slot < leases.Length
      ensures if slot < 0 then forall i :: 0 <= i < leases.Length ==> leases[i].mac != mac
              else leases[slot].mac == mac && forall i :: 0 <= i < slot ==> leases[i].mac != mac
    {
      for i := 0 to leases.Length
        invariant forall k :: 0 <= k < i ==> leases[k].mac != mac
      {
        if leases[i].mac == mac {
          return i;
        }
      }
      return -1;
    }

    method FindLeaseByNip(nip: nat) returns (slot: int)
      ensures slot == FirstNip(leases[..], nip)
    {
      for i := 0 to leases.Length
        invariant forall k :: 0 <= k < i ==> leases[k].nip != nip
      {
        if leases[i].nip == nip {
          FirstNipIs(leases[..], nip, i);
          return i;
        }
      }
      FirstNipIs(leases[..], nip, -1);
      return -1;
    }
  }

  lemma FirstNipIs(s: seq<Lease>, nip: nat, r: int)
    requires -1 <= r < |s|
    requires if r < 0 then forall i :: 0 <= i < |s| ==> s[i].nip != nip
             else s[r].nip == nip && forall i :: 0 <= i < r ==> s[i].nip != nip
    ensures FirstNip(s, nip) == r
  {
  }
}
