/**
 What the DHCP relay does (components/net/udhcp/dhcprelay.c:22-100, 188-249, 283-370): it keeps the
 requests it passed on, newest first, and sends each reply to the client of the newest one.
 */
module RelaySpec {
  import opened Basics

  const TWO32 := 0x1_0000_0000
  const MAX_LIFETIME := 120
  const BROADCAST := 0xffff_ffff

  datatype Entry = Entry(timestamp: nat, client: nat, xid: int, ip: int)

  /** Packets passed on; those to the server carry the gateway address filled in. */
  datatype Out = ToServer(xid: int, gateway: int) | ToClient(client: nat, ip: int, xid: int)

  /** `kind` is the DHCP message type, or -1; `sent` tells whether sending succeeds; `iface` is the address of the
      interface a request came in on, if it can be read. */
  datatype Event =
    | FromServer(xid: int, kind: int, sent: bool)
    | FromClient(client: nat, ip: int, xid: int, kind: int, iface: Option<int>, now: nat)
    | EndOfTurn(now: nat)

  predicate FromClientKind(kind: int) {
    kind == 1 || kind == 3 || kind == 4 || kind == 7 || kind == 8
  }

  predicate FromServerKind(kind: int) {
    kind == 2 || kind == 5 || kind == 6
  }

  // ----- the list of requests -----

  /** In 32-bit unsigned arithmetic. */
  predicate TooOld(timestamp: nat, now: nat) {
    (now - timestamp) % TWO32 > MAX_LIFETIME
  }

  predicate Expired(e: Entry, now: nat) {
    TooOld(e.timestamp, now)
  }

  function Unexpired(es: seq<Entry>, now: nat): seq<Entry> {
    if es == [] then [] else (if Expired(es[0], now) then [] else [es[0]]) + Unexpired(es[1..], now)
  }

  function Without(es: seq<Entry>, xid: int): seq<Entry> {
    if es == [] then [] else (if es[0].xid == xid then [] else [es[0]]) + Without(es[1..], xid)
  }

  /** Index of the newest request with that xid, or -1. */
  function IndexOf(es: seq<Entry>, xid: int): (k: int)
    ensures -1 <= k < |es|
    ensures k >= 0 ==> es[k].xid == xid
  {
    if es == [] then -1
    else if es[0].xid == xid then 0
    else
      var k := IndexOf(es[1..], xid);
      if k < 0 then -1 else k + 1
  }

  function Lookup(es: seq<Entry>, xid: int): Option<Entry> {
    var k := IndexOf(es, xid);
    if k < 0 then None else Some(es[k])
  }

  /** Replies to 0.0.0.0 go to the broadcast address. */
  function Addressed(e: Entry): Entry {
    if e.ip == 0 then e.(ip := BROADCAST) else e
  }

  /** Our address on the client's interface, or else on the server's. */
  function Gateway(ourNip: int, iface: Option<int>): int {
    if iface.Some? then iface.value else ourNip
  }

  datatype Relay = Relay(ourNip: int, es: seq<Entry>, log: seq<Out>)

  function Step(r: Relay, e: Event): Relay {
    match e
    case FromServer(xid, kind, sent) =>
      var k := IndexOf(r.es, xid);
      if k < 0 || !FromServerKind(kind) then r
      else
        var a := Addressed(r.es[k]);
        var es := r.es[k := a];
        if sent then r.(es := Without(es, xid), log := r.log + [ToClient(a.client, a.ip, xid)]) else r.(es := es)
    case FromClient(client, ip, xid, kind, iface, now) =>
      if FromClientKind(kind)
      then r.(es := [Entry(now, client, xid, ip)] + r.es, log := r.log + [ToServer(xid, Gateway(r.ourNip, iface))])
      else r
    case EndOfTurn(now) =>
      r.(es := Unexpired(r.es, now))
  }

  function Run(r: Relay, evs: seq<Event>): Relay
    decreases |evs|
  {
    if evs == [] then r else Run(Step(r, evs[0]), evs[1..])
  }

  // ----- the same with one remembered request per xid -----

  datatype Simple = Simple(ourNip: int, m: map<int, Entry>, log: seq<Out>)

  function SimpleStep(r: Simple, e: Event): Simple {
    match e
    case FromServer(xid, kind, sent) =>
      if xid !in r.m || !FromServerKind(kind) then r
      else
        var a := Addressed(r.m[xid]);
        if sent then r.(m := r.m - {xid}, log := r.log + [ToClient(a.client, a.ip, xid)]) else r.(m := r.m[xid := a])
    case FromClient(client, ip, xid, kind, iface, now) =>
      if FromClientKind(kind)
      then r.(m := r.m[xid := Entry(now, client, xid, ip)], log := r.log + [ToServer(xid, Gateway(r.ourNip, iface))])
      else r
    case EndOfTurn(now) =>
      r.(m := map x | x in r.m && !Expired(r.m[x], now) :: r.m[x])
  }

  function SimpleRun(r: Simple, evs: seq<Event>): Simple
    decreases |evs|
  {
    if evs == [] then r else SimpleRun(SimpleStep(r, evs[0]), evs[1..])
  }

  // ----- looking up -----

  lemma LookupCons(e: Entry, es: seq<Entry>, xid: int)
    ensures Lookup([e] + es, xid) == if e.xid == xid then Some(e) else Lookup(es, xid)
  {
    assert ([e] + es)[1..] == es;
  }

  lemma {:induction false} LookupWithout(es: seq<Entry>, xid: int, y: int)
    ensures Lookup(Without(es, xid), y) == if y == xid then None else Lookup(es, y)
  {
    if es != [] {
      LookupWithout(es[1..], xid, y);
      LookupCons(es[0], Without(es[1..], xid), y);
      LookupCons(es[0], es[1..], y);
      assert [es[0]] + es[1..] == es;
      assert [] + Without(es[1..], xid) == Without(es[1..], xid);
    }
  }

  lemma {:induction false} LookupUpdate(es: seq<Entry>, k: nat, e: Entry, y: int)
    requires k < |es| && IndexOf(es, es[k].xid) == k && e.xid == es[k].xid
    ensures Lookup(es[k := e], y) == if y == e.xid then Some(e) else Lookup(es, y)
  {
    assert [es[0]] + es[1..] == es;
    LookupCons(es[0], es[1..], y);
    if k == 0 {
      assert es[0 := e] == [e] + es[1..];
      LookupCons(e, es[1..], y);
    } else {
      assert es[k := e] == [es[0]] + es[1..][k - 1 := e];
      LookupUpdate(es[1..], k - 1, e, y);
      LookupCons(es[0], es[1..][k - 1 := e], y);
    }
  }

  /** Newest first, on a clock that does not run backwards and has not wrapped, with clients among `n` sockets. */
  predicate Ordered(es: seq<Entry>, now: nat, n: nat) {
    && now < TWO32
    && (forall i :: 0 <= i < |es| ==> es[i].timestamp <= now && 1 <= es[i].client < n)
    && (forall i, j :: 0 <= i < j < |es| ==> es[i].timestamp >= es[j].timestamp)
  }

  /** Nothing unexpired stands behind something expired. */
  lemma {:induction false} AllExpired(es: seq<Entry>, now: nat, n: nat)
    requires Ordered(es, now, n) && es != [] && Expired(es[0], now)
    ensures Unexpired(es, now) == []
    decreases |es|
  {
    if |es| > 1 {
      assert es[1].timestamp <= es[0].timestamp;
      AllExpired(es[1..], now, n);
    } else {
      assert es[1..] == [];
    }
  }

  lemma {:induction false} LookupUnexpired(es: seq<Entry>, now: nat, n: nat, y: int)
    requires Ordered(es, now, n)
    ensures var l := Lookup(es, y);
      Lookup(Unexpired(es, now), y) == if l.Some? && !Expired(l.value, now) then l else None
    decreases |es|
  {
    if es != [] {
      assert [es[0]] + es[1..] == es;
      LookupCons(es[0], es[1..], y);
      LookupUnexpired(es[1..], now, n, y);
      LookupCons(es[0], Unexpired(es[1..], now), y);
      if Expired(es[0], now) {
        AllExpired(es, now, n);
        FoundOlder(es, now, n, y);
      }
    }
  }

  lemma FoundOlder(es: seq<Entry>, now: nat, n: nat, y: int)
    requires Ordered(es, now, n) && es != [] && Expired(es[0], now)
    ensures Lookup(es, y).Some? ==> Expired(Lookup(es, y).value, now)
  {
    var k := IndexOf(es, y);
    if k > 0 {
      assert es[k].timestamp <= es[0].timestamp;
    }
  }

  // ----- runs -----

  function TimeOf(e: Event, before: nat): nat {
    match e
    case FromServer(_, _, _) => before
    case FromClient(_, _, _, _, _, now) => now
    case EndOfTurn(now) => now
  }

  /** The clock never runs backwards or wraps, and requests come from one of the client sockets 1 to n-1. */
  predicate Timed(evs: seq<Event>, now: nat, n: nat)
    decreases |evs|
  {
    evs == [] ||
    (now <= TimeOf(evs[0], now) < TWO32 && (evs[0].FromClient? ==> 1 <= evs[0].client < n) &&
     Timed(evs[1..], TimeOf(evs[0], now), n))
  }

  /** No entry is younger than `t`. */
  predicate Below(es: seq<Entry>, t: nat) {
    forall i :: 0 <= i < |es| ==> es[i].timestamp <= t
  }

  predicate AllFresh(es: seq<Entry>, now: nat) {
    forall i :: 0 <= i < |es| ==> now - es[i].timestamp <= MAX_LIFETIME
  }

  lemma OrderedTail(es: seq<Entry>, now: nat, n: nat)
    requires Ordered(es, now, n) && es != []
    ensures Ordered(es[1..], now, n) && Below(es[1..], es[0].timestamp)
    ensures es[0].timestamp <= now && 1 <= es[0].client < n
  {
    var t := es[1..];
    forall i | 0 <= i < |t| ensures t[i].timestamp <= es[0].timestamp {
      assert t[i] == es[i + 1];
    }
  }

  lemma OrderedCons(e: Entry, es: seq<Entry>, now: nat, n: nat)
    requires Ordered(es, now, n) && Below(es, e.timestamp) && e.timestamp <= now && 1 <= e.client < n
    ensures Ordered([e] + es, now, n) && Below([e] + es, e.timestamp)
  {
    var r := [e] + es;
    forall i | 0 < i < |r| ensures r[i] == es[i - 1] {
    }
  }

  lemma BelowMore(es: seq<Entry>, t: nat, u: nat)
    requires Below(es, t) && t <= u
    ensures Below(es, u)
  {
  }

  lemma FreshCons(e: Entry, es: seq<Entry>, now: nat)
    requires AllFresh(es, now) && !Expired(e, now) && e.timestamp <= now < TWO32
    ensures AllFresh([e] + es, now)
  {
    assert (now - e.timestamp) % TWO32 == now - e.timestamp;
  }

  lemma NothingOrdered(now: nat, n: nat, t: nat)
    requires now < TWO32
    ensures Ordered([], now, n) && Below([], t) && AllFresh([], now)
  {
  }

  lemma {:induction false} WithoutOrdered(es: seq<Entry>, xid: int, now: nat, n: nat, t: nat)
    requires Ordered(es, now, n) && Below(es, t)
    ensures Ordered(Without(es, xid), now, n) && Below(Without(es, xid), t)
    decreases |es|
  {
    if es != [] {
      assert es[0].timestamp <= t;
      OrderedTail(es, now, n);
      hide Ordered, Below;
      WithoutOrdered(es[1..], xid, now, n, es[0].timestamp);
      OrderedCons(es[0], Without(es[1..], xid), now, n);
      BelowMore(Without(es[1..], xid), es[0].timestamp, t);
      BelowMore([es[0]] + Without(es[1..], xid), es[0].timestamp, t);
      assert [] + Without(es[1..], xid) == Without(es[1..], xid);
    }
  }

  lemma {:induction false} UnexpiredOrdered(es: seq<Entry>, now: nat, n: nat, t: nat)
    requires Ordered(es, now, n) && Below(es, t)
    ensures Ordered(Unexpired(es, now), now, n) && Below(Unexpired(es, now), t) && AllFresh(Unexpired(es, now), now)
    decreases |es|
  {
    if es == [] {
      NothingOrdered(now, n, t);
    } else {
      assert es[0].timestamp <= t && now < TWO32;
      OrderedTail(es, now, n);
      hide Ordered, Below, AllFresh, Expired;
      UnexpiredOrdered(es[1..], now, n, es[0].timestamp);
      var rest := Unexpired(es[1..], now);
      OrderedCons(es[0], rest, now, n);
      BelowMore(rest, es[0].timestamp, t);
      BelowMore([es[0]] + rest, es[0].timestamp, t);
      if !Expired(es[0], now) {
        FreshCons(es[0], rest, now);
      }
      assert [] + rest == rest;
    }
  }

  lemma OrderedLater(es: seq<Entry>, now: nat, later: nat, n: nat)
    requires Ordered(es, now, n) && now <= later < TWO32
    ensures Ordered(es, later, n) && Below(es, now)
  {
  }

  lemma OrderedUpdate(es: seq<Entry>, k: nat, e: Entry, now: nat, n: nat)
    requires Ordered(es, now, n) && k < |es| && e.timestamp == es[k].timestamp && e.client == es[k].client
    ensures Ordered(es[k := e], now, n)
  {
  }

  /** Every event keeps the list newest first with clients in range. */
  lemma StepOrdered(r: Relay, e: Event, now: nat, n: nat)
    requires Ordered(r.es, now, n) && now <= TimeOf(e, now) < TWO32 && (e.FromClient? ==> 1 <= e.client < n)
    ensures Ordered(Step(r, e).es, TimeOf(e, now), n)
    ensures e.EndOfTurn? ==>
      forall i :: 0 <= i < |Step(r, e).es| ==> e.now - Step(r, e).es[i].timestamp <= MAX_LIFETIME
  {
    OrderedLater(r.es, now, TimeOf(e, now), n);
    hide Ordered, Below;
    match e
    case FromServer(xid, kind, sent) =>
      var k := IndexOf(r.es, xid);
      if k >= 0 {
        var es := r.es[k := Addressed(r.es[k])];
        OrderedUpdate(r.es, k, Addressed(r.es[k]), now, n);
        OrderedLater(es, now, now, n);
        WithoutOrdered(es, xid, now, n, now);
      }
    case FromClient(client, ip, xid, kind, iface, t) =>
      BelowMore(r.es, now, t);
      OrderedCons(Entry(t, client, xid, ip), r.es, t, n);
    case EndOfTurn(t) =>
      UnexpiredOrdered(r.es, t, n, now);
  }

  /** The time of the last event. */
  function Clock(evs: seq<Event>, now: nat): nat
    decreases |evs|
  {
    if evs == [] then now else Clock(evs[1..], TimeOf(evs[0], now))
  }

  /** In every run on a monotonic clock the list stays newest first with clients in range. */
  lemma {:induction false} RunOrdered(r: Relay, evs: seq<Event>, now: nat, n: nat)
    requires Ordered(r.es, now, n) && Timed(evs, now, n)
    ensures Ordered(Run(r, evs).es, Clock(evs, now), n)
    decreases |evs|
  {
    if evs != [] {
      StepOrdered(r, evs[0], now, n);
      RunOrdered(Step(r, evs[0]), evs[1..], TimeOf(evs[0], now), n);
    }
  }

  ghost predicate Same(r: Relay, s: Simple) {
    && r.log == s.log && r.ourNip == s.ourNip
    && forall y :: Lookup(r.es, y) == if y in s.m then Some(s.m[y]) else None
  }

  lemma ReplySame(r: Relay, s: Simple, xid: int, kind: int, sent: bool)
    requires Same(r, s)
    ensures var e := FromServer(xid, kind, sent); Same(Step(r, e), SimpleStep(s, e))
  {
    var e := FromServer(xid, kind, sent);
    var k := IndexOf(r.es, xid);
    assert Lookup(r.es, xid) == if xid in s.m then Some(s.m[xid]) else None;
    if k >= 0 && FromServerKind(kind) {
      var a := Addressed(r.es[k]);
      forall y
        ensures Lookup(Step(r, e).es, y) == if y in SimpleStep(s, e).m then Some(SimpleStep(s, e).m[y]) else None
      {
        hide IndexOf, Without;
        LookupUpdate(r.es, k, a, y);
        LookupWithout(r.es[k := a], xid, y);
      }
    }
  }

  lemma RequestSame(r: Relay, s: Simple, e: Event)
    requires Same(r, s) && e.FromClient?
    ensures Same(Step(r, e), SimpleStep(s, e))
  {
    hide IndexOf;
    forall y
      ensures Lookup(Step(r, e).es, y) == if y in SimpleStep(s, e).m then Some(SimpleStep(s, e).m[y]) else None
    {
      LookupCons(Entry(e.now, e.client, e.xid, e.ip), r.es, y);
    }
  }

  lemma EndSame(r: Relay, s: Simple, now: nat, t: nat, n: nat)
    requires Same(r, s) && Ordered(r.es, t, n)
    ensures Same(Step(r, EndOfTurn(t)), SimpleStep(s, EndOfTurn(t)))
  {
    hide IndexOf, Lookup, Ordered, Expired;
    var e := EndOfTurn(t);
    forall y
      ensures Lookup(Step(r, e).es, y) == if y in SimpleStep(s, e).m then Some(SimpleStep(s, e).m[y]) else None
    {
      LookupUnexpired(r.es, t, n, y);
    }
  }

  lemma StepSame(r: Relay, s: Simple, e: Event, now: nat, n: nat)
    requires Same(r, s) && Ordered(r.es, now, n) && now <= TimeOf(e, now) < TWO32
    ensures Same(Step(r, e), SimpleStep(s, e))
  {
    OrderedLater(r.es, now, TimeOf(e, now), n);
    hide Same, Step, SimpleStep, Ordered, Below;
    match e
    case FromServer(xid, kind, sent) => ReplySame(r, s, xid, kind, sent);
    case FromClient(client, ip, xid, kind, iface, t) => RequestSame(r, s, e);
    case EndOfTurn(t) => EndSame(r, s, now, t, n);
  }

  /** In every run the relay sends exactly what one that remembers only the latest request per xid would send. */
  lemma {:induction false} RunSame(r: Relay, s: Simple, evs: seq<Event>, now: nat, n: nat)
    requires Same(r, s) && Ordered(r.es, now, n) && Timed(evs, now, n)
    ensures Same(Run(r, evs), SimpleRun(s, evs))
    decreases |evs|
  {
    if evs != [] {
      StepSame(r, s, evs[0], now, n);
      StepOrdered(r, evs[0], now, n);
      RunSame(Step(r, evs[0]), SimpleStep(s, evs[0]), evs[1..], TimeOf(evs[0], now), n);
    }
  }

  /** Packets passed to clients under `xid`. */
  function Replies(log: seq<Out>, xid: int): nat {
    if log == [] then 0
    else Replies(log[..|log| - 1], xid) + if log[|log| - 1].ToClient? && log[|log| - 1].xid == xid then 1 else 0
  }

  predicate NoRequest(evs: seq<Event>, xid: int) {
    forall i :: 0 <= i < |evs| ==> !(evs[i].FromClient? && evs[i].xid == xid && FromClientKind(evs[i].kind))
  }

  /** Once no request with that xid is remembered, no reply is passed on before a new request. */
  lemma {:induction false} SilentUntilRequest(r: Relay, evs: seq<Event>, xid: int, now: nat, n: nat)
    requires Lookup(r.es, xid).None? && NoRequest(evs, xid) && Ordered(r.es, now, n) && Timed(evs, now, n)
    ensures Replies(Run(r, evs).log, xid) == Replies(r.log, xid) && Lookup(Run(r, evs).es, xid).None?
    decreases |evs|
  {
    if evs != [] {
      var e := evs[0];
      var r' := Step(r, e);
      StepOrdered(r, e, now, n);
      match e {
        case FromServer(x, kind, sent) =>
          var k := IndexOf(r.es, x);
          if k >= 0 {
            LookupUpdate(r.es, k, Addressed(r.es[k]), xid);
            LookupWithout(r.es[k := Addressed(r.es[k])], x, xid);
          }
        case FromClient(client, ip, x, kind, iface, t) => LookupCons(Entry(t, client, x, ip), r.es, xid);
        case EndOfTurn(t) => LookupUnexpired(r.es, t, n, xid);
      }
      assert |r'.log| > |r.log| ==> r'.log[..|r'.log| - 1] == r.log;
      SilentUntilRequest(r', evs[1..], xid, TimeOf(e, now), n);
    }
  }

  /** At most one reply per request: after one was passed on, no other with that xid follows until a new request
      comes. */
  lemma OneReplyPerRequest(r: Relay, xid: int, kind: int, evs: seq<Event>, now: nat, n: nat)
    requires Ordered(r.es, now, n) && Lookup(r.es, xid).Some? && FromServerKind(kind)
    requires NoRequest(evs, xid) && Timed(evs, now, n)
    ensures Replies(Run(r, [FromServer(xid, kind, true)] + evs).log, xid) == Replies(r.log, xid) + 1
  {
    var e := FromServer(xid, kind, true);
    var all := [e] + evs;
    assert all[1..] == evs;
    var r' := Step(r, e);
    var k := IndexOf(r.es, xid);
    LookupWithout(r.es[k := Addressed(r.es[k])], xid, xid);
    StepOrdered(r, e, now, n);
    assert r'.log[..|r'.log| - 1] == r.log;
    SilentUntilRequest(r', evs, xid, now, n);
  }
}
