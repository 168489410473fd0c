/**
 What holds at every loop head of every run of the DHCPv4 client.
 */
module DhcpClientRuns {
  import opened Basics
  import opened DhcpClientSpec

  predicate HoldsLease(s: State) {
    s == Bound || s == Renewing || s == RenewRequested || s == Rebinding
  }

  /** Seconds waited beyond the timeout. */
  function Over(c: Client): nat {
    if c.waited > c.timeout then c.waited - c.timeout else 0
  }

  /** Twice the running timeout, counted from when it was started, still lies within the lease, give or take the
      seconds lost. */
  predicate Timely(c: Client, lost: nat) {
    var g := Replay(c.log).grant;
    HoldsLease(c.state) ==>
      g.Some? && (c.now - g.value.time - c.waited) + 2 * c.timeout + Over(c) <= g.value.lease + lost
  }

  /** The xid in use is that of the latest discover; before the first one, the client does not wait. */
  predicate Identified(c: Client) {
    var d := Replay(c.log).discover;
    && (d == Some(c.xid) || (d == None && c.state == InitSelecting && c.timeout == 0 && c.packetNum == 0))
    && XidsAgree(c.log)
  }

  predicate Listening(c: Client) {
    && (c.listen == ListenNone <==> c.state == Bound || c.state == Released)
    && (c.state == Renewing ==> c.listen == ListenKernel)
    && (c.listen == ListenKernel ==> c.state == Renewing || c.state == RenewRequested)
  }

  /** The client goes to the background at most once, and then stays there. */
  predicate Backgrounded(c: Client) {
    var n := Replay(c.log).backgrounded;
    n == 0 || (n == 1 && c.opt.foreground && !c.opt.background)
  }

  /** The numbers given on the command line are of type `int`. */
  predicate Sane(cfg: Config) {
    cfg.tryagain <= INT_MAX && cfg.discoverTimeout <= INT_MAX
  }

  /** What does not depend on time. */
  predicate Steady(c: Client) {
    && c.timeout <= INT_MAX && Identified(c) && Listening(c) && Backgrounded(c)
    && (HoldsLease(c.state) ==> Replay(c.log).configured)
  }

  /** What holds with any configuration when `lost` seconds passed uncounted. */
  predicate Inv(c: Client, lost: nat) {
    Steady(c) && Timely(c, lost)
  }

  lemma StartedInv(ip: int, o: Options, xid: int, server: int)
    ensures Inv(Started(ip, o, xid, server), 0)
  {
  }

  /** The wait is over and, while a lease is held, as much time as was waited is left of it. */
  predicate Due(c: Client, lost: nat) {
    var g := Replay(c.log).grant;
    c.waited == 0 && (HoldsLease(c.state) ==> g.Some? && (c.now - g.value.time) + c.timeout <= g.value.lease + lost)
  }

  predicate Ready(c: Client, lost: nat) {
    Steady(c) && Due(c, lost)
  }

  lemma RebindInv(c: Client, lost: nat)
    requires Due(c, lost) && c.timeout <= INT_MAX && Identified(c) && Backgrounded(c)
    requires Replay(c.log).configured && c.state == Rebinding
    ensures Inv(Rebind(c), lost)
  {
    hide Replay, XidsAgree, Overdue;
  }

  lemma RenewOrRebindInv(c: Client, lost: nat)
    requires Ready(c, lost) && (c.state == Renewing || c.state == RenewRequested)
    ensures Inv(RenewOrRebind(c), lost)
  {
    hide Replay, XidsAgree, Overdue, Rebind;
    if c.timeout <= 60 {
      RebindInv(c.(state := Rebinding), lost);
    }
  }

  lemma LeaseFailedInv(cfg: Config, c: Client, lost: nat)
    requires Sane(cfg) && Identified(c) && Listening(c) && Backgrounded(c) && c.state == InitSelecting
    requires Replay(c.log).discover == Some(c.xid)
    ensures LeaseFailed(cfg, c).running ==> Inv(LeaseFailed(cfg, c), lost)
  {
    hide Replay, XidsAgree, Overdue;
  }

  lemma SolicitInv(cfg: Config, c: Client, rnd: int, lost: nat)
    requires Sane(cfg) && Ready(c, lost)
    ensures c.state == InitSelecting && Discovering(cfg, c, rnd).running ==> Inv(Discovering(cfg, c, rnd), lost)
    ensures c.state == Requesting && Selecting(cfg, c).running ==> Inv(Selecting(cfg, c), lost)
  {
    hide Replay, XidsAgree, Overdue, LeaseFailed;
    if !MayRetry(cfg, c) {
      if c.state == InitSelecting {
        LeaseFailedInv(cfg, c, lost);
      } else if c.state == Requesting {
        LeaseFailedInv(cfg, c.(listen := ListenRaw, state := InitSelecting), lost);
      }
    }
  }

  lemma TimedOutInv(cfg: Config, c: Client, rnd: int, lost: nat)
    requires Sane(cfg) && Ready(c.(waited := 0), lost)
    ensures TimedOut(cfg, c, rnd).running ==> Inv(TimedOut(cfg, c, rnd), lost)
  {
    hide Replay, XidsAgree, Overdue, Rebind, RenewOrRebind, Discovering, Selecting;
    var c := c.(waited := 0);
    match c.state
    case InitSelecting => SolicitInv(cfg, c, rnd, lost);
    case Requesting => SolicitInv(cfg, c, rnd, lost);
    case Bound => RenewOrRebindInv(c.(state := Renewing, listen := ListenKernel), lost);
    case RenewRequested => RenewOrRebindInv(c, lost);
    case Renewing => RenewOrRebindInv(c, lost);
    case Rebinding => RebindInv(c, lost);
    case Released =>
  }

  lemma SignalInv(cfg: Config, c: Client, sig: Signal, d: nat, lost: nat)
    requires Sane(cfg) && Inv(c, lost) && d <= Remaining(c) && Remaining(c) > 0
    ensures var r := OnSignal(cfg, c.(now := c.now + d), sig); r.running ==> Inv(r, lost)
  {
    hide Replay, XidsAgree, Overdue, RenewOrRebind;
    if sig == Usr1 && HoldsLease(c.state) && c.state != RenewRequested {
      var c' := PerformRenew(c.(now := c.now + d, waited := 0));
      RenewOrRebindInv(c'.(timeout := Min(c'.timeout, cfg.tryagain)), lost);
    }
  }

  lemma AcknowledgedInv(cfg: Config, c: Client, p: Packet, lost: nat)
    requires Sane(cfg) && Steady(c) && Replay(c.log).discover == Some(c.xid)
    ensures var r := Acknowledged(cfg, c, p); r.running ==> Inv(r, lost)
  {
    hide Replay, XidsAgree, Overdue;
  }

  lemma PacketInv(cfg: Config, c: Client, p: Packet, lost: nat)
    requires Sane(cfg) && Inv(c, lost) && c.timeout > 0
    ensures var r := OnPacket(cfg, c, p); r.running ==> Inv(r, lost)
  {
    hide Replay, XidsAgree, Overdue, Acknowledged;
    AcknowledgedInv(cfg, c, p, lost);
  }

  /** Every turn of the loop keeps the invariant. */
  lemma StepInv(cfg: Config, c: Client, e: Event, lost: nat)
    requires Sane(cfg) && Inv(c, lost) && Possible(c, e)
    ensures Step(cfg, c, e).running ==> Inv(Step(cfg, c, e), lost + Lost(cfg, e))
  {
    hide Replay, XidsAgree, Overdue, TimedOut, OnSignal, OnPacket;
    match e
    case Elapsed(gone, rnd) =>
      TimedOutInv(cfg, c.(now := c.now + if Remaining(c) > 0 then Remaining(c) else 0), rnd, lost);
    case Interrupted(d) =>
    case Signalled(sig, d) => SignalInv(cfg, c, sig, d, lost);
    case Received(p, d) => PacketInv(cfg, c.(now := c.now + d, waited := c.waited + d), p, lost);
    case ReadFailed(severe, d) =>
    case Woken(d) =>
  }

  /** At every loop head of every run, whatever the events: the timeout lies within the lease, the xid is that of
      the latest discover, the sockets listen as the state wants, and the client went to the background at most
      once. */
  lemma {:induction false} RunInv(cfg: Config, w: seq<Client>, es: seq<Event>, i: nat)
    requires Sane(cfg) && IsRun(cfg, w, es) && i < |w| && w[i].running
    ensures Inv(w[i], LostIn(cfg, es[..i]))
  {
    hide Settled, Step, Inv, Possible, Replay, LostIn, Lost, Started;
    NoneLost(cfg, es);
    if i == 0 {
      var ip, o, x, s :| w[0] == Started(ip, o, x, s);
      StartedInv(ip, o, x, s);
    } else {
      RunInv(cfg, w, es, i - 1);
      StepInv(cfg, w[i - 1], es[i - 1], LostIn(cfg, es[..i - 1]));
      LostOn(cfg, es, i);
    }
  }

  lemma LostOn(cfg: Config, es: seq<Event>, i: nat)
    requires 0 < i <= |es|
    ensures LostIn(cfg, es[..i]) == LostIn(cfg, es[..i - 1]) + Lost(cfg, es[i - 1])
  {
    assert es[..i][..i - 1] == es[..i - 1];
  }

  lemma NoneLost(cfg: Config, es: seq<Event>)
    ensures LostIn(cfg, es[..0]) == 0
  {
  }

  /** Without read errors and empty wake-ups no time is lost. */
  lemma {:induction false} NothingLost(cfg: Config, es: seq<Event>)
    requires forall i :: 0 <= i < |es| ==> !es[i].Woken? && (es[i].ReadFailed? ==> !es[i].severe)
    ensures LostIn(cfg, es) == 0
  {
    if es != [] {
      NothingLost(cfg, es[..|es| - 1]);
    }
  }

  /** The wait begun at a loop head never outlasts the lease by more than the seconds lost. */
  lemma WakesInTime(cfg: Config, w: seq<Client>, es: seq<Event>, i: nat)
    requires Sane(cfg) && IsRun(cfg, w, es) && i < |w| && w[i].running && HoldsLease(w[i].state)
    ensures Replay(w[i].log).grant.Some?
    ensures var g := Replay(w[i].log).grant.value;
      && w[i].now + Remaining(w[i]) <= g.time + g.lease + LostIn(cfg, es[..i])
      && w[i].now <= g.time + g.lease + LostIn(cfg, es[..i])
  {
    hide Replay;
    RunInv(cfg, w, es, i);
  }

  // ----- when the interface is configured -----

  /** The interface is configured exactly while a lease is held, and no lease was outstayed by more than the seconds
      lost. */
  predicate Settled(c: Client, lost: nat) {
    (Replay(c.log).configured <==> HoldsLease(c.state)) && Overdue(c.log) <= lost
  }

  predicate LeaseRuns(c: Client, lost: nat) {
    var g := Replay(c.log).grant;
    HoldsLease(c.state) ==> g.Some? && c.now <= g.value.time + g.value.lease + lost
  }

  lemma RenewOrRebindSettled(c: Client, lost: nat)
    requires Settled(c, lost) && LeaseRuns(c, lost) && HoldsLease(c.state)
    ensures Settled(RenewOrRebind(c), lost) && Settled(Rebind(c.(state := Rebinding)), lost)
    ensures RenewOrRebind(c).state == RenewRequested <==> c.state == RenewRequested && c.timeout > 60
    ensures Rebind(c.(state := Rebinding)).state != RenewRequested
  {
    hide Replay, Overdue, XidsAgree;
  }

  lemma SolicitSettled(cfg: Config, c: Client, rnd: int, lost: nat)
    requires Settled(c, lost) && !HoldsLease(c.state)
    ensures c.state == InitSelecting ==>
      Settled(Discovering(cfg, c, rnd), lost) && Discovering(cfg, c, rnd).state == InitSelecting
    ensures c.state == Requesting ==> Settled(Selecting(cfg, c), lost) && !HoldsLease(Selecting(cfg, c).state)
  {
    hide Replay, Overdue, XidsAgree;
  }

  lemma TimedOutSettled(cfg: Config, c: Client, rnd: int, lost: nat)
    requires Settled(c, lost) && LeaseRuns(c, lost)
    ensures Settled(TimedOut(cfg, c, rnd), lost)
    ensures TimedOut(cfg, c, rnd).state == RenewRequested ==> c.state == RenewRequested
  {
    hide Replay, Overdue, XidsAgree, RenewOrRebind, Rebind, Discovering, Selecting;
    var c := c.(waited := 0);
    match c.state
    case InitSelecting => SolicitSettled(cfg, c, rnd, lost);
    case Requesting => SolicitSettled(cfg, c, rnd, lost);
    case Bound => RenewOrRebindSettled(c.(state := Renewing, listen := ListenKernel), lost);
    case RenewRequested => RenewOrRebindSettled(c, lost);
    case Renewing => RenewOrRebindSettled(c, lost);
    case Rebinding => RenewOrRebindSettled(c, lost);
      assert c.(state := Rebinding) == c;
    case Released =>
  }

  lemma SignalSettled(cfg: Config, c: Client, sig: Signal, lost: nat)
    requires Settled(c, lost) && LeaseRuns(c, lost) && sig != Term
    ensures Settled(OnSignal(cfg, c, sig), lost) <==> !(sig == Usr2 && c.state == RenewRequested)
    ensures OnSignal(cfg, c, sig).state == RenewRequested <==>
      sig == Usr1 && HoldsLease(c.state) && c.state != RenewRequested && Min(c.timeout, cfg.tryagain) > 60
  {
    hide Replay, Overdue, XidsAgree, RenewOrRebind;
    if sig == Usr1 && HoldsLease(c.state) && c.state != RenewRequested {
      var c' := PerformRenew(c.(waited := 0));
      RenewOrRebindSettled(c'.(timeout := Min(c'.timeout, cfg.tryagain)), lost);
    }
  }

  lemma AcknowledgedSettled(cfg: Config, c: Client, p: Packet, lost: nat)
    requires Settled(c, lost) && LeaseRuns(c, lost) && c.state != InitSelecting
    requires HoldsLease(c.state) || c.state == Requesting
    ensures var r := Acknowledged(cfg, c, p); r.running ==> Settled(r, lost) && r.state != RenewRequested
  {
    hide Replay, Overdue, XidsAgree;
  }

  lemma PacketSettled(cfg: Config, c: Client, p: Packet, lost: nat)
    requires Settled(c, lost) && LeaseRuns(c, lost)
    ensures var r := OnPacket(cfg, c, p);
      r.running ==> Settled(r, lost) && (r.state == RenewRequested ==> c.state == RenewRequested)
  {
    hide Replay, Overdue, XidsAgree, Acknowledged;
    if HoldsLease(c.state) || c.state == Requesting {
      AcknowledgedSettled(cfg, c, p, lost);
    }
  }

  /** A turn of the loop keeps "configured exactly while a lease is held" unless the lease is released while a
      requested renewal is pending, and only a SIGUSR1 that leaves a timeout over 60 seconds makes one pending. */
  lemma StepSettled(cfg: Config, c: Client, e: Event, lost: nat)
    requires Sane(cfg) && Inv(c, lost) && Settled(c, lost) && Possible(c, e)
    ensures Step(cfg, c, e).running ==>
      (Settled(Step(cfg, c, e), lost + Lost(cfg, e)) <==> !(e.Signalled? && e.sig == Usr2 && c.state == RenewRequested))
    ensures Step(cfg, c, e).running && c.state != RenewRequested ==>
      (Step(cfg, c, e).state == RenewRequested <==>
        e.Signalled? && e.sig == Usr1 && HoldsLease(c.state) && Min(c.timeout, cfg.tryagain) > 60)
  {
    hide Replay, Overdue, XidsAgree, TimedOut, OnSignal, OnPacket;
    match e
    case Elapsed(gone, rnd) =>
      TimedOutSettled(cfg, c.(now := c.now + if Remaining(c) > 0 then Remaining(c) else 0), rnd, lost);
    case Interrupted(d) =>
    case Signalled(sig, d) =>
      TermQuits(cfg, c.(now := c.now + d));
      if sig != Term {
        SignalSettled(cfg, c.(now := c.now + d), sig, lost);
      }
    case Received(p, d) => PacketSettled(cfg, c.(now := c.now + d, waited := c.waited + d), p, lost);
    case ReadFailed(severe, d) =>
    case Woken(d) =>
  }

  lemma TermQuits(cfg: Config, c: Client)
    ensures !OnSignal(cfg, c, Term).running
  {
  }

  lemma StartedSettled(ip: int, o: Options, xid: int, server: int)
    ensures Settled(Started(ip, o, xid, server), 0)
  {
  }

  lemma ListensAsInv(c: Client, lost: nat)
    requires Inv(c, lost) && c.state != RenewRequested
    ensures c.listen == ListenKernel <==> c.state == Renewing
    ensures c.listen == ListenNone <==> c.state == Bound || c.state == Released
  {
    hide Replay;
  }

  lemma FreshStates(ip: int, o: Options, xid: int, server: int)
    ensures Started(ip, o, xid, server).state == InitSelecting
  {
  }

  /** With a retry pause of at most 60 seconds: at every loop head of every run the interface is configured exactly
      in BOUND, RENEWING and REBINDING, no renewal is pending, and the kernel socket is used exactly in RENEWING. */
  lemma {:induction false} RunSettled(cfg: Config, w: seq<Client>, es: seq<Event>, i: nat)
    requires Sane(cfg) && cfg.tryagain <= 60 && IsRun(cfg, w, es) && i < |w| && w[i].running
    ensures Inv(w[i], LostIn(cfg, es[..i])) && Settled(w[i], LostIn(cfg, es[..i])) && w[i].state != RenewRequested
    ensures w[i].listen == ListenKernel <==> w[i].state == Renewing
    ensures w[i].listen == ListenNone <==> w[i].state == Bound || w[i].state == Released
  {
    hide Settled, Step, Inv, Possible, Replay, LostIn, Lost, Started;
    NoneLost(cfg, es);
    RunInv(cfg, w, es, i);
    if i == 0 {
      var ip, o, x, s :| w[0] == Started(ip, o, x, s);
      StartedSettled(ip, o, x, s);
      FreshStates(ip, o, x, s);
    } else {
      RunSettled(cfg, w, es, i - 1);
      StepSettled(cfg, w[i - 1], es[i - 1], LostIn(cfg, es[..i - 1]));
      LostOn(cfg, es, i);
    }
    ListensAsInv(w[i], LostIn(cfg, es[..i]));
  }

  // ----- a lease nobody renews -----

  function BitLength(n: nat): nat {
    if n == 0 then 0 else 1 + BitLength(n / 2)
  }

  /** Number of one-bits. */
  function PopCount(n: nat): nat {
    if n == 0 then 0 else n % 2 + PopCount(n / 2)
  }

  /** How many of `t`, `t/2`, `t/4`, ... exceed 60. */
  function Unicasts(t: nat): nat {
    if t <= 60 then 0 else 1 + Unicasts(t / 2)
  }

  /** The renewals sent when a timeout of `t` seconds starts at `now` and nothing but timeouts happens. */
  function Renewals(c: Client, t: nat, now: nat): seq<Action> {
    if t == 0 then []
    else [Sent(now + t, Renew(c.xid, if t > 60 then c.server else 0, c.ip))] + Renewals(c, t / 2, now + t)
  }

  function Steps(cfg: Config, c: Client, es: seq<Event>): Client
    decreases |es|
  {
    if es == [] then c else Steps(cfg, Step(cfg, c, es[0]), es[1..])
  }

  predicate Silence(es: seq<Event>) {
    forall i :: 0 <= i < |es| ==> es[i].Elapsed? && !es[i].ifaceGone
  }

  lemma RenewalsOf(c: Client, d: Client, t: nat, now: nat)
    requires c.xid == d.xid && c.server == d.server && c.ip == d.ip
    ensures Renewals(c, t, now) == Renewals(d, t, now)
    decreases t
  {
    if t > 0 {
      RenewalsOf(c, d, t / 2, now + t);
    }
  }

  lemma {:induction false} RenewalsOrder(c: Client, t: nat, now: nat)
    ensures var rs := Renewals(c, t, now);
      && |rs| == BitLength(t) && Unicasts(t) <= |rs|
      && (forall i :: 0 <= i < Unicasts(t) ==> rs[i].Sent? && rs[i].message == Renew(c.xid, c.server, c.ip))
      && (forall i :: Unicasts(t) <= i < |rs| ==> rs[i].Sent? && rs[i].message == Renew(c.xid, 0, c.ip))
    decreases t
  {
    if t > 0 {
      RenewalsOrder(c, t / 2, now + t);
      var rs, rest := Renewals(c, t, now), Renewals(c, t / 2, now + t);
      assert rs[1..] == rest;
      assert forall i :: 0 < i < |rs| ==> rs[i] == rest[i - 1];
      assert t <= 60 ==> Unicasts(t / 2) == 0;
    }
  }

  lemma SilentStep(cfg: Config, c: Client, e: Event)
    requires c.state == Bound || c.state == Renewing || (c.state == Rebinding && c.timeout <= 60)
    requires c.waited == 0 && e.Elapsed? && !e.ifaceGone
    ensures var r := Step(cfg, c, e); var t := c.timeout;
      if t == 0 then r.state == InitSelecting && r.now == c.now && r.log == c.log + [Ran(c.now, Deconfig)]
      else && (r.state == Renewing || (r.state == Rebinding && r.timeout <= 60)) && r.waited == 0 && r.timeout == t / 2
           && r.now == c.now + t && r.xid == c.xid && r.server == c.server && r.ip == c.ip
           && r.log == c.log + [Sent(c.now + t, Renew(c.xid, if t > 60 then c.server else 0, c.ip))]
  {
    hide Replay, XidsAgree, Overdue;
  }

  lemma {:induction false} SilentLease(cfg: Config, c: Client, es: seq<Event>)
    requires c.state == Bound || c.state == Renewing || (c.state == Rebinding && c.timeout <= 60)
    requires c.waited == 0 && Silence(es) && |es| == BitLength(c.timeout) + 1
    ensures var r := Steps(cfg, c, es);
      && r.state == InitSelecting && r.now == c.now + 2 * c.timeout - PopCount(c.timeout)
      && r.log == c.log + Renewals(c, c.timeout, c.now) + [Ran(r.now, Deconfig)]
    decreases c.timeout
  {
    hide Step;
    var r := Step(cfg, c, es[0]);
    SilentStep(cfg, c, es[0]);
    if c.timeout == 0 {
      assert es[1..] == [] && c.log + [] == c.log;
    } else {
      SilentLease(cfg, r, es[1..]);
      RenewalsOf(c, r, r.timeout, r.now);
      SilentTail(c, r, es, cfg);
    }
  }

  lemma SilentTail(c: Client, r: Client, es: seq<Event>, cfg: Config)
    requires c.timeout > 0 && r.timeout == c.timeout / 2 && r.now == c.now + c.timeout
    requires r.log == c.log + [Sent(r.now, Renew(c.xid, if c.timeout > 60 then c.server else 0, c.ip))]
    ensures c.log + Renewals(c, c.timeout, c.now) == r.log + Renewals(c, r.timeout, r.now)
    ensures 2 * r.timeout - PopCount(r.timeout) + c.timeout == 2 * c.timeout - PopCount(c.timeout)
  {
  }

  lemma LeaseTaken(cfg: Config, c: Client, p: Packet)
    requires !cfg.quitAfterLease && !(cfg.arping && p.conflict)
    ensures var b := Acknowledged(cfg, c, p);
      b.state == Bound && b.waited == 0 && b.timeout == LeaseSeconds(p.leaseTime) / 2 && b.now == c.now
  {
    hide Replay, XidsAgree, Overdue;
  }

  lemma HalfLease(l: nat)
    requires l > 0
    ensures BitLength(l) == 1 + BitLength(l / 2) && l - PopCount(l) == 2 * (l / 2) - PopCount(l / 2)
  {
  }

  /** After an acknowledgement for L seconds and then silence, the client waits exactly L minus the number of
      one-bits of L, sends one renewal fewer than L has bits, first by unicast and then by broadcast,
      and gives the address up. */
  lemma UnrenewedLease(cfg: Config, c: Client, p: Packet, es: seq<Event>)
    requires !cfg.quitAfterLease && !(cfg.arping && p.conflict)
    requires var l := LeaseSeconds(p.leaseTime); Silence(es) && |es| == BitLength(l)
    ensures var l := LeaseSeconds(p.leaseTime); var b := Acknowledged(cfg, c, p); var r := Steps(cfg, b, es);
      && r.state == InitSelecting && r.now == c.now + l - PopCount(l)
      && r.log == b.log + Renewals(b, l / 2, c.now) + [Ran(r.now, Deconfig)]
      && |Renewals(b, l / 2, c.now)| == BitLength(l) - 1
  {
    hide *;
    var l := LeaseSeconds(p.leaseTime);
    var b := Acknowledged(cfg, c, p);
    LeaseTaken(cfg, c, p);
    HalfLease(l);
    SilentLease(cfg, b, es);
    RenewalsOrder(b, l / 2, c.now);
  }

  // ----- exactly when every run is settled -----

  /** No lease is ever held at a loop head: the client quits with it, or never waits for an acknowledgement. */
  predicate Leaseless(cfg: Config, c: Client) {
    !HoldsLease(c.state) && (cfg.discoverTimeout == 0 && c.state == Requesting ==> c.timeout == 0)
  }

  lemma TimedOutLeaseless(cfg: Config, c: Client, rnd: int)
    requires Leaseless(cfg, c)
    ensures Leaseless(cfg, TimedOut(cfg, c, rnd))
  {
    hide Replay, Overdue, XidsAgree;
  }

  lemma SignalLeaseless(cfg: Config, c: Client, sig: Signal)
    requires Leaseless(cfg, c)
    ensures Leaseless(cfg, OnSignal(cfg, c, sig))
  {
    hide Replay, Overdue, XidsAgree;
  }

  lemma PacketLeaseless(cfg: Config, c: Client, p: Packet)
    requires (cfg.discoverTimeout == 0 || cfg.quitAfterLease) && Leaseless(cfg, c) && c.timeout > 0
    ensures OnPacket(cfg, c, p).running ==> Leaseless(cfg, OnPacket(cfg, c, p))
  {
    hide Replay, Overdue, XidsAgree;
  }

  lemma StepLeaseless(cfg: Config, c: Client, e: Event)
    requires cfg.discoverTimeout == 0 || cfg.quitAfterLease
    requires Leaseless(cfg, c) && Possible(c, e)
    ensures Step(cfg, c, e).running ==> Leaseless(cfg, Step(cfg, c, e))
  {
    hide TimedOut, OnSignal, OnPacket;
    match e
    case Elapsed(gone, rnd) =>
      TimedOutLeaseless(cfg, c.(now := c.now + if Remaining(c) > 0 then Remaining(c) else 0), rnd);
    case Interrupted(d) =>
    case Signalled(sig, d) => SignalLeaseless(cfg, c.(now := c.now + d), sig);
    case Received(p, d) => PacketLeaseless(cfg, c.(now := c.now + d, waited := c.waited + d), p);
    case ReadFailed(severe, d) =>
    case Woken(d) =>
  }

  lemma FreshLeaseless(cfg: Config, ip: int, o: Options, xid: int, server: int)
    ensures Leaseless(cfg, Started(ip, o, xid, server))
  {
  }

  lemma {:induction false} RunLeaseless(cfg: Config, w: seq<Client>, es: seq<Event>, i: nat)
    requires Sane(cfg) && (cfg.discoverTimeout == 0 || cfg.quitAfterLease)
    requires IsRun(cfg, w, es) && i < |w| && w[i].running
    ensures Leaseless(cfg, w[i]) && Settled(w[i], LostIn(cfg, es[..i]))
  {
    hide Settled, Step, Inv, Possible, Replay, LostIn, Lost, Started;
    NoneLost(cfg, es);
    if i == 0 {
      var ip, o, x, s :| w[0] == Started(ip, o, x, s);
      StartedSettled(ip, o, x, s);
      FreshLeaseless(cfg, ip, o, x, s);
    } else {
      RunInv(cfg, w, es, i - 1);
      RunLeaseless(cfg, w, es, i - 1);
      StepLeaseless(cfg, w[i - 1], es[i - 1]);
      StepSettled(cfg, w[i - 1], es[i - 1], LostIn(cfg, es[..i - 1]));
      LostOn(cfg, es, i);
    }
  }

  const OFFERED := Packet(7, true, Some(DHCPOFFER), 1, None, None, false)
  const GRANTED := Packet(7, true, Some(DHCPACK), 1, None, Some(1000), false)

  /** Discover, offer, select, acknowledgement of 1000 seconds, SIGUSR1, SIGUSR2. */
  function LongPause(): seq<Event> {
    [Elapsed(false, 7), Received(OFFERED, 0), Elapsed(false, 0), Received(GRANTED, 0),
     Signalled(Usr1, 0), Signalled(Usr2, 0)]
  }

  function Fresh(): Client {
    Started(0, Options(false, false, true), 0, 0)
  }

  predicate Soliciting(c: Client, state: State) {
    c.running && c.state == state && c.xid == 7 && c.waited == 0 && c.listen == ListenRaw && c.opt.foreground
  }

  lemma Discovers(cfg: Config, c: Client)
    requires c.running && c.state == InitSelecting && c.timeout == c.packetNum == c.waited == 0
    requires c.listen == ListenRaw && c.opt.foreground && cfg.discoverTimeout > 0
    ensures var r := Step(cfg, c, Elapsed(false, 7)); Soliciting(r, InitSelecting) && r.timeout == cfg.discoverTimeout
  {
    hide Replay, XidsAgree, Overdue;
  }

  lemma TakesOffer(cfg: Config, c: Client)
    requires Soliciting(c, InitSelecting) && c.timeout > 0
    ensures Possible(c, Received(OFFERED, 0))
    ensures var r := Step(cfg, c, Received(OFFERED, 0)); Soliciting(r, Requesting) && r.timeout == 0 && r.packetNum == 0
  {
  }

  lemma Selects(cfg: Config, c: Client)
    requires Soliciting(c, Requesting) && c.timeout == 0 && c.packetNum == 0
    ensures var r := Step(cfg, c, Elapsed(false, 0)); Soliciting(r, Requesting) && r.timeout == cfg.discoverTimeout
  {
    hide Replay, XidsAgree, Overdue;
  }

  lemma TakesLease(cfg: Config, c: Client)
    requires Soliciting(c, Requesting) && c.timeout > 0 && !cfg.quitAfterLease
    ensures Possible(c, Received(GRANTED, 0))
    ensures var r := Step(cfg, c, Received(GRANTED, 0));
      r.running && r.state == Bound && r.timeout == 500 && r.waited == 0 && Replay(r.log).configured
  {
    hide Replay, XidsAgree, Overdue;
  }

  /** With a retry pause over 60 seconds a release during a requested renewal leaves the interface configured. */
  lemma ReleasedConfigured(cfg: Config, c: Client, d: nat)
    requires cfg.tryagain > 60 && c.state == Bound && c.timeout > 60 && c.running && Replay(c.log).configured
    requires d <= Remaining(c) && Remaining(c) > 0
    ensures var requested := Step(cfg, c, Signalled(Usr1, d));
      && requested.running && requested.state == RenewRequested && Possible(requested, Signalled(Usr2, 0))
      && var released := Step(cfg, requested, Signalled(Usr2, 0));
         released.running && released.state == Released && Replay(released.log).configured
  {
    hide Replay, XidsAgree, Overdue;
  }

  /** A whole run that ends so, for any longer pause. */
  lemma LongPauseLeavesConfigured(cfg: Config) returns (w: seq<Client>)
    requires cfg.tryagain > 60 && cfg.discoverTimeout > 0 && !cfg.quitAfterLease
    ensures |w| == 7 && IsRun(cfg, w, LongPause())
    ensures w[6].running && w[6].state == Released && Replay(w[6].log).configured
  {
    hide Step, Replay, Possible;
    var es := LongPause();
    var c0 := Fresh();
    var c1 := Step(cfg, c0, es[0]);
    var c2 := Step(cfg, c1, es[1]);
    var c3 := Step(cfg, c2, es[2]);
    var c4 := Step(cfg, c3, es[3]);
    var c5 := Step(cfg, c4, es[4]);
    var c6 := Step(cfg, c5, es[5]);
    w := [c0, c1, c2, c3, c4, c5, c6];
    Discovers(cfg, c0);
    ElapsedPossible(c0, 7);
    TakesOffer(cfg, c1);
    Selects(cfg, c2);
    ElapsedPossible(c2, 0);
    TakesLease(cfg, c3);
    SignalPossible(c4, Usr1);
    ReleasedConfigured(cfg, c4, 0);
    assert w[0] == Started(0, Options(false, false, true), 0, 0);
  }

  lemma ElapsedPossible(c: Client, rnd: int)
    ensures Possible(c, Elapsed(false, rnd))
  {
  }

  lemma SignalPossible(c: Client, sig: Signal)
    requires Remaining(c) > 0
    ensures Possible(c, Signalled(sig, 0))
  {
  }

  /** Every loop head of every run is settled. */
  ghost predicate AlwaysSettled(cfg: Config) {
    forall w: seq<Client>, es: seq<Event>, i: nat :: IsRun(cfg, w, es) && i < |w| ==> SettledAt(cfg, w, es, i)
  }

  /** The interface is configured exactly while a lease is held, at every loop head of every run, exactly if the retry
      pause is at most 60 seconds, or the client never keeps a lease anyway. */
  lemma WhenAlwaysSettled(cfg: Config)
    requires Sane(cfg)
    ensures AlwaysSettled(cfg) <==> cfg.tryagain <= 60 || cfg.discoverTimeout == 0 || cfg.quitAfterLease
  {
    hide Settled, Step;
    if cfg.tryagain <= 60 || cfg.discoverTimeout == 0 || cfg.quitAfterLease {
      forall w: seq<Client>, es: seq<Event>, i: nat | IsRun(cfg, w, es) && i < |w| ensures SettledAt(cfg, w, es, i) {
        if !w[i].running {
        } else if cfg.tryagain <= 60 {
          RunSettled(cfg, w, es, i);
        } else {
          RunLeaseless(cfg, w, es, i);
        }
      }
    } else {
      var w := LongPauseLeavesConfigured(cfg);
      NotSettled(w[6], LostIn(cfg, LongPause()[..6]));
      assert !SettledAt(cfg, w, LongPause(), 6);
    }
  }

  /** A release reaches the client while a requested renewal is pending. */
  predicate ReleasedPending(c: Client, e: Event) {
    e.Signalled? && e.sig == Usr2 && c.state == RenewRequested
  }

  /** Up to `n` no release reaches the client while a requested renewal is pending. */
  predicate NonePending(w: seq<Client>, es: seq<Event>, n: nat)
    requires n <= |es| < |w|
  {
    forall i :: 0 <= i < n && w[i + 1].running ==> !ReleasedPending(w[i], es[i])
  }

  ghost predicate SettledAt(cfg: Config, w: seq<Client>, es: seq<Event>, i: nat)
    requires i < |w| == |es| + 1
  {
    w[i].running ==> Settled(w[i], LostIn(cfg, es[..i]))
  }

  lemma SettledOn(cfg: Config, w: seq<Client>, es: seq<Event>, i: nat)
    requires Sane(cfg) && IsRun(cfg, w, es) && i < |es| && SettledAt(cfg, w, es, i) && w[i + 1].running
    ensures SettledAt(cfg, w, es, i + 1) <==> !ReleasedPending(w[i], es[i])
  {
    hide Settled, Step, Inv, Possible, Replay, LostIn, Lost, Started;
    RunInv(cfg, w, es, i);
    StepSettled(cfg, w[i], es[i], LostIn(cfg, es[..i]));
    LostOn(cfg, es, i + 1);
  }

  lemma SettledStart(cfg: Config, w: seq<Client>, es: seq<Event>)
    requires IsRun(cfg, w, es)
    ensures SettledAt(cfg, w, es, 0)
  {
    hide Settled, Step, Inv, Possible, Replay, Lost, Started;
    var ip, o, x, s :| w[0] == Started(ip, o, x, s);
    StartedSettled(ip, o, x, s);
  }

  lemma {:induction false} SettledUpTo(cfg: Config, w: seq<Client>, es: seq<Event>, n: nat)
    requires Sane(cfg) && IsRun(cfg, w, es) && n <= |es| && NonePending(w, es, n)
    ensures SettledAt(cfg, w, es, n)
  {
    hide Settled, Step, Inv, Possible, Replay, LostIn, Lost, Started;
    if n == 0 {
      SettledStart(cfg, w, es);
    } else {
      SettledUpTo(cfg, w, es, n - 1);
      if w[n].running {
        SettledOn(cfg, w, es, n - 1);
      }
    }
  }

  /** With any configuration, every loop head of a run is settled exactly if no release reaches the client while a
      requested renewal is pending. */
  lemma WhenRunSettled(cfg: Config, w: seq<Client>, es: seq<Event>)
    requires Sane(cfg) && IsRun(cfg, w, es)
    ensures (forall i :: 0 <= i < |w| ==> SettledAt(cfg, w, es, i)) <==> NonePending(w, es, |es|)
  {
    hide Settled, Step, Inv, Possible, Replay, LostIn, Lost, Started, SettledAt, ReleasedPending;
    if NonePending(w, es, |es|) {
      forall i | 0 <= i < |w| ensures SettledAt(cfg, w, es, i) {
        SettledUpTo(cfg, w, es, i);
      }
    } else {
      var i :| 0 <= i < |es| && w[i + 1].running && ReleasedPending(w[i], es[i]);
      if SettledAt(cfg, w, es, i) {
        SettledOn(cfg, w, es, i);
      }
    }
  }

  lemma NotSettled(c: Client, lost: nat)
    requires c.state == Released && Replay(c.log).configured
    ensures !Settled(c, lost)
  {
  }
}
