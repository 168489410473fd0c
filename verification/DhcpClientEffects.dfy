/**
 What each turn of the DHCPv4 client's loop does (components/net/udhcp/dhcpc.c:1394-1795), written out: every
 field that changes, and every entry of the log, for each state and each event.
 */
module DhcpClientEffects {
  import opened Basics
  import opened DhcpClientSpec

  // ----- packets -----

  /** A packet with our xid, for our hardware address, of message type `kind`. */
  predicate Ours(c: Client, p: Packet, kind: int) {
    p.xid == c.xid && p.forUs && p.messageType == Some(kind)
  }

  predicate AwaitsAnswer(s: State) {
    s == Requesting || s == Renewing || s == RenewRequested || s == Rebinding
  }

  /** A DHCPACK (5) binds: half of the lease is the timeout, and the script gets the lease. */
  lemma AckBinds(cfg: Config, c: Client, p: Packet, d: nat)
    requires AwaitsAnswer(c.state) && Ours(c, p, 5) && !(cfg.arping && p.conflict) && !cfg.quitAfterLease
    ensures var lease := LeaseSeconds(p.leaseTime); var t := c.now + d;
      var granted := Ran(t, if c.state == Requesting then BoundScript(lease) else RenewScript(lease));
      var forks := cfg.mmu && !c.opt.foreground;
      Step(cfg, c, Received(p, d)) == c.(
        state := Bound, listen := ListenNone, ip := p.yiaddr, timeout := lease / 2, waited := 0, now := t,
        opt := if forks then Options(false, false, true) else c.opt.(abortIfNoLease := false),
        log := c.log + [granted] + if forks then [WentToBackground(t)] else [])
  {
    hide Replay, XidsAgree, Overdue;
  }

  /** With -q the client stops there. */
  lemma AckQuits(cfg: Config, c: Client, p: Packet, d: nat)
    requires AwaitsAnswer(c.state) && Ours(c, p, 5) && !(cfg.arping && p.conflict) && cfg.quitAfterLease
    requires !cfg.releaseOnQuit
    ensures var lease := LeaseSeconds(p.leaseTime); var t := c.now + d;
      Step(cfg, c, Received(p, d)) == c.(
        state := Bound, listen := ListenNone, running := false,
        ip := p.yiaddr, timeout := lease / 2, waited := c.waited + d, now := t,
        log := c.log + [Ran(t, if c.state == Requesting then BoundScript(lease) else RenewScript(lease))])
  {
    hide Replay, XidsAgree, Overdue;
  }

  /** With -R it releases the lease first. */
  lemma AckReleases(cfg: Config, c: Client, p: Packet, d: nat)
    requires AwaitsAnswer(c.state) && Ours(c, p, 5) && !(cfg.arping && p.conflict) && cfg.quitAfterLease
    requires cfg.releaseOnQuit
    ensures var lease := LeaseSeconds(p.leaseTime); var t := c.now + d;
      var granted := Ran(t, if c.state == Requesting then BoundScript(lease) else RenewScript(lease));
      Step(cfg, c, Received(p, d)) == c.(
        state := Released, listen := ListenNone, running := false,
        ip := p.yiaddr, timeout := lease / 2, waited := c.waited + d, now := t,
        log := c.log + [granted] + [Sent(t, Release(c.server, p.yiaddr))] + [Ran(t, Deconfig)])
  {
    hide Replay, XidsAgree, Overdue;
  }

  /** An address in use is declined to the server that offered it, and after a pause the client starts over. */
  lemma AckDeclined(cfg: Config, c: Client, p: Packet, d: nat)
    requires AwaitsAnswer(c.state) && Ours(c, p, 5) && cfg.arping && p.conflict
    ensures var t := c.now + d;
      Step(cfg, c, Received(p, d)) == c.(
        state := InitSelecting, listen := ListenRaw, ip := 0, timeout := cfg.tryagain, packetNum := 0, waited := 0,
        now := t,
        log := c.log + [Sent(t, Decline(c.server, p.yiaddr))] +
          if c.state == Requesting then [] else [Ran(t, Deconfig)])
  {
    hide Replay, XidsAgree, Overdue;
  }

  /** A DHCPNAK (6) starts over, after 3 seconds. */
  lemma NakStartsOver(cfg: Config, c: Client, p: Packet, d: nat)
    requires AwaitsAnswer(c.state) && Ours(c, p, 6)
    ensures var t := c.now + d;
      Step(cfg, c, Received(p, d)) == c.(
        state := InitSelecting, listen := ListenRaw, ip := 0, timeout := 0, packetNum := 0, waited := 0, now := t + 3,
        log := c.log + [Ran(t, Nak)] + if c.state == Requesting then [] else [Ran(t, Deconfig)])
  {
    hide Replay, XidsAgree, Overdue;
  }

  /** A DHCPOFFER (2) is asked for: the next timeout, at once, sends a select with its server and address. */
  lemma OfferSelected(cfg: Config, c: Client, p: Packet, d: nat, rnd: int)
    requires c.state == InitSelecting && Ours(c, p, 2)
    ensures var server := if p.serverId.Some? then p.serverId.value else 0; var t := c.now + d;
      var r := Step(cfg, c, Received(p, d));
      && r == c.(state := Requesting, server := server, ip := p.yiaddr,
                 timeout := 0, packetNum := 0, waited := 0, now := t)
      && Step(cfg, r, Elapsed(false, rnd)) ==
           r.(timeout := cfg.discoverTimeout, packetNum := 1, log := c.log + [Sent(t, Select(c.xid, server, p.yiaddr))])
  {
    hide Replay, XidsAgree, Overdue;
  }

  /** Any other packet, and a packet that cannot be read, only takes its time. */
  lemma OthersOnlyTakeTime(cfg: Config, c: Client, p: Packet, d: nat)
    requires !(c.state == InitSelecting && Ours(c, p, 2))
    requires !(AwaitsAnswer(c.state) && (Ours(c, p, 5) || Ours(c, p, 6)))
    ensures Step(cfg, c, Received(p, d)) == c.(now := c.now + d, waited := c.waited + d)
    ensures Step(cfg, c, ReadFailed(false, d)) == c.(now := c.now + d, waited := c.waited + d)
    ensures Step(cfg, c, Interrupted(d)) == c.(now := c.now + d, waited := c.waited + d)
    ensures Step(cfg, c, Woken(d)) == c.(now := c.now + d)
    ensures var spent := d + cfg.discoverTimeout;
      Step(cfg, c, ReadFailed(true, d)) == c.(now := c.now + spent, waited := c.waited + spent)
  {
  }

  // ----- timeouts -----

  /** When the wait is over: at once if it is overdue. */
  function WokenAt(c: Client): nat {
    if c.timeout > c.waited then c.now + (c.timeout - c.waited) else c.now
  }

  predicate TriesLeft(cfg: Config, c: Client) {
    cfg.discoverRetries == 0 || c.packetNum < cfg.discoverRetries
  }

  /** A discover asks for the address in `ip`; the first one of a round has a new xid. */
  lemma Discovers(cfg: Config, c: Client, rnd: int)
    requires c.state == InitSelecting && TriesLeft(cfg, c)
    ensures var t := WokenAt(c); var xid := if c.packetNum == 0 then rnd else c.xid;
      Step(cfg, c, Elapsed(false, rnd)) == c.(
        xid := xid, timeout := cfg.discoverTimeout, packetNum := c.packetNum + 1, waited := 0, now := t,
        log := c.log + [Sent(t, Discover(xid, c.ip))])
  {
    hide Replay, XidsAgree, Overdue;
  }

  lemma Selects(cfg: Config, c: Client, rnd: int)
    requires c.state == Requesting && TriesLeft(cfg, c)
    ensures var t := WokenAt(c);
      Step(cfg, c, Elapsed(false, rnd)) == c.(
        timeout := cfg.discoverTimeout, packetNum := c.packetNum + 1, waited := 0, now := t,
        log := c.log + [Sent(t, Select(c.xid, c.server, c.ip))])
  {
    hide Replay, XidsAgree, Overdue;
  }

  /** When the tries are used up: to the background with -b, the end with -n, otherwise a pause. */
  lemma GivesUpTrying(cfg: Config, c: Client, rnd: int)
    requires (c.state == InitSelecting || c.state == Requesting) && !TriesLeft(cfg, c)
    ensures var t := WokenAt(c); var forks := cfg.mmu && c.opt.background;
      var listen := if c.state == Requesting then ListenRaw else c.listen;
      Step(cfg, c, Elapsed(false, rnd)) ==
        if !forks && c.opt.abortIfNoLease
        then c.(state := InitSelecting, listen := listen, waited := 0, now := t, running := false,
                log := c.log + [Ran(t, Leasefail)])
        else c.(state := InitSelecting, listen := listen, waited := 0, now := t,
                timeout := cfg.tryagain, packetNum := 0,
                opt := if forks then c.opt.(background := false, foreground := true) else c.opt,
                log := c.log + [Ran(t, Leasefail)] + if forks then [WentToBackground(t)] else [])
  {
    hide Replay, XidsAgree, Overdue;
    assert c.log + [Ran(WokenAt(c), Leasefail)] + [] == c.log + [Ran(WokenAt(c), Leasefail)];
  }

  /** Over 60 seconds of timeout: a renewal to the server, on the kernel's socket. */
  lemma RenewsByUnicast(cfg: Config, c: Client, rnd: int)
    requires (c.state == Bound || c.state == Renewing || c.state == RenewRequested) && c.timeout > 60
    ensures var t := WokenAt(c);
      Step(cfg, c, Elapsed(false, rnd)) == c.(
        state := if c.state == Bound then Renewing else c.state,
        listen := if c.state == Bound then ListenKernel else c.listen,
        timeout := c.timeout / 2, waited := 0, now := t, log := c.log + [Sent(t, Renew(c.xid, c.server, c.ip))])
  {
    hide Replay, XidsAgree, Overdue;
  }

  predicate Rebinds(c: Client) {
    c.state == Rebinding || ((c.state == Bound || c.state == Renewing || c.state == RenewRequested) && c.timeout <= 60)
  }

  /** Otherwise, as long as any timeout is left, to everyone, on the raw socket. */
  lemma RenewsByBroadcast(cfg: Config, c: Client, rnd: int)
    requires Rebinds(c) && c.timeout > 0
    ensures var t := WokenAt(c);
      Step(cfg, c, Elapsed(false, rnd)) == c.(
        state := Rebinding, listen := ListenRaw, timeout := c.timeout / 2, waited := 0, now := t,
        log := c.log + [Sent(t, Renew(c.xid, 0, c.ip))])
  {
    hide Replay, XidsAgree, Overdue;
  }

  /** With none left the lease is lost. */
  lemma LosesLease(cfg: Config, c: Client, rnd: int)
    requires Rebinds(c) && c.timeout == 0
    ensures Step(cfg, c, Elapsed(false, rnd)) == c.(
      state := InitSelecting, listen := ListenRaw, packetNum := 0, waited := 0, log := c.log + [Ran(c.now, Deconfig)])
  {
    hide Replay, XidsAgree, Overdue;
  }

  lemma StaysReleased(cfg: Config, c: Client, rnd: int)
    requires c.state == Released
    ensures Step(cfg, c, Elapsed(false, rnd)) == c.(timeout := 0x7fff_ffff, waited := 0, now := WokenAt(c))
  {
  }

  // ----- signals -----

  predicate HasAddress(s: State) {
    s == Bound || s == Renewing || s == Rebinding
  }

  /** The retry pause caps the timeout. */
  function Capped(cfg: Config, c: Client): nat {
    if c.timeout > cfg.tryagain then cfg.tryagain else c.timeout
  }

  /** SIGUSR1 with a lease: a renewal at once, with the timeout capped by the retry pause. */
  lemma SignalRenews(cfg: Config, c: Client, d: nat)
    requires HasAddress(c.state) && Capped(cfg, c) > 60
    ensures var t := c.now + d;
      Step(cfg, c, Signalled(Usr1, d)) == c.(
        state := RenewRequested, listen := if c.state == Bound then ListenKernel else c.listen,
        timeout := Capped(cfg, c) / 2, waited := 0, now := t, log := c.log + [Sent(t, Renew(c.xid, c.server, c.ip))])
  {
    hide Replay, XidsAgree, Overdue;
  }

  lemma SignalRebinds(cfg: Config, c: Client, d: nat)
    requires HasAddress(c.state) && 0 < Capped(cfg, c) <= 60
    ensures var t := c.now + d;
      Step(cfg, c, Signalled(Usr1, d)) == c.(
        state := Rebinding, listen := ListenRaw,
        timeout := Capped(cfg, c) / 2, waited := 0, now := t, log := c.log + [Sent(t, Renew(c.xid, 0, c.ip))])
  {
    hide Replay, XidsAgree, Overdue;
  }

  lemma SignalLosesLease(cfg: Config, c: Client, d: nat)
    requires HasAddress(c.state) && Capped(cfg, c) == 0
    ensures var t := c.now + d;
      Step(cfg, c, Signalled(Usr1, d)) == c.(
        state := InitSelecting, listen := ListenRaw, packetNum := 0, timeout := 0, waited := 0, now := t,
        log := c.log + [Ran(t, Deconfig)])
  {
    hide Replay, XidsAgree, Overdue;
  }

  /** Without one, or while a requested renewal is pending, it starts over at once. */
  lemma SignalStartsOver(cfg: Config, c: Client, d: nat)
    requires !HasAddress(c.state)
    ensures var t := c.now + d;
      Step(cfg, c, Signalled(Usr1, d)) == c.(
        state := InitSelecting, listen := if c.state == InitSelecting then c.listen else ListenRaw,
        timeout := 0, packetNum := 0, waited := 0, now := t,
        log := c.log + if c.state == RenewRequested then [Ran(t, Deconfig)] else [])
  {
    hide Replay, XidsAgree, Overdue;
    assert c.log + [] == c.log;
  }

  /** SIGUSR2, and SIGTERM or a lost interface with -R, give the address back where there is one. */
  lemma SignalReleases(cfg: Config, c: Client, d: nat)
    ensures var t := c.now + d;
      Step(cfg, c, Signalled(Usr2, d)) == c.(
        state := Released, listen := ListenNone, timeout := 0x7fff_ffff, now := t,
        log := c.log + if HasAddress(c.state) then [Sent(t, Release(c.server, c.ip)), Ran(t, Deconfig)] else [])
  {
    hide Replay, XidsAgree, Overdue;
    GivenBack(c, c.now + d);
  }

  lemma GivenBack(c: Client, t: nat)
    ensures c.log + [] == c.log
    ensures c.log + [Sent(t, Release(c.server, c.ip))] + [Ran(t, Deconfig)] ==
      c.log + [Sent(t, Release(c.server, c.ip)), Ran(t, Deconfig)]
  {
  }

  /** Where the client stops at time `t`. */
  function Stopped(cfg: Config, c: Client, t: nat): Client {
    if !cfg.releaseOnQuit then c.(now := t, running := false)
    else
      c.(state := Released, listen := ListenNone, now := t, running := false,
         log := c.log + if HasAddress(c.state) then [Sent(t, Release(c.server, c.ip)), Ran(t, Deconfig)] else [])
  }

  lemma Stops(cfg: Config, c: Client, d: nat, rnd: int)
    ensures Step(cfg, c, Signalled(Term, d)) == Stopped(cfg, c, c.now + d)
    ensures Step(cfg, c, Elapsed(true, rnd)) == Stopped(cfg, c, WokenAt(c))
  {
    hide Replay, XidsAgree, Overdue;
    GivenBack(c, c.now + d);
    GivenBack(c, WokenAt(c));
  }

  // ----- which events there are -----

  /** Anything can happen while the wait is not over, packets while there is a socket; the wait can always end. */
  lemma WhatCanHappen(c: Client, p: Packet, sig: Signal, d: nat, severe: bool, gone: bool, rnd: int)
    ensures Possible(c, Elapsed(gone, rnd))
    ensures Possible(c, Signalled(sig, d)) <==> c.waited < c.timeout && d <= c.timeout - c.waited
    ensures Possible(c, Interrupted(d)) <==> c.waited < c.timeout && d <= c.timeout - c.waited
    ensures Possible(c, Woken(d)) <==> c.waited < c.timeout && d <= c.timeout - c.waited
    ensures Possible(c, Received(p, d)) <==>
      c.waited < c.timeout && d <= c.timeout - c.waited && (c.listen == ListenKernel || c.listen == ListenRaw)
    ensures Possible(c, ReadFailed(severe, d)) <==>
      c.waited < c.timeout && d <= c.timeout - c.waited && (c.listen == ListenKernel || c.listen == ListenRaw)
  {
  }

  /** The first loop head: deconfigured, listening on the raw socket, and a discover due at once. */
  lemma StartsDeconfigured(ip: int, opt: Options, xid: int, server: int)
    ensures Started(ip, opt, xid, server) ==
      Client(InitSelecting, ListenRaw, 0, 0, 0, xid, server, ip, opt, true, 0, [Ran(0, Deconfig)])
  {
  }

  // ----- what the log says -----

  predicate Configures(a: Action) {
    a.Ran? && (a.script.BoundScript? || a.script.RenewScript?)
  }

  predicate Deconfigures(a: Action) {
    a.Ran? && a.script.Deconfig?
  }

  predicate Discovered(a: Action) {
    a.Sent? && a.message.Discover?
  }

  /** Entry `i` configures, and none after it deconfigures. */
  predicate StillConfigured(log: seq<Action>, i: nat) {
    i < |log| && Configures(log[i]) && forall j :: i < j < |log| ==> !Deconfigures(log[j])
  }

  /** Entry `i` is the last that configures. */
  predicate LastConfigures(log: seq<Action>, i: nat) {
    i < |log| && Configures(log[i]) && forall j :: i < j < |log| ==> !Configures(log[j])
  }

  /** Entry `i` is the last discover. */
  predicate LastDiscover(log: seq<Action>, i: nat) {
    i < |log| && Discovered(log[i]) && forall j :: i < j < |log| ==> !Discovered(log[j])
  }

  lemma OneEntryMore(init: seq<Action>, a: Action, i: nat)
    ensures var log := init + [a];
      && (i < |init| ==> (StillConfigured(log, i) <==> StillConfigured(init, i) && !Deconfigures(a)))
      && (i < |init| ==> (LastConfigures(log, i) <==> LastConfigures(init, i) && !Configures(a)))
      && (i < |init| ==> (LastDiscover(log, i) <==> LastDiscover(init, i) && !Discovered(a)))
      && (StillConfigured(log, |init|) <==> Configures(a)) && (LastConfigures(log, |init|) <==> Configures(a))
      && (LastDiscover(log, |init|) <==> Discovered(a))
  {
    var log := init + [a];
    assert forall j :: 0 <= j < |init| ==> log[j] == init[j];
    assert log[|init|] == a;
  }

  lemma LogSplit(log: seq<Action>)
    requires log != []
    ensures log == log[..|log| - 1] + [log[|log| - 1]]
    ensures Replay(log) == Note(Replay(log[..|log| - 1]), log[|log| - 1])
  {
  }

  /** Configured means that some script configured and none after it deconfigured. */
  lemma {:induction false} ConfiguredMeans(log: seq<Action>)
    ensures Replay(log).configured <==> exists i: nat :: StillConfigured(log, i)
  {
    if log != [] {
      var init, a := log[..|log| - 1], log[|log| - 1];
      LogSplit(log);
      ConfiguredMeans(init);
      hide Replay, StillConfigured, LastConfigures, LastDiscover;
      OneEntryMore(init, a, |init|);
      if i: nat :| StillConfigured(init, i) {
        EntryInside(init, i);
        OneEntryMore(init, a, i);
      }
      forall i: nat | StillConfigured(log, i) ensures Replay(log).configured {
        EntryInside(log, i);
        OneEntryMore(init, a, i);
      }
    }
  }

  lemma EntryInside(log: seq<Action>, i: nat)
    ensures StillConfigured(log, i) || LastConfigures(log, i) || LastDiscover(log, i) ==> i < |log|
  {
  }

  /** The grant is the lease and the time of the last script that configured. */
  lemma {:induction false} GrantMeans(log: seq<Action>)
    ensures Replay(log).grant.None? ==> forall i :: 0 <= i < |log| ==> !Configures(log[i])
    ensures forall i: nat :: LastConfigures(log, i) ==>
      Replay(log).grant == Some(Grant(log[i].time, log[i].script.lease))
    ensures Replay(log).grant.Some? ==> exists i: nat :: LastConfigures(log, i)
  {
    if log != [] {
      var init, a := log[..|log| - 1], log[|log| - 1];
      LogSplit(log);
      GrantMeans(init);
      OneEntryMore(init, a, |init|);
      if i: nat :| LastConfigures(init, i) {
        OneEntryMore(init, a, i);
      }
      forall i: nat | LastConfigures(log, i)
        ensures Replay(log).grant == Some(Grant(log[i].time, log[i].script.lease))
      {
        OneEntryMore(init, a, i);
      }
      assert forall i :: 0 <= i < |init| ==> log[i] == init[i];
    }
  }

  /** The xid noted is that of the last discover. */
  lemma {:induction false} DiscoverMeans(log: seq<Action>)
    ensures Replay(log).discover.None? ==> forall i :: 0 <= i < |log| ==> !Discovered(log[i])
    ensures forall i: nat :: LastDiscover(log, i) ==> Replay(log).discover == Some(log[i].message.xid)
    ensures Replay(log).discover.Some? ==> exists i: nat :: LastDiscover(log, i)
  {
    if log != [] {
      var init, a := log[..|log| - 1], log[|log| - 1];
      LogSplit(log);
      DiscoverMeans(init);
      OneEntryMore(init, a, |init|);
      if i: nat :| LastDiscover(init, i) {
        OneEntryMore(init, a, i);
      }
      forall i: nat | LastDiscover(log, i) ensures Replay(log).discover == Some(log[i].message.xid) {
        OneEntryMore(init, a, i);
      }
      assert forall i :: 0 <= i < |init| ==> log[i] == init[i];
    }
  }

  /** At most one entry for going to the background means there are no two. */
  lemma {:induction false} BackgroundedMeans(log: seq<Action>)
    ensures Replay(log).backgrounded == 0 <==> forall i :: 0 <= i < |log| ==> !log[i].WentToBackground?
    ensures Replay(log).backgrounded <= 1 <==>
      forall i, j :: 0 <= i < j < |log| ==> !(log[i].WentToBackground? && log[j].WentToBackground?)
  {
    if log != [] {
      var init, n := log[..|log| - 1], |log| - 1;
      BackgroundedMeans(init);
      assert forall i :: 0 <= i < n ==> init[i] == log[i];
    }
  }

  /** Every select and renewal carries the xid of the latest discover before it. */
  lemma {:induction false} XidsAgreeMeans(log: seq<Action>)
    ensures XidsAgree(log) <==>
      forall i :: 0 <= i < |log| && log[i].Sent? && (log[i].message.Select? || log[i].message.Renew?) ==>
        Replay(log[..i]).discover == Some(log[i].message.xid)
  {
    if log != [] {
      var init, n := log[..|log| - 1], |log| - 1;
      XidsAgreeMeans(init);
      forall i | 0 <= i <= n ensures log[..i] == init[..i] && (i < n ==> init[i] == log[i]) {
      }
    }
  }

  /** No more than `s` seconds overdue: nothing is done, with the interface configured, later than that after the
      end of the lease. */
  lemma {:induction false} OverdueMeans(log: seq<Action>, s: nat)
    ensures Overdue(log) <= s <==>
      forall i :: 0 <= i < |log| ==> var h := Replay(log[..i]);
        h.configured && h.grant.Some? ==> log[i].time <= h.grant.value.time + h.grant.value.lease + s
  {
    if log != [] {
      var init, n := log[..|log| - 1], |log| - 1;
      OverdueMeans(init, s);
      forall i | 0 <= i <= n ensures log[..i] == init[..i] && (i < n ==> init[i] == log[i]) {
      }
    }
  }

  /** The seconds lost are those of severe read errors and of wake-ups with nothing to do. */
  lemma LostMeans(cfg: Config, e: Event)
    ensures e.Woken? ==> Lost(cfg, e) == e.d
    ensures e.ReadFailed? && e.severe ==> Lost(cfg, e) == cfg.discoverTimeout
    ensures !e.Woken? && !(e.ReadFailed? && e.severe) ==> Lost(cfg, e) == 0
  {
  }
}
