/**
 The event loop of the DHCPv4 client (components/net/udhcp/dhcpc.c:1055-1117 and
 1380-1795; section 4.4 of RFC 2131) as a state machine: one step for one turn of the loop.
 */
module DhcpClientSpec {
  import opened Basics

  datatype State = InitSelecting | Requesting | Bound | Renewing | Rebinding | RenewRequested | Released

  datatype Listen = ListenNone | ListenKernel | ListenRaw

  /** Messages sent; `server == 0` stands for broadcast. */
  datatype Message =
    | Discover(xid: int, requested: int)
    | Select(xid: int, server: int, requested: int)
    | Renew(xid: int, server: int, ciaddr: int)
    | Release(server: int, ciaddr: int)
    | Decline(server: int, requested: int)

  /** Calls of the configuration script; the first two carry the lease granted. */
  datatype Script = BoundScript(lease: nat) | RenewScript(lease: nat) | Deconfig | Leasefail | Nak

  /** What the client does that others can see, and when. */
  datatype Action = Sent(time: nat, message: Message) | Ran(time: nat, script: Script) | WentToBackground(time: nat)

  /** `mmu` and `arping` also stand for the builds without them. */
  datatype Config = Config(
    tryagain: nat, discoverTimeout: nat, discoverRetries: nat,
    quitAfterLease: bool, releaseOnQuit: bool, mmu: bool, arping: bool)

  /** The options that the client changes: -n, -b and -f. */
  datatype Options = Options(abortIfNoLease: bool, background: bool, foreground: bool)

  datatype Client = Client(
    state: State, listen: Listen, timeout: nat, packetNum: nat, waited: nat,
    xid: int, server: int, ip: int, opt: Options, running: bool,
    now: nat, log: seq<Action>)

  /** A received packet, as far as the loop looks at it; `conflict` tells whether `arpping` finds the address in use. */
  datatype Packet =
    Packet(xid: int, forUs: bool, messageType: Option<int>, yiaddr: int, serverId: Option<int>, leaseTime: Option<nat>,
           conflict: bool)

  datatype Signal = Usr1 | Usr2 | Term

  /** What ends the wait: nothing (`rnd` is a fresh xid), or after `d` seconds an interruption, a signal, a packet,
      a packet that cannot be read (a severe error reopens the socket) or neither signal nor packet. */
  datatype Event =
    | Elapsed(ifaceGone: bool, rnd: int)
    | Interrupted(d: nat)
    | Signalled(sig: Signal, d: nat)
    | Received(packet: Packet, d: nat)
    | ReadFailed(severe: bool, d: nat)
    | Woken(d: nat)

  const DHCPOFFER := 2
  const DHCPACK := 5
  const DHCPNAK := 6
  const INT_MAX := 0x7fff_ffff

  // ----- history, read off the log -----

  datatype Grant = Grant(time: nat, lease: nat)

  datatype History = History(configured: bool, grant: Option<Grant>, discover: Option<int>, backgrounded: nat)

  function Note(h: History, a: Action): History {
    match a
    case Ran(t, BoundScript(l)) => h.(configured := true, grant := Some(Grant(t, l)))
    case Ran(t, RenewScript(l)) => h.(configured := true, grant := Some(Grant(t, l)))
    case Ran(_, Deconfig) => h.(configured := false)
    case Ran(_, _) => h
    case Sent(_, Discover(x, _)) => h.(discover := Some(x))
    case Sent(_, _) => h
    case WentToBackground(_) => h.(backgrounded := h.backgrounded + 1)
  }

  function Replay(log: seq<Action>): History {
    if log == [] then History(false, None, None, 0) else Note(Replay(log[..|log| - 1]), log[|log| - 1])
  }

  /** A select or renewal carries the xid of the latest discover. */
  predicate XidAgrees(h: History, a: Action) {
    a.Sent? && (a.message.Select? || a.message.Renew?) ==> h.discover == Some(a.message.xid)
  }

  /** Seconds by which something is done with an address configured past the end of its lease. */
  function Late(h: History, a: Action): nat {
    if h.configured && h.grant.Some? && a.time > h.grant.value.time + h.grant.value.lease
    then a.time - (h.grant.value.time + h.grant.value.lease)
    else 0
  }

  predicate XidsAgree(log: seq<Action>) {
    log == [] ||
    (XidsAgree(log[..|log| - 1]) && XidAgrees(Replay(log[..|log| - 1]), log[|log| - 1]))
  }

  /** The longest any lease was outstayed. */
  function Overdue(log: seq<Action>): nat {
    if log == [] then 0 else Max(Overdue(log[..|log| - 1]), Late(Replay(log[..|log| - 1]), log[|log| - 1]))
  }

  function Max(a: nat, b: nat): nat {
    if a > b then a else b
  }

  function Do(c: Client, a: Action): (r: Client)
    ensures Replay(r.log) == Note(Replay(c.log), a)
    ensures XidsAgree(r.log) <==> (XidsAgree(c.log) && XidAgrees(Replay(c.log), a))
    ensures Overdue(r.log) == Max(Overdue(c.log), Late(Replay(c.log), a))
  {
    assert (c.log + [a])[..|c.log|] == c.log;
    c.(log := c.log + [a])
  }

  function Send(c: Client, m: Message): Client {
    Do(c, Sent(c.now, m))
  }

  function Run(c: Client, s: Script): Client {
    Do(c, Ran(c.now, s))
  }

  // ----- one turn of the loop -----

  /** Into the background, once and for all. */
  function GoToBackground(c: Client): Client {
    Do(c, WentToBackground(c.now)).(opt := c.opt.(background := false, foreground := true))
  }

  function LeaseFailed(cfg: Config, c: Client): Client {
    var c := Run(c, Leasefail);
    if !(cfg.mmu && c.opt.background) && c.opt.abortIfNoLease then c.(running := false)
    else (if cfg.mmu && c.opt.background then GoToBackground(c) else c).(timeout := cfg.tryagain, packetNum := 0)
  }

  predicate MayRetry(cfg: Config, c: Client) {
    cfg.discoverRetries == 0 || c.packetNum < cfg.discoverRetries
  }

  function Discovering(cfg: Config, c: Client, rnd: int): Client {
    if MayRetry(cfg, c) then
      var c := if c.packetNum == 0 then c.(xid := rnd) else c;
      Send(c, Discover(c.xid, c.ip)).(timeout := cfg.discoverTimeout, packetNum := c.packetNum + 1)
    else LeaseFailed(cfg, c)
  }

  function Selecting(cfg: Config, c: Client): Client {
    if MayRetry(cfg, c) then
      Send(c, Select(c.xid, c.server, c.ip)).(timeout := cfg.discoverTimeout, packetNum := c.packetNum + 1)
    else LeaseFailed(cfg, c.(listen := ListenRaw, state := InitSelecting))
  }

  function RenewOrRebind(c: Client): Client {
    if c.timeout > 60 then Send(c, Renew(c.xid, c.server, c.ip)).(timeout := c.timeout / 2)
    else Rebind(c.(state := Rebinding))
  }

  function Rebind(c: Client): Client {
    var c := c.(listen := ListenRaw);
    if c.timeout > 0 then Send(c, Renew(c.xid, 0, c.ip)).(timeout := c.timeout / 2)
    else Run(c, Deconfig).(state := InitSelecting, packetNum := 0)
  }

  function TimedOut(cfg: Config, c: Client, rnd: int): Client {
    var c := c.(waited := 0);
    match c.state
    case InitSelecting => Discovering(cfg, c, rnd)
    case Requesting => Selecting(cfg, c)
    case Bound => RenewOrRebind(c.(state := Renewing, listen := ListenKernel))
    case RenewRequested => RenewOrRebind(c)
    case Renewing => RenewOrRebind(c)
    case Rebinding => Rebind(c)
    case Released => c.(timeout := INT_MAX)
  }

  function PerformRenew(c: Client): Client {
    match c.state
    case Bound => c.(listen := ListenKernel, state := RenewRequested)
    case Renewing => c.(state := RenewRequested)
    case Rebinding => c.(state := RenewRequested)
    case RenewRequested => Run(c, Deconfig).(listen := ListenRaw, state := InitSelecting)
    case Requesting => c.(listen := ListenRaw, state := InitSelecting)
    case Released => c.(listen := ListenRaw, state := InitSelecting)
    case InitSelecting => c
  }

  function PerformRelease(c: Client): Client {
    var c := if c.state == Bound || c.state == Renewing || c.state == Rebinding
             then Run(Send(c, Release(c.server, c.ip)), Deconfig) else c;
    c.(listen := ListenNone, state := Released)
  }

  function Min(a: nat, b: nat): nat {
    if a < b then a else b
  }

  function Renewed(cfg: Config, c: Client): Client {
    var c := PerformRenew(c.(waited := 0));
    if c.state == RenewRequested then RenewOrRebind(c.(timeout := Min(c.timeout, cfg.tryagain)))
    else c.(packetNum := 0, timeout := 0)
  }

  function Quit(cfg: Config, c: Client): Client {
    (if cfg.releaseOnQuit then PerformRelease(c) else c).(running := false)
  }

  function OnSignal(cfg: Config, c: Client, sig: Signal): Client {
    match sig
    case Usr1 => Renewed(cfg, c)
    case Usr2 => PerformRelease(c).(timeout := INT_MAX)
    case Term => Quit(cfg, c)
  }

  /** The lease time of an acknowledgement, in seconds, kept within bounds. */
  function LeaseSeconds(leaseTime: Option<nat>): (r: nat)
    ensures 16 <= r <= 0x0fff_ffff
    ensures leaseTime.None? ==> r == 3600
    ensures leaseTime.Some? && leaseTime.value < 16 ==> r == 16
    ensures leaseTime.Some? && leaseTime.value > 0x0fff_ffff ==> r == 0x0fff_ffff
    ensures leaseTime.Some? && 16 <= leaseTime.value <= 0x0fff_ffff ==> r == leaseTime.value
  {
    match leaseTime
    case None => 3600
    case Some(l) => if l < 0x10 then 0x10 else if l >= 0x1000_0000 then 0x0fff_ffff else l
  }

  /** Deconfigured, unless no lease was held yet. */
  function Withdrawn(c: Client): Client {
    if c.state != Requesting then Run(c, Deconfig) else c
  }

  /** Back to the start after a pause. */
  function StartedOver(c: Client, pause: nat): Client {
    c.(listen := ListenRaw, state := InitSelecting, ip := 0, timeout := pause, packetNum := 0, waited := 0)
  }

  /** The address acknowledged is in use. */
  function Declined(cfg: Config, c: Client, p: Packet): Client {
    StartedOver(Withdrawn(Send(c, Decline(c.server, p.yiaddr))), cfg.tryagain)
  }

  function Granted(c: Client, p: Packet): Client {
    var lease := LeaseSeconds(p.leaseTime);
    Run(c.(timeout := lease / 2, ip := p.yiaddr),
        if c.state == Requesting then BoundScript(lease) else RenewScript(lease)).(state := Bound, listen := ListenNone)
  }

  function Kept(cfg: Config, c: Client): Client {
    if cfg.quitAfterLease then Quit(cfg, c)
    else
      var c := c.(opt := c.opt.(abortIfNoLease := false));
      (if cfg.mmu && !c.opt.foreground then GoToBackground(c) else c).(waited := 0)
  }

  function Accepted(cfg: Config, c: Client, p: Packet): Client {
    Kept(cfg, Granted(c, p))
  }

  function Acknowledged(cfg: Config, c: Client, p: Packet): Client {
    if cfg.arping && p.conflict then Declined(cfg, c, p) else Accepted(cfg, c, p)
  }

  function Refused(c: Client): Client {
    var c := Withdrawn(Run(c, Nak));
    StartedOver(c.(now := c.now + 3), 0)
  }

  function Offered(c: Client, p: Packet): Client {
    c.(server := if p.serverId.None? then 0 else p.serverId.value, ip := p.yiaddr,
       state := Requesting, timeout := 0, packetNum := 0, waited := 0)
  }

  function OnPacket(cfg: Config, c: Client, p: Packet): Client {
    if p.xid != c.xid || !p.forUs || p.messageType.None? then c
    else if c.state == InitSelecting then
      if p.messageType.value == DHCPOFFER then Offered(c, p) else c
    else if c.state == Bound || c.state == Released then c
    else if p.messageType.value == DHCPACK then Acknowledged(cfg, c, p)
    else if p.messageType.value == DHCPNAK then Refused(c)
    else c
  }

  function Remaining(c: Client): int {
    c.timeout - c.waited
  }

  /** The events the wait can end with: nothing happens longer than the time left, and no packet without a socket. */
  predicate Possible(c: Client, e: Event) {
    match e
    case Elapsed(_, _) => true
    case Interrupted(d) => d <= Remaining(c) && Remaining(c) > 0
    case Signalled(_, d) => d <= Remaining(c) && Remaining(c) > 0
    case Received(_, d) => d <= Remaining(c) && Remaining(c) > 0 && c.listen != ListenNone
    case ReadFailed(_, d) => d <= Remaining(c) && Remaining(c) > 0 && c.listen != ListenNone
    case Woken(d) => d <= Remaining(c) && Remaining(c) > 0
  }

  function Step(cfg: Config, c: Client, e: Event): Client {
    match e
    case Elapsed(gone, rnd) =>
      var c := c.(now := c.now + if Remaining(c) > 0 then Remaining(c) else 0);
      if gone then Quit(cfg, c) else TimedOut(cfg, c, rnd)
    case Interrupted(d) => c.(now := c.now + d, waited := c.waited + d)
    case Signalled(sig, d) => OnSignal(cfg, c.(now := c.now + d), sig)
    case Received(p, d) => OnPacket(cfg, c.(now := c.now + d, waited := c.waited + d), p)
    case ReadFailed(severe, d) =>
      var spent := d + if severe then cfg.discoverTimeout else 0;
      c.(now := c.now + spent, waited := c.waited + spent)
    case Woken(d) => c.(now := c.now + d)
  }

  /** Seconds an event lets pass that the loop does not count against the wait, or only after it should have ended. */
  function Lost(cfg: Config, e: Event): nat {
    match e
    case ReadFailed(true, _) => cfg.discoverTimeout
    case Woken(d) => d
    case _ => 0
  }

  function LostIn(cfg: Config, es: seq<Event>): nat {
    if es == [] then 0 else LostIn(cfg, es[..|es| - 1]) + Lost(cfg, es[|es| - 1])
  }

  /** The client at the first loop head; `ip` and `opt` come from the command line. */
  function Started(ip: int, opt: Options, xid: int, server: int): Client {
    var c := Client(InitSelecting, ListenNone, 0, 0, 0, xid, server, ip, opt, true, 0, []);
    Run(c, Deconfig).(listen := ListenRaw)
  }

  /** `w` is a run: each state but the first comes from the one before it by a possible event. */
  ghost predicate IsRun(cfg: Config, w: seq<Client>, es: seq<Event>) {
    && |w| == |es| + 1
    && (exists ip, o, x, s :: w[0] == Started(ip, o, x, s))
    && forall i | 0 <= i < |es| :: w[i].running && Possible(w[i], es[i]) && w[i + 1] == Step(cfg, w[i], es[i])
  }
}
