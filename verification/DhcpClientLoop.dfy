/**
 The DHCPv4 client as the source has it: variables updated in place by one turn of the event
 loop after another (components/net/udhcp/dhcpc.c:1055-1117 and 1394-1795).
 */
module DhcpClientLoop {
  import opened Basics
  import opened DhcpClientSpec
  import opened DhcpClientRuns

  /** `sockfd`: closed, or open on the kernel's or the raw socket. */
  datatype Socket = Closed | KernelSocket | RawSocket

  function SocketFor(mode: Listen): Socket {
    match mode
    case ListenNone => Closed
    case ListenKernel => KernelSocket
    case ListenRaw => RawSocket
  }

  class Loop {
    const cfg: Config
    var state: State
    var listenMode: Listen
    var timeout: nat
    var packetNum: nat
    var alreadyWaited: nat
    var xid: int
    var serverAddr: int
    var requestedIp: int
    var opt: Options
    var sockfd: Socket
    var running: bool
    var now: nat
    var log: seq<Action>
    ghost var lost: nat

    /** The open socket is the one the listen mode names. */
    predicate Open()
      reads this
    {
      sockfd == SocketFor(listenMode)
    }

    /** What holds at every loop head. */
    ghost predicate Valid()
      reads this
    {
      Sane(cfg) && Open() && (running ==> Inv(View(), lost))
    }

    /** The variables as one value. */
    function View(): Client
      reads this
    {
      Client(state, listenMode, timeout, packetNum, alreadyWaited, xid, serverAddr, requestedIp,
             opt, running, now, log)
    }

    /** Up to the first loop head; `xid` and `serverAddr` start out arbitrary. */
    constructor (cfg: Config, ip: int, opt: Options, xid0: int, server0: int)
      requires Sane(cfg)
      ensures this.cfg == cfg && View() == Started(ip, opt, xid0, server0) && Valid() && lost == 0
    {
      this.cfg := cfg;
      state, listenMode := InitSelecting, ListenRaw;
      timeout, packetNum, alreadyWaited := 0, 0, 0;
      xid, serverAddr, requestedIp := xid0, server0, ip;
      this.opt, sockfd, running := opt, RawSocket, true;
      now, log, lost := 0, [Ran(0, Deconfig)], 0;
      new;
      StartedInv(ip, opt, xid0, server0);
    }

    method SendPacket(m: Message)
      modifies this`log
      ensures View() == Send(old(View()), m)
    {
      log := log + [Sent(now, m)];
    }

    method RunScript(s: Script)
      modifies this`log
      ensures View() == Run(old(View()), s)
    {
      log := log + [Ran(now, s)];
    }

    /** The old socket is closed, and one of the new kind opened. */
    method ChangeListenMode(mode: Listen)
      modifies this`listenMode, this`sockfd
      ensures View() == old(View()).(listen := mode) && Open()
    {
      listenMode := mode;
      if sockfd != Closed {
        sockfd := Closed;
      }
      if mode == ListenKernel {
        sockfd := KernelSocket;
      } else if mode != ListenNone {
        sockfd := RawSocket;
      }
    }

    /** `client_background`, and the options so changed that it is not done again. */
    method ClientBackground()
      modifies this`log, this`opt
      ensures View() == GoToBackground(old(View()))
    {
      log := log + [WentToBackground(now)];
      opt := opt.(background := false, foreground := true);
    }

    method PerformRenew()
      requires Open()
      modifies this
      ensures View() == DhcpClientSpec.PerformRenew(old(View())) && Open() && lost == old(lost)
    {
      match state {
        case Bound =>
          ChangeListenMode(ListenKernel);
          state := RenewRequested;
        case Renewing =>
          state := RenewRequested;
        case Rebinding =>
          state := RenewRequested;
        case RenewRequested =>
          RunScript(Deconfig);
          ChangeListenMode(ListenRaw);
          state := InitSelecting;
        case Requesting =>
          ChangeListenMode(ListenRaw);
          state := InitSelecting;
        case Released =>
          ChangeListenMode(ListenRaw);
          state := InitSelecting;
        case InitSelecting =>
      }
    }

    method PerformRelease()
      requires Open()
      modifies this
      ensures View() == DhcpClientSpec.PerformRelease(old(View())) && Open() && lost == old(lost)
    {
      if state == Bound || state == Renewing || state == Rebinding {
        SendPacket(Release(serverAddr, requestedIp));
        RunScript(Deconfig);
      }
      ChangeListenMode(ListenNone);
      state := Released;
    }

    /** The label `leasefail`. */
    method LeaseFail()
      requires Open()
      modifies this
      ensures View() == LeaseFailed(cfg, old(View())) && Open() && lost == old(lost)
    {
      hide Replay, XidsAgree, Overdue;
      RunScript(Leasefail);
      if cfg.mmu && opt.background {
        ClientBackground();
      } else if opt.abortIfNoLease {
        running := false;
        return;
      }
      timeout := cfg.tryagain;
      packetNum := 0;
    }

    /** The label `case_RENEW_REQUESTED` and what falls through from it. */
    method SendRenewal()
      requires Open()
      modifies this
      ensures View() == RenewOrRebind(old(View())) && Open() && lost == old(lost)
    {
      if timeout > 60 {
        SendPacket(Renew(xid, serverAddr, requestedIp));
        timeout := timeout / 2;
        return;
      }
      state := Rebinding;
      SendRebinding();
    }

    method SendRebinding()
      requires Open()
      modifies this
      ensures View() == Rebind(old(View())) && Open() && lost == old(lost)
    {
      hide Send, Run;
      ChangeListenMode(ListenRaw);
      if timeout > 0 {
        SendPacket(Renew(xid, 0, requestedIp));
        timeout := timeout / 2;
        return;
      }
      RunScript(Deconfig);
      state := InitSelecting;
      packetNum := 0;
    }

    method SendDiscover(rnd: int)
      requires Open()
      modifies this
      ensures View() == Discovering(cfg, old(View()), rnd) && Open() && lost == old(lost)
    {
      hide Replay, XidsAgree, Overdue;
      if cfg.discoverRetries == 0 || packetNum < cfg.discoverRetries {
        if packetNum == 0 {
          xid := rnd;
        }
        SendPacket(Discover(xid, requestedIp));
        timeout := cfg.discoverTimeout;
        packetNum := packetNum + 1;
      } else {
        LeaseFail();
      }
    }

    method SendSelect()
      requires Open()
      modifies this
      ensures View() == Selecting(cfg, old(View())) && Open() && lost == old(lost)
    {
      hide Replay, XidsAgree, Overdue;
      if cfg.discoverRetries == 0 || packetNum < cfg.discoverRetries {
        SendPacket(Select(xid, serverAddr, requestedIp));
        timeout := cfg.discoverTimeout;
        packetNum := packetNum + 1;
      } else {
        ChangeListenMode(ListenRaw);
        state := InitSelecting;
        LeaseFail();
      }
    }

    method OnTimeout(rnd: int)
      requires Open()
      modifies this
      ensures View() == TimedOut(cfg, old(View()), rnd) && Open() && lost == old(lost)
    {
      hide Replay, XidsAgree, Overdue, Discovering, Selecting, RenewOrRebind, Rebind;
      alreadyWaited := 0;
      match state {
        case InitSelecting =>
          SendDiscover(rnd);
        case Requesting =>
          SendSelect();
        case Bound =>
          state := Renewing;
          ChangeListenMode(ListenKernel);
          SendRenewal();
        case RenewRequested =>
          SendRenewal();
        case Renewing =>
          SendRenewal();
        case Rebinding =>
          SendRebinding();
        case Released =>
          timeout := INT_MAX;
      }
    }

    method Exit()
      requires Open()
      modifies this
      ensures View() == Quit(cfg, old(View())) && Open() && lost == old(lost)
    {
      if cfg.releaseOnQuit {
        PerformRelease();
      }
      running := false;
    }

    method HandleSignal(sig: Signal)
      requires Open()
      modifies this
      ensures View() == OnSignal(cfg, old(View()), sig) && Open() && lost == old(lost)
    {
      hide Replay, XidsAgree, Overdue, Quit, RenewOrRebind;
      match sig {
        case Usr1 =>
          alreadyWaited := 0;
          PerformRenew();
          if state == RenewRequested {
            if timeout > cfg.tryagain {
              timeout := cfg.tryagain;
            }
            SendRenewal();
            return;
          }
          packetNum := 0;
          timeout := 0;
        case Usr2 =>
          PerformRelease();
          timeout := INT_MAX;
        case Term =>
          Exit();
      }
    }

    method ReadLeaseTime(leaseTime: Option<nat>) returns (leaseSeconds: nat)
      ensures leaseSeconds == LeaseSeconds(leaseTime) && 16 <= leaseSeconds <= 0x0fff_ffff
      ensures leaseTime.None? ==> leaseSeconds == 3600
      ensures leaseTime.Some? && 16 <= leaseTime.value <= 0x0fff_ffff ==> leaseSeconds == leaseTime.value
    {
      leaseSeconds := 60 * 60;
      if leaseTime.Some? {
        leaseSeconds := leaseTime.value;
        if leaseSeconds < 0x10 {
          leaseSeconds := 0x10;
        }
        if leaseSeconds >= 0x1000_0000 {
          leaseSeconds := 0x0fff_ffff;
        }
      }
    }

    method Withdraw()
      modifies this`log
      ensures View() == Withdrawn(old(View()))
    {
      if state != Requesting {
        RunScript(Deconfig);
      }
    }

    method StartOver(pause: nat)
      modifies this`listenMode, this`sockfd, this`state, this`requestedIp
      modifies this`timeout, this`packetNum, this`alreadyWaited
      ensures View() == StartedOver(old(View()), pause) && Open()
    {
      ChangeListenMode(ListenRaw);
      state := InitSelecting;
      requestedIp := 0;
      timeout := pause;
      packetNum, alreadyWaited := 0, 0;
    }

    method DeclineAddress(p: Packet)
      requires Open()
      modifies this
      ensures View() == Declined(cfg, old(View()), p) && Open() && lost == old(lost)
    {
      hide Send, Withdrawn;
      SendPacket(Decline(serverAddr, p.yiaddr));
      Withdraw();
      StartOver(cfg.tryagain);
    }

    method TakeLease(p: Packet)
      modifies this`timeout, this`requestedIp, this`log, this`state, this`listenMode, this`sockfd
      ensures View() == Granted(old(View()), p) && Open()
    {
      hide Replay, XidsAgree, Overdue, Run;
      var leaseSeconds := ReadLeaseTime(p.leaseTime);
      timeout := leaseSeconds / 2;
      requestedIp := p.yiaddr;
      RunScript(if state == Requesting then BoundScript(leaseSeconds) else RenewScript(leaseSeconds));
      state := Bound;
      ChangeListenMode(ListenNone);
    }

    method KeepLease()
      requires Open()
      modifies this
      ensures View() == Kept(cfg, old(View())) && Open() && lost == old(lost)
    {
      hide Quit, GoToBackground;
      if cfg.quitAfterLease {
        Exit();
        return;
      }
      opt := opt.(abortIfNoLease := false);
      if cfg.mmu && !opt.foreground {
        ClientBackground();
      }
      alreadyWaited := 0;
    }

    method AcceptLease(p: Packet)
      requires Open()
      modifies this
      ensures View() == Accepted(cfg, old(View()), p) && Open() && lost == old(lost)
    {
      hide Granted, Kept;
      TakeLease(p);
      KeepLease();
    }

    method Acknowledge(p: Packet)
      requires Open()
      modifies this
      ensures View() == Acknowledged(cfg, old(View()), p) && Open() && lost == old(lost)
    {
      hide Declined, Accepted;
      if cfg.arping && p.conflict {
        DeclineAddress(p);
      } else {
        AcceptLease(p);
      }
    }

    method Refuse()
      requires Open()
      modifies this
      ensures View() == Refused(old(View())) && Open() && lost == old(lost)
    {
      hide Run, Withdrawn;
      RunScript(Nak);
      Withdraw();
      now := now + 3;
      StartOver(0);
    }

    method TakeOffer(p: Packet)
      requires Open()
      modifies this`serverAddr, this`requestedIp, this`state, this`timeout, this`packetNum, this`alreadyWaited
      ensures View() == Offered(old(View()), p) && Open()
    {
      serverAddr := 0;
      if p.serverId.Some? {
        serverAddr := p.serverId.value;
      }
      requestedIp := p.yiaddr;
      state := Requesting;
      timeout, packetNum, alreadyWaited := 0, 0, 0;
    }

    method HandlePacket(p: Packet)
      requires Open()
      modifies this
      ensures View() == OnPacket(cfg, old(View()), p) && Open() && lost == old(lost)
    {
      hide Acknowledged, Refused, Offered;
      if p.xid != xid || !p.forUs || p.messageType.None? {
        return;
      }
      if state == InitSelecting {
        if p.messageType.value == DHCPOFFER {
          TakeOffer(p);
        }
      } else if state != Bound && state != Released {
        if p.messageType.value == DHCPACK {
          Acknowledge(p);
        } else if p.messageType.value == DHCPNAK {
          Refuse();
        }
      }
    }

    /** What ends the wait is dealt with. */
    method Dispatch(e: Event)
      requires Possible(View(), e) && Open()
      modifies this
      ensures View() == Step(cfg, old(View()), e) && Open() && lost == old(lost)
    {
      hide Replay, XidsAgree, Overdue, TimedOut, OnSignal, OnPacket, Quit;
      match e {
        case Elapsed(gone, rnd) =>
          if timeout - alreadyWaited > 0 {
            now := now + (timeout - alreadyWaited);
          }
          if gone {
            Exit();
            return;
          }
          OnTimeout(rnd);
        case Interrupted(d) =>
          now := now + d;
          alreadyWaited := alreadyWaited + d;
        case Signalled(sig, d) =>
          now := now + d;
          HandleSignal(sig);
        case Received(p, d) =>
          now := now + d;
          alreadyWaited := alreadyWaited + d;
          HandlePacket(p);
        case ReadFailed(severe, d) =>
          now := now + d;
          var before := now - d;
          if severe {
            now := now + cfg.discoverTimeout;
            ChangeListenMode(listenMode);
          }
          alreadyWaited := alreadyWaited + (now - before);
        case Woken(d) =>
          now := now + d;
      }
    }

    /** One turn of the loop: wait, then act on what ended the wait. */
    method Turn(e: Event)
      requires Valid() && running && Possible(View(), e)
      modifies this
      ensures View() == Step(cfg, old(View()), e) && lost == old(lost) + Lost(cfg, e) && Valid()
    {
      hide Step, Inv;
      StepInv(cfg, View(), e, lost);
      Dispatch(e);
      lost := lost + Lost(cfg, e);
    }

    /** Whenever the loop is about to wait, the wait ends before the lease does, up to the seconds lost. */
    lemma WaitEndsWithLease()
      requires Valid() && running && HoldsLease(state)
      ensures Replay(log).configured && Replay(log).grant.Some?
      ensures var g := Replay(log).grant.value; now + (timeout - alreadyWaited) <= g.time + g.lease + lost
    {
      hide Replay;
    }
  }
}
