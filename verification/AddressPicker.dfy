/**
 The choice of an address to offer, `find_free_or_expired_nip`
 (components/net/udhcp/leases.c:121-218): one walk round the pool.
 */
module AddressPicker {
  import opened Basics
  import L = LeaseTable

  const TWO32 := 0x1_0000_0000

  /** The pool bounds are in host order, the other addresses in network order. */
  datatype Config = Config(startIp: nat, endIp: nat, serverNip: nat, reserved: seq<nat>)

  /** A pool of 32-bit addresses. */
  predicate ValidConfig(cfg: Config) {
    cfg.startIp <= cfg.endIp < TWO32
  }

  /** Host to network order: the four octets reversed. */
  function Htonl(a: nat): (n: nat)
    requires a < TWO32
  {
    (a % 256) * 0x100_0000 + (a / 256 % 256) * 0x1_0000 + (a / 0x1_0000 % 256) * 0x100 + a / 0x100_0000
  }

  function PoolSize(cfg: Config): nat
    requires ValidConfig(cfg)
  {
    1 + cfg.endIp - cfg.startIp
  }

  /** The `k`-th address of the walk that starts `offset` addresses into the pool. */
  function Visited(cfg: Config, offset: nat, k: nat): (a: nat)
    requires ValidConfig(cfg) && offset < PoolSize(cfg) && k < PoolSize(cfg)
    ensures cfg.startIp <= a <= cfg.endIp
  {
    var x := offset + k;
    cfg.startIp + if x < PoolSize(cfg) then x else x - PoolSize(cfg)
  }

  /** The walk meets every address of the pool exactly once. */
  lemma VisitsEachOnce(cfg: Config, offset: nat, a: nat)
    requires ValidConfig(cfg) && offset < PoolSize(cfg) && cfg.startIp <= a <= cfg.endIp
    ensures exists k: nat :: k < PoolSize(cfg) && Visited(cfg, offset, k) == a
    ensures forall j: nat, k: nat ::
      j < PoolSize(cfg) && k < PoolSize(cfg) && Visited(cfg, offset, j) == Visited(cfg, offset, k) ==> j == k
  {
    var x := a - cfg.startIp;
    var k := if x >= offset then x - offset else x + PoolSize(cfg) - offset;
    assert Visited(cfg, offset, k) == a;
  }

  /** An address that may be offered at all. */
  predicate Usable(cfg: Config, a: nat)
    requires a < TWO32
  {
    a % 256 != 0 && a % 256 != 255 && Htonl(a) != cfg.serverNip && Htonl(a) !in cfg.reserved
  }

  function SlotOf(s: seq<L.Lease>, a: nat): (slot: int)
    requires a < TWO32
    ensures -1 <= slot < |s|
  {
    L.FirstNip(s, Htonl(a))
  }

  predicate Free(cfg: Config, s: seq<L.Lease>, a: nat)
    requires a < TWO32
  {
    Usable(cfg, a) && SlotOf(s, a) < 0
  }

  /** A leased address whose station is not associated any more. */
  predicate Reclaimable(cfg: Config, s: seq<L.Lease>, online: nat -> bool, a: nat)
    requires a < TWO32
  {
    Usable(cfg, a) && SlotOf(s, a) >= 0 && !online(s[SlotOf(s, a)].mac)
  }

  function Expiry(s: seq<L.Lease>, a: nat): nat
    requires a < TWO32 && SlotOf(s, a) >= 0
  {
    s[SlotOf(s, a)].expires
  }

  /** Among the first `n` addresses of the walk, `b` is the first with the earliest expiry that can be reclaimed;
      none if `b < 0`. */
  ghost predicate IsBest(cfg: Config, s: seq<L.Lease>, online: nat -> bool, offset: nat, n: nat, b: int)
    requires ValidConfig(cfg) && offset < PoolSize(cfg) && n <= PoolSize(cfg)
  {
    if b < 0 then forall k: nat :: k < n ==> !Reclaimable(cfg, s, online, Visited(cfg, offset, k))
    else
      && b < n && Reclaimable(cfg, s, online, Visited(cfg, offset, b))
      && forall k: nat :: k < n && Reclaimable(cfg, s, online, Visited(cfg, offset, k)) ==>
           (if k < b then Expiry(s, Visited(cfg, offset, b)) < Expiry(s, Visited(cfg, offset, k))
            else Expiry(s, Visited(cfg, offset, b)) <= Expiry(s, Visited(cfg, offset, k)))
  }

  // ----- the hash -----

  function Power(n: nat): nat {
    if n == 0 then 1 else 65600 * Power(n - 1)
  }

  /** The octets as digits to the base 65600, the first one highest. */
  function Weighted(mac: seq<byte>): nat {
    if mac == [] then 0 else mac[0] * Power(|mac| - 1) + Weighted(mac[1..])
  }

  lemma {:induction false} WeightedNext(mac: seq<byte>, x: byte)
    ensures Weighted(mac + [x]) == 65600 * Weighted(mac) + x
  {
    if mac == [] {
      assert [x][1..] == [] && Power(0) == 1;
    } else {
      WeightedNext(mac[1..], x);
      assert (mac + [x])[1..] == mac[1..] + [x];
      assert Power(|mac|) == 65600 * Power(|mac| - 1);
      OneBaseMore(mac[0], Power(|mac| - 1));
    }
  }

  lemma OneBaseMore(x: nat, p: nat)
    ensures x * (65600 * p) == 65600 * (x * p)
  {
  }

  lemma HashStep(w: nat, x: byte)
    ensures var h := w % TWO32; (h + (x + h * 64 + h * 65536 - h)) % TWO32 == (65600 * w + x) % TWO32
  {
    var h, q := w % TWO32, w / TWO32;
    assert 65600 * w + x == (65600 * h + x) + 65600 * q * TWO32;
    RoundsDropped(65600 * h + x, 65600 * q);
    assert h + (x + h * 64 + h * 65536 - h) == 65600 * h + x;
  }

  lemma RoundsDropped(y: nat, k: nat)
    ensures (y + k * TWO32) % TWO32 == y % TWO32
  {
  }

  /** The loop in 32-bit arithmetic: the hash is the number the octets stand for, modulo 2^32. */
  method HashMac(mac: seq<byte>) returns (hash: nat)
    ensures hash == Weighted(mac) % TWO32
  {
    hide Weighted;
    hash := 0;
    WeightedNothing();
    assert mac[..0] == [];
    for i := 0 to |mac|
      invariant hash == Weighted(mac[..i]) % TWO32
    {
      assert mac[..i + 1] == mac[..i] + [mac[i]];
      WeightedNext(mac[..i], mac[i]);
      HashStep(Weighted(mac[..i]), mac[i]);
      hash := (hash + (mac[i] + hash * 64 + hash * 65536 - hash)) % TWO32;
    }
    assert mac[..|mac|] == mac;
  }

  lemma WeightedNothing()
    ensures Weighted([]) == 0
  {
  }

  /** Of the first of six octets only the two lowest bits count. */
  lemma FirstOctetHardlyCounts(a: byte, b: byte, rest: seq<byte>)
    requires |rest| == 5
    ensures Weighted([a] + rest) % TWO32 == Weighted([b] + rest) % TWO32 <==> a % 4 == b % 4
  {
    FirstOctet(a, rest);
    FirstOctet(b, rest);
  }

  lemma FirstOctet(a: byte, rest: seq<byte>)
    requires |rest| == 5
    ensures Weighted([a] + rest) % TWO32 == (a % 4 * 0x4000_0000 + Weighted(rest)) % TWO32
  {
    hide Weighted, Power;
    FirstDigit(a, rest);
    PowerOfFive();
    var v, u := a % 4, a / 4;
    var k := 1131408212890625;
    assert a * (0x4000_0000 * k) == TWO32 * (u * k + v * (k / 4)) + v * 0x4000_0000;
  }

  lemma FirstDigit(a: byte, rest: seq<byte>)
    ensures Weighted([a] + rest) == a * Power(|rest|) + Weighted(rest)
  {
    assert ([a] + rest)[1..] == rest;
  }

  lemma PowerOfFive()
    ensures Power(5) == 0x4000_0000 * 1131408212890625
  {
    assert Power(2) == 65600 * 65600 && Power(3) == 65600 * Power(2) && Power(4) == 65600 * Power(3);
  }

  method IsNipReserved(reserved: seq<nat>, nip: nat) returns (r: bool)
    ensures r <==> nip in reserved
  {
    for i := 0 to |reserved|
      invariant nip !in reserved[..i]
    {
      if reserved[i] == nip {
        return true;
      }
    }
    return false;
  }

  // ----- the walk -----

  /** `seeded` stands for the build that starts the walk at an address derived from the hardware address. Such a walk
      goes on at the start of the pool when an address is greater than the last one, and no address is greater than
      255.255.255.255: a pool that ends there is left, and every address there is visited. */
  function Searched(cfg: Config, seeded: bool): (r: Config)
    requires ValidConfig(cfg)
    ensures ValidConfig(r)
  {
    if seeded && cfg.endIp == TWO32 - 1 then cfg.(startIp := 0) else cfg
  }

  /** The number of pool addresses must be a number of 32 bits when it divides the hash. */
  predicate Divides(cfg: Config, seeded: bool)
    requires ValidConfig(cfg)
  {
    seeded ==> PoolSize(cfg) < TWO32
  }

  /** How many addresses into those searched the walk starts. */
  function Start(cfg: Config, mac: seq<byte>, seeded: bool): (offset: nat)
    requires ValidConfig(cfg) && Divides(cfg, seeded)
    ensures offset < PoolSize(Searched(cfg, seeded))
    ensures cfg.startIp <= Searched(cfg, seeded).startIp + offset <= cfg.endIp
  {
    if seeded then cfg.startIp - Searched(cfg, seeded).startIp + Weighted(mac) % TWO32 % PoolSize(cfg) else 0
  }

  /** The walk stays in the pool exactly if it is not seeded, or the pool does not end at 255.255.255.255 or starts
      at 0.0.0.0. */
  lemma WhenWalkStaysInPool(cfg: Config, mac: seq<byte>, seeded: bool)
    requires ValidConfig(cfg) && Divides(cfg, seeded)
    ensures var pool := Searched(cfg, seeded); var offset := Start(cfg, mac, seeded);
      (forall k: nat :: k < PoolSize(pool) ==> cfg.startIp <= Visited(pool, offset, k) <= cfg.endIp) <==>
      !seeded || cfg.endIp < TWO32 - 1 || cfg.startIp == 0
  {
    var pool := Searched(cfg, seeded);
    if seeded && cfg.endIp == TWO32 - 1 && cfg.startIp > 0 {
      VisitsEachOnce(pool, Start(cfg, mac, seeded), 0);
      var k: nat :| k < PoolSize(pool) && Visited(pool, Start(cfg, mac, seeded), k) == 0;
    }
  }

  /** With the pool 255.255.255.254 to 255.255.255.255, nothing leased, and a hash of 1, the walk offers 0.0.0.1. */
  lemma OffersOutsidePool()
    ensures var cfg := Config(0xffff_fffe, 0xffff_ffff, 0, []); var mac := [0, 0, 0, 0, 0, 1];
      && Divides(cfg, true)
      && var pool := Searched(cfg, true); var offset := Start(cfg, mac, true);
         FirstFree(pool, [], offset, 2) && Visited(pool, offset, 2) == 1
  {
    var cfg := Config(0xffff_fffe, 0xffff_ffff, 0, []);
    var mac: seq<byte> := [0, 0, 0, 0, 0, 1];
    SmallHash();
    var pool := Searched(cfg, true);
    var offset := Start(cfg, mac, true);
    assert offset == 0xffff_ffff;
    assert Visited(pool, offset, 0) == 0xffff_ffff && Visited(pool, offset, 1) == 0 && Visited(pool, offset, 2) == 1;
  }

  lemma SmallHash()
    ensures Weighted([0, 0, 0, 0, 0, 1]) == 1
  {
    hide Weighted;
    WeightedNothing();
    WeightedNext([], 0);
    WeightedNext([0], 0);
    WeightedNext([0, 0], 0);
    WeightedNext([0, 0, 0], 0);
    WeightedNext([0, 0, 0, 0], 0);
    WeightedNext([0, 0, 0, 0, 0], 1);
    assert [] + [0] == [0] && [0] + [0] == [0, 0] && [0, 0] + [0] == [0, 0, 0] && [0, 0, 0] + [0] == [0, 0, 0, 0];
    assert [0, 0, 0, 0] + [0] == [0, 0, 0, 0, 0] && [0, 0, 0, 0, 0] + [1] == [0, 0, 0, 0, 0, 1];
  }

  ghost predicate FirstFree(cfg: Config, s: seq<L.Lease>, offset: nat, k: nat)
    requires ValidConfig(cfg) && offset < PoolSize(cfg)
  {
    && k < PoolSize(cfg) && Free(cfg, s, Visited(cfg, offset, k))
    && forall j: nat :: j < k ==> !Free(cfg, s, Visited(cfg, offset, j))
  }

  /** If any address is free, one is the first free one. */
  lemma {:induction false} SomeFirstFree(cfg: Config, s: seq<L.Lease>, offset: nat, k: nat)
    requires ValidConfig(cfg) && offset < PoolSize(cfg) && k < PoolSize(cfg) && Free(cfg, s, Visited(cfg, offset, k))
    ensures exists j: nat :: FirstFree(cfg, s, offset, j)
  {
    if j: nat :| j < k && Free(cfg, s, Visited(cfg, offset, j)) {
      SomeFirstFree(cfg, s, offset, j);
    } else {
      assert FirstFree(cfg, s, offset, k);
    }
  }

  /** The next address of the walk; behind the last one comes the address where the walk stops. */
  lemma WalkOn(cfg: Config, offset: nat, seeded: bool, k: nat)
    requires ValidConfig(cfg) && Divides(cfg, seeded)
    requires var pool := Searched(cfg, seeded); offset < PoolSize(pool) && k < PoolSize(pool)
    requires !seeded ==> offset == 0
    ensures var pool := Searched(cfg, seeded);
      var next := (Visited(pool, offset, k) + 1) % TWO32;
      var addr := if seeded && next > cfg.endIp then cfg.startIp else next;
      var stop := if seeded then pool.startIp + offset else (cfg.endIp + 1) % TWO32;
      if k + 1 < PoolSize(pool) then addr == Visited(pool, offset, k + 1) && addr != stop else addr == stop
  {
  }

  lemma BestOneMore(cfg: Config, s: seq<L.Lease>, online: nat -> bool, offset: nat, k: nat, b: int)
    requires ValidConfig(cfg) && offset < PoolSize(cfg) && k < PoolSize(cfg) && IsBest(cfg, s, online, offset, k, b)
    ensures var a := Visited(cfg, offset, k);
      IsBest(cfg, s, online, offset, k + 1,
             if Reclaimable(cfg, s, online, a) && (b < 0 || Expiry(s, a) < Expiry(s, Visited(cfg, offset, b)))
             then k else b)
  {
  }

  /** The body of the walk for one address. */
  method Examine(cfg: Config, table: L.Table, online: nat -> bool, addr: nat, oldest0: int)
    returns (found: bool, nip: nat, oldest: int)
    requires addr < TWO32 && -1 <= oldest0 < table.leases.Length
    ensures found <==> Free(cfg, table.leases[..], addr)
    ensures found ==> nip == Htonl(addr)
    ensures var s := table.leases[..];
      oldest == if Reclaimable(cfg, s, online, addr) && (oldest0 < 0 || Expiry(s, addr) < s[oldest0].expires)
                then SlotOf(s, addr) else oldest0
  {
    hide Htonl;
    nip, oldest := Htonl(addr), oldest0;
    if addr % 256 == 0 || addr % 256 == 255 || nip == cfg.serverNip {
      return false, nip, oldest;
    }
    var reserved := IsNipReserved(cfg.reserved, nip);
    if reserved {
      return false, nip, oldest;
    }
    var slot := table.FindLeaseByNip(nip);
    if slot < 0 {
      return true, nip, oldest;
    }
    if (oldest < 0 || table.leases[slot].expires < table.leases[oldest].expires) && !online(table.leases[slot].mac) {
      oldest := slot;
    }
    return false, nip, oldest;
  }

  lemma ReclaimedNip(cfg: Config, s: seq<L.Lease>, online: nat -> bool, offset: nat, n: nat, b: int)
    requires ValidConfig(cfg) && offset < PoolSize(cfg) && n <= PoolSize(cfg) && IsBest(cfg, s, online, offset, n, b)
    ensures b >= 0 ==> b < n && var a := Visited(cfg, offset, b); SlotOf(s, a) >= 0 && s[SlotOf(s, a)].nip == Htonl(a)
  {
  }

  lemma SameRules(cfg: Config, seeded: bool, s: seq<L.Lease>, online: nat -> bool, a: nat)
    requires ValidConfig(cfg) && a < TWO32
    ensures Free(Searched(cfg, seeded), s, a) == Free(cfg, s, a)
    ensures Reclaimable(Searched(cfg, seeded), s, online, a) == Reclaimable(cfg, s, online, a)
  {
  }

  /** `oldest` is the slot of the best candidate among the first `n` addresses of the walk, address `b` of the walk. */
  ghost predicate Candidate(cfg: Config, s: seq<L.Lease>, online: nat -> bool, offset: nat, n: nat, b: int, oldest: int)
    requires ValidConfig(cfg) && offset < PoolSize(cfg) && n <= PoolSize(cfg)
  {
    && -1 <= oldest < |s| && b < n && IsBest(cfg, s, online, offset, n, b)
    && oldest == if b < 0 then -1 else SlotOf(s, Visited(cfg, offset, b))
  }

  lemma CandidateOn(cfg: Config, s: seq<L.Lease>, online: nat -> bool, offset: nat, k: nat, b: int,
                    oldest: int, now: int)
    returns (b': int)
    requires ValidConfig(cfg) && offset < PoolSize(cfg) && k < PoolSize(cfg)
    requires Candidate(cfg, s, online, offset, k, b, oldest)
    requires var a := Visited(cfg, offset, k);
      now == if Reclaimable(cfg, s, online, a) && (oldest < 0 || Expiry(s, a) < s[oldest].expires)
             then SlotOf(s, a) else oldest
    ensures Candidate(cfg, s, online, offset, k + 1, b', now)
  {
    hide IsBest, Visited, SlotOf, Usable;
    var a := Visited(cfg, offset, k);
    BestOneMore(cfg, s, online, offset, k, b);
    ReclaimedNip(cfg, s, online, offset, k, b);
    b' := if Reclaimable(cfg, s, online, a) && (oldest < 0 || Expiry(s, a) < s[oldest].expires) then k else b;
  }

  lemma NoCandidateYet(cfg: Config, s: seq<L.Lease>, online: nat -> bool, offset: nat)
    requires ValidConfig(cfg) && offset < PoolSize(cfg)
    ensures Visited(cfg, offset, 0) == cfg.startIp + offset && Candidate(cfg, s, online, offset, 0, -1, -1)
  {
  }

  lemma CandidateNip(cfg: Config, s: seq<L.Lease>, online: nat -> bool, offset: nat, n: nat, b: int, oldest: int)
    requires ValidConfig(cfg) && offset < PoolSize(cfg) && n <= PoolSize(cfg)
    requires Candidate(cfg, s, online, offset, n, b, oldest)
    ensures b < n && IsBest(cfg, s, online, offset, n, b) && (b < 0 <==> oldest < 0) && -1 <= oldest < |s|
    ensures oldest >= 0 ==> s[oldest].nip == Htonl(Visited(cfg, offset, b))
  {
    hide Visited, Htonl, IsBest, SlotOf;
    ReclaimedNip(cfg, s, online, offset, n, b);
  }

  /** Where the walk starts, and the address it must not come to. */
  method WalkEnds(cfg: Config, mac: seq<byte>, seeded: bool) returns (addr: nat, stop: nat)
    requires ValidConfig(cfg) && Divides(cfg, seeded)
    ensures addr == Searched(cfg, seeded).startIp + Start(cfg, mac, seeded)
    ensures stop == if seeded then addr else (cfg.endIp + 1) % TWO32
  {
    hide Weighted;
    addr := cfg.startIp;
    stop := (cfg.endIp + 1) % TWO32;
    if seeded {
      var hash := HashMac(mac);
      addr := cfg.startIp + hash % (1 + cfg.endIp - cfg.startIp);
      stop := addr;
    }
  }

  /** One address on; behind the last one comes the one where the walk stops. */
  method NextAddress(cfg: Config, seeded: bool, addr: nat, ghost stop: nat, ghost offset: nat, ghost k: nat)
    returns (next: nat)
    requires ValidConfig(cfg) && Divides(cfg, seeded)
    requires var pool := Searched(cfg, seeded);
      && offset < PoolSize(pool) && k < PoolSize(pool) && (!seeded ==> offset == 0) && addr == Visited(pool, offset, k)
      && stop == if seeded then pool.startIp + offset else (cfg.endIp + 1) % TWO32
    ensures var pool := Searched(cfg, seeded);
      if k + 1 < PoolSize(pool) then next == Visited(pool, offset, k + 1) && next != stop else next == stop
  {
    hide Visited;
    WalkOn(cfg, offset, seeded, k);
    next := (addr + 1) % TWO32;
    if seeded && next > cfg.endIp {
      next := cfg.startIp;
    }
  }

  lemma UnseededStart(cfg: Config, mac: seq<byte>)
    requires ValidConfig(cfg)
    ensures Start(cfg, mac, false) == 0
  {
  }

  /** From its start, the first address of the pool or the one the hash gives, the walk goes up by one, seeded from the
      pool's end to its start and from 255.255.255.255 to 0.0.0.0. */
  lemma WalkInFigures(cfg: Config, mac: seq<byte>, seeded: bool, k: nat)
    requires ValidConfig(cfg) && Divides(cfg, seeded) && k < PoolSize(Searched(cfg, seeded))
    ensures var pool := Searched(cfg, seeded); var offset := Start(cfg, mac, seeded); var a := Visited(pool, offset, k);
      && (!seeded ==> a == cfg.startIp + k)
      && (seeded && k == 0 ==> a == cfg.startIp + Weighted(mac) % 0x1_0000_0000 % (cfg.endIp - cfg.startIp + 1))
      && (seeded && k + 1 < PoolSize(pool) ==>
            var next := Visited(pool, offset, k + 1);
            next == if a == 0xffff_ffff then 0 else if a == cfg.endIp then cfg.startIp else a + 1)
  {
    hide Weighted;
  }

  // ----- the answer, without the terms of the walk -----

  /** The lowest address searched; the highest is the end of the pool. */
  function Lowest(cfg: Config, seeded: bool): nat {
    if seeded && cfg.endIp == 0xffff_ffff then 0 else cfg.startIp
  }

  /** `nip` has the octets of the address: its lowest comes first in memory and is the address's highest. */
  predicate InMemory(nip: nat, a: nat) {
    && nip % 256 == a / 0x100_0000 && nip / 256 % 256 == a / 0x1_0000 % 256
    && nip / 0x1_0000 % 256 == a / 256 % 256 && nip / 0x100_0000 == a % 256
  }

  /** `nip` is a searched address that does not end in 0 or 255, is not the server's and not reserved. */
  ghost predicate MayBeOffered(cfg: Config, lowest: nat, nip: nat) {
    && nip != cfg.serverNip && nip !in cfg.reserved
    && exists a: nat :: lowest <= a <= cfg.endIp && a % 256 != 0 && a % 256 != 255 && InMemory(nip, a)
  }

  predicate InNoSlot(s: seq<L.Lease>, nip: nat) {
    forall i :: 0 <= i < |s| ==> s[i].nip != nip
  }

  /** `nip` is leased in slot `i`, the first with it, to a station that is not associated. */
  predicate LeasedOffline(s: seq<L.Lease>, online: nat -> bool, nip: nat, i: nat) {
    i < |s| && s[i].nip == nip && (forall j :: 0 <= j < i ==> s[j].nip != nip) && !online(s[i].mac)
  }

  /** An answer may be offered, and is in no slot, or in that of a station that is not associated. */
  ghost predicate Sound(cfg: Config, s: seq<L.Lease>, online: nat -> bool, lowest: nat, nip: nat) {
    nip != 0 ==>
      MayBeOffered(cfg, lowest, nip) && (InNoSlot(s, nip) || exists i: nat :: LeasedOffline(s, online, nip, i))
  }

  /** If some address may be offered and is in no slot, so is the answer. */
  ghost predicate FreeIfAny(cfg: Config, s: seq<L.Lease>, lowest: nat, nip: nat) {
    (exists other: nat :: MayBeOffered(cfg, lowest, other) && InNoSlot(s, other)) ==> nip != 0 && InNoSlot(s, nip)
  }

  /** Otherwise, if some lease of a station not associated may be offered, the answer is one that ends first. */
  ghost predicate FirstToEnd(cfg: Config, s: seq<L.Lease>, online: nat -> bool, lowest: nat, nip: nat) {
    forall other: nat, i: nat :: MayBeOffered(cfg, lowest, other) && LeasedOffline(s, online, other, i) ==>
      && nip != 0
      && (InNoSlot(s, nip) || exists j: nat :: LeasedOffline(s, online, nip, j) && s[j].expires <= s[i].expires)
  }

  /** 192.168.1.1 is kept as 0x0101A8C0. */
  lemma MemoryExample()
    ensures InMemory(0x0101_a8c0, 0xc0a8_0101)
  {
  }

  lemma AnswerWrittenOut(cfg: Config, s: seq<L.Lease>, online: nat -> bool, lowest: nat, nip: nat)
    requires Sound(cfg, s, online, lowest, nip) && FreeIfAny(cfg, s, lowest, nip)
    ensures nip != 0 ==>
      && nip != cfg.serverNip && nip !in cfg.reserved
      && exists a: nat :: InMemory(nip, a) && lowest <= a <= cfg.endIp && a % 256 != 0 && a % 256 != 255
    ensures nip != 0 ==>
      || (forall i :: 0 <= i < |s| ==> s[i].nip != nip)
      || exists i: nat :: LeasedOffline(s, online, nip, i)
    ensures forall a: nat, n: nat :: InMemory(n, a) && lowest <= a <= cfg.endIp && a % 256 != 0 && a % 256 != 255 ==>
      n != cfg.serverNip && n !in cfg.reserved && (forall i :: 0 <= i < |s| ==> s[i].nip != n) ==>
      nip != 0 && forall i :: 0 <= i < |s| ==> s[i].nip != nip
  {
    hide InMemory;
    forall a: nat, n: nat | InMemory(n, a) && lowest <= a <= cfg.endIp && a % 256 != 0 && a % 256 != 255
      ensures n != cfg.serverNip && n !in cfg.reserved && InNoSlot(s, n) ==> nip != 0 && InNoSlot(s, nip)
    {
      assert n != cfg.serverNip && n !in cfg.reserved ==> MayBeOffered(cfg, lowest, n);
    }
  }

  lemma MemoryOf(a: nat)
    requires a < TWO32
    ensures InMemory(Htonl(a), a) && (a % 256 != 0 ==> Htonl(a) != 0)
  {
    var o0, o1, o2, o3 := a / 0x100_0000, a / 0x1_0000 % 256, a / 256 % 256, a % 256;
    ReversedOctets(o0, o1, o2, o3);
  }

  lemma ReversedOctets(o0: nat, o1: nat, o2: nat, o3: nat)
    requires o0 < 256 && o1 < 256 && o2 < 256 && o3 < 256
    ensures var n := o3 * 0x100_0000 + o2 * 0x1_0000 + o1 * 0x100 + o0;
      n % 256 == o0 && n / 256 % 256 == o1 && n / 0x1_0000 % 256 == o2 && n / 0x100_0000 == o3
  {
    var n := o3 * 0x100_0000 + o2 * 0x1_0000 + o1 * 0x100 + o0;
    assert n / 256 == o3 * 0x1_0000 + o2 * 0x100 + o1;
    assert n / 0x1_0000 == o3 * 0x100 + o2;
  }

  lemma FromOctets(n: nat, o0: nat, o1: nat, o2: nat, o3: nat)
    requires n % 256 == o0 && n / 256 % 256 == o1 && n / 0x1_0000 % 256 == o2 && n / 0x100_0000 == o3
    ensures n == o3 * 0x100_0000 + o2 * 0x1_0000 + o1 * 0x100 + o0
  {
    var n1 := n / 256;
    var n2 := n1 / 256;
    assert n2 == n / 0x1_0000 && n2 / 256 == n / 0x100_0000;
  }

  lemma MemoryIsOf(nip: nat, a: nat)
    requires a < TWO32 && InMemory(nip, a)
    ensures nip == Htonl(a)
  {
    FromOctets(nip, a / 0x100_0000, a / 0x1_0000 % 256, a / 256 % 256, a % 256);
  }

  /** What may be offered is what the walk calls usable. */
  lemma UsableOffered(cfg: Config, seeded: bool, a: nat)
    requires ValidConfig(cfg) && Lowest(cfg, seeded) <= a <= cfg.endIp && Usable(Searched(cfg, seeded), a)
    ensures MayBeOffered(cfg, Lowest(cfg, seeded), Htonl(a)) && Htonl(a) != 0
  {
    MemoryOf(a);
    hide Htonl, InMemory;
  }

  lemma OfferedUsable(cfg: Config, seeded: bool, offset: nat, nip: nat) returns (k: nat)
    requires ValidConfig(cfg) && MayBeOffered(cfg, Lowest(cfg, seeded), nip) && offset < PoolSize(Searched(cfg, seeded))
    ensures var pool := Searched(cfg, seeded);
      k < PoolSize(pool) && Usable(pool, Visited(pool, offset, k)) && nip == Htonl(Visited(pool, offset, k))
  {
    var pool := Searched(cfg, seeded);
    var a: nat :| Lowest(cfg, seeded) <= a <= cfg.endIp && a % 256 != 0 && a % 256 != 255 && InMemory(nip, a);
    MemoryIsOf(nip, a);
    VisitsEachOnce(pool, offset, a);
    k :| k < PoolSize(pool) && Visited(pool, offset, k) == a;
  }

  lemma SlotOfNip(s: seq<L.Lease>, a: nat)
    requires a < TWO32
    ensures SlotOf(s, a) < 0 <==> InNoSlot(s, Htonl(a))
    ensures SlotOf(s, a) >= 0 ==> var i := SlotOf(s, a);
      s[i].nip == Htonl(a) && forall j :: 0 <= j < i ==> s[j].nip != Htonl(a)
  {
    hide Htonl;
  }

  lemma FreeAnswer(cfg: Config, seeded: bool, s: seq<L.Lease>, online: nat -> bool, offset: nat, k: nat)
    requires ValidConfig(cfg) && offset < PoolSize(Searched(cfg, seeded)) && k < PoolSize(Searched(cfg, seeded))
    requires Free(Searched(cfg, seeded), s, Visited(Searched(cfg, seeded), offset, k))
    ensures var nip := Htonl(Visited(Searched(cfg, seeded), offset, k)); var lowest := Lowest(cfg, seeded);
      Sound(cfg, s, online, lowest, nip) && FreeIfAny(cfg, s, lowest, nip) && FirstToEnd(cfg, s, online, lowest, nip)
  {
    var a := Visited(Searched(cfg, seeded), offset, k);
    UsableOffered(cfg, seeded, a);
    SlotOfNip(s, a);
    hide Htonl, MayBeOffered, InNoSlot, LeasedOffline, Visited, SlotOf, Usable;
  }

  lemma NoneFreeAnswer(cfg: Config, seeded: bool, s: seq<L.Lease>, online: nat -> bool, offset: nat, b: int)
    requires ValidConfig(cfg) && offset < PoolSize(Searched(cfg, seeded))
    requires var pool := Searched(cfg, seeded);
      && IsBest(pool, s, online, offset, PoolSize(pool), b)
      && forall k: nat :: k < PoolSize(pool) ==> !Free(pool, s, Visited(pool, offset, k))
    ensures var pool := Searched(cfg, seeded); var lowest := Lowest(cfg, seeded);
      (b >= 0 ==> b < PoolSize(pool)) &&
      var nip := if b < 0 then 0 else Htonl(Visited(pool, offset, b));
      Sound(cfg, s, online, lowest, nip) && FreeIfAny(cfg, s, lowest, nip) && FirstToEnd(cfg, s, online, lowest, nip)
  {
    var pool := Searched(cfg, seeded);
    var lowest := Lowest(cfg, seeded);
    hide Htonl, MayBeOffered, InNoSlot, Visited, SlotOf, Usable;
    forall other: nat | MayBeOffered(cfg, lowest, other) ensures !InNoSlot(s, other) {
      OfferedIsLeased(cfg, seeded, s, offset, other);
    }
    if b >= 0 {
      var a := Visited(pool, offset, b);
      UsableOffered(cfg, seeded, a);
      SlotOfNip(s, a);
      assert LeasedOffline(s, online, Htonl(a), SlotOf(s, a));
    }
    forall other: nat, i: nat | MayBeOffered(cfg, lowest, other) && LeasedOffline(s, online, other, i)
      ensures b >= 0 && s[SlotOf(s, Visited(pool, offset, b))].expires <= s[i].expires
    {
      var k := OfferedUsable(cfg, seeded, offset, other);
      SlotOfNip(s, Visited(pool, offset, k));
      OnlyFirst(s, other, i, SlotOf(s, Visited(pool, offset, k)));
      assert Reclaimable(pool, s, online, Visited(pool, offset, k));
    }
  }

  lemma OfferedIsLeased(cfg: Config, seeded: bool, s: seq<L.Lease>, offset: nat, other: nat)
    requires ValidConfig(cfg) && offset < PoolSize(Searched(cfg, seeded))
    requires MayBeOffered(cfg, Lowest(cfg, seeded), other)
    requires var pool := Searched(cfg, seeded);
      forall k: nat :: k < PoolSize(pool) ==> !Free(pool, s, Visited(pool, offset, k))
    ensures !InNoSlot(s, other)
  {
    hide Htonl, MayBeOffered, InNoSlot, Visited, SlotOf, Usable;
    var k := OfferedUsable(cfg, seeded, offset, other);
    SlotOfNip(s, Visited(Searched(cfg, seeded), offset, k));
  }

  lemma OnlyFirst(s: seq<L.Lease>, nip: nat, i: nat, slot: int)
    requires i < |s| && s[i].nip == nip && forall j :: 0 <= j < i ==> s[j].nip != nip
    requires -1 <= slot < |s| && (slot < 0 ==> InNoSlot(s, nip))
    requires slot >= 0 ==> s[slot].nip == nip && forall j :: 0 <= j < slot ==> s[j].nip != nip
    ensures slot == i
  {
  }

  /** The first free address on the walk if there is one; otherwise the reclaimable one whose lease ends first, or 0. */
  method FindFreeOrExpiredNip(cfg: Config, table: L.Table, online: nat -> bool, mac: seq<byte>, seeded: bool)
    returns (nip: nat)
    requires ValidConfig(cfg) && Divides(cfg, seeded)
    ensures var s := table.leases[..]; var pool := Searched(cfg, seeded); var offset := Start(cfg, mac, seeded);
      forall k: nat :: FirstFree(pool, s, offset, k) ==> nip == Htonl(Visited(pool, offset, k))
    ensures var s := table.leases[..]; var pool := Searched(cfg, seeded); var offset := Start(cfg, mac, seeded);
      var n := PoolSize(pool);
      (forall k: nat :: k < n ==> !Free(pool, s, Visited(pool, offset, k))) ==>
        exists b :: IsBest(pool, s, online, offset, n, b) && nip == if b < 0 then 0 else Htonl(Visited(pool, offset, b))
    ensures nip != 0 ==>
      && nip != cfg.serverNip && nip !in cfg.reserved
      && exists a: nat :: InMemory(nip, a) && Lowest(cfg, seeded) <= a <= cfg.endIp && a % 256 != 0 && a % 256 != 255
    ensures nip != 0 ==>
      || (forall i :: 0 <= i < table.leases.Length ==> table.leases[i].nip != nip)
      || exists i: nat :: LeasedOffline(table.leases[..], online, nip, i)
    ensures forall a: nat, n: nat ::
      InMemory(n, a) && Lowest(cfg, seeded) <= a <= cfg.endIp && a % 256 != 0 && a % 256 != 255 ==>
      n != cfg.serverNip && n !in cfg.reserved ==>
      (forall i :: 0 <= i < table.leases.Length ==> table.leases[i].nip != n) ==>
      nip != 0 && forall i :: 0 <= i < table.leases.Length ==> table.leases[i].nip != nip
    ensures FirstToEnd(cfg, table.leases[..], online, Lowest(cfg, seeded), nip)
  {
    hide Htonl, Visited, IsBest, Free, Usable, SlotOf, Start, Candidate, Sound, FreeIfAny, FirstToEnd, InMemory;
    hide LeasedOffline, Lowest, Expiry;
    ghost var s := table.leases[..];
    var addr, stop := WalkEnds(cfg, mac, seeded);
    ghost var pool := Searched(cfg, seeded);
    ghost var n := PoolSize(pool);
    ghost var offset := Start(cfg, mac, seeded);
    var oldest := -1;
    ghost var k: nat, b: int := 0, -1;
    NoCandidateYet(pool, s, online, offset);
    UnseededStart(cfg, mac);
    while true
      invariant k < n && addr == Visited(pool, offset, k)
      invariant forall j: nat :: j < k ==> !Free(pool, s, Visited(pool, offset, j))
      invariant -1 <= oldest < |s| && Candidate(pool, s, online, offset, k, b, oldest)
      decreases n - k
    {
      var found;
      ghost var before := oldest;
      SameRules(cfg, seeded, s, online, addr);
      found, nip, oldest := Examine(cfg, table, online, addr, oldest);
      if found {
        assert FirstFree(pool, s, offset, k);
        FreeAnswer(cfg, seeded, s, online, offset, k);
        AnswerWrittenOut(cfg, s, online, Lowest(cfg, seeded), nip);
        return nip;
      }
      b := CandidateOn(pool, s, online, offset, k, b, before, oldest);
      CandidateNip(pool, s, online, offset, k + 1, b, oldest);
      addr := NextAddress(cfg, seeded, addr, stop, offset, k);
      if addr == stop {
        break;
      }
      k := k + 1;
    }
    NoneFreeAnswer(cfg, seeded, s, online, offset, b);
    nip := 0;
    if oldest >= 0 {
      nip := table.leases[oldest].nip;
    }
    AnswerWrittenOut(cfg, s, online, Lowest(cfg, seeded), nip);
  }
}
