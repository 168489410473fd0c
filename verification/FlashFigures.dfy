/**
 The burn in figures (utils/src-SPI_burn/main.c:257-300, flash.c:205-238, flash.h:72-96): the octets on the wire, what
 is erased and what a burn leaves where, told without the functions that the loops are proved against.
 */
module FlashFigures {
  import opened FlashBurn

  // ----- on the wire -----

  /** Of a command word the lowest octet goes out first: the command with the top octet of the address, and then the
      other three octets of the address, highest first. */
  lemma WordOnTheWire(addr: nat)
    requires addr < 0x1_0000_0000
    ensures var w := Command(ERASE_SECTOR_CMD, addr);
      && w % 256 == (0x20 | (addr / 0x100_0000) as bv8) as nat
      && w / 256 % 256 == addr / 0x1_0000 % 256 && w / 0x1_0000 % 256 == addr / 256 % 256
      && w / 0x100_0000 % 256 == addr % 256
    ensures var w := Command(PAGE_PROGRAM_CMD, addr);
      && w % 256 == (0x02 | (addr / 0x100_0000) as bv8) as nat
      && w / 256 % 256 == addr / 0x1_0000 % 256 && w / 0x1_0000 % 256 == addr / 256 % 256
      && w / 0x100_0000 % 256 == addr % 256
  {
    hide Command, OrOctet;
    MadeOfOctets(addr);
    OctetsInFigures(addr);
    TopOctetJoins(addr / 0x100_0000);
    WordOctets(ERASE_SECTOR_CMD, addr);
    WordOctets(PAGE_PROGRAM_CMD, addr);
  }

  lemma TopOctetJoins(x: nat)
    requires x < 256
    ensures OrOctet(ERASE_SECTOR_CMD, x) == 0x20 | (x as bv8) && OrOctet(PAGE_PROGRAM_CMD, x) == 0x02 | (x as bv8)
  {
  }

  lemma WordOctets(op: bv8, addr: nat)
    ensures var w := Command(op, addr);
      && w % 256 == OrOctet(op, Octet(addr, 3)) as nat && w / 256 % 256 == Octet(addr, 2)
      && w / 0x1_0000 % 256 == Octet(addr, 1) && w / 0x100_0000 % 256 == Octet(addr, 0)
  {
    hide Octet, Or, EndianChange, OrOctet;
    Reversed(addr);
    OrChangesLowest(op, EndianChange(addr));
    OctetsInFigures(Command(op, addr));
  }

  lemma OctetsInFigures(w: nat)
    ensures Octet(w, 0) == w % 256 && Octet(w, 1) == w / 256 % 256
    ensures Octet(w, 2) == w / 0x1_0000 % 256 && Octet(w, 3) == w / 0x100_0000 % 256
  {
    LowestOctet(w);
    OctetUp(w, 1);
    OctetUp(w, 2);
    OctetUp(w, 3);
    OctetUp(w / 256, 1);
    OctetUp(w / 256, 2);
    OctetUp(w / 0x1_0000, 1);
    LowestOctet(w / 256);
    LowestOctet(w / 0x1_0000);
    LowestOctet(w / 0x100_0000);
    hide Octet;
    Quotients(w);
  }

  lemma OctetUp(w: nat, k: nat)
    requires k > 0
    ensures Octet(w, k) == Octet(w / 256, k - 1)
  {
  }

  lemma Quotients(w: nat)
    ensures w / 256 / 256 == w / 0x1_0000 && w / 0x1_0000 / 256 == w / 0x100_0000
  {
  }

  /** The chip takes the first octet as the command and the next three as an address, highest first. */
  lemma TakenFromTheWire(w: nat)
    ensures Opcode(w) == (w % 256) as bv8
    ensures Address(w) == w / 256 % 256 * 0x1_0000 + w / 0x1_0000 % 256 * 256 + w / 0x100_0000 % 256
  {
    OctetsInFigures(w);
    hide Octet;
  }

  // ----- erased and burned -----

  /** The bound of the erase loop is the least multiple of a sector that is not below the image's size. */
  lemma RoundUpIsLeast(size: nat, n: nat)
    ensures size <= RoundUp(size) && RoundUp(size) % 4096 == 0
    ensures n % 4096 == 0 && size <= n ==> RoundUp(size) <= n
  {
  }

  /** All of the flash is erased, or from the sector of the address on up to that bound, which does not count from the
      address but from 0. */
  lemma ErasedInFigures(x: nat, address: nat, size: nat)
    ensures InErased(x, address, size, true) <==> x < 0x20_0000
    ensures InErased(x, address, size, false) <==>
      address < (size + 4095) / 4096 * 4096 && address / 4096 <= x / 4096 && x < (size + 4095) / 4096 * 4096
  {
    SectorInFigures(address, x);
  }

  lemma SectorInFigures(address: nat, x: nat)
    ensures SectorOf(address) <= x <==> address / 4096 <= x / 4096
    ensures SectorOf(address) <= address < SectorOf(address) + 4096 && SectorOf(address) % 4096 == 0
  {
    assert SectorOf(address) == address / 4096 * 4096;
  }

  /** Octet `i` of a program of at most a page stays in the page of its address, as many octets behind it. */
  lemma SlotInFigures(a: nat, i: nat)
    ensures Slot(a, i) / 256 == a / 256 % 0x2000 && Slot(a, i) % 256 == (a + i) % 256
  {
    var q, r := a / 256 % 0x2000, (a + i) % 256;
    assert Slot(a, i) == q * 256 + r;
  }

  /** From the start of a page on, each octet of the image clears its bits at its own address in what is left there by
      the erase loop, and nothing else changes. */
  lemma BurnedInFigures(m: seq<bv8>, content: seq<bv8>, address: nat, eraseAll: bool, i: nat)
    requires |m| == 0x20_0000 && i < |m| && address % 256 == 0 && address + |content| <= |m|
    ensures var left := if InErased(i, address, |content|, eraseAll) then 0xFF else m[i];
      Burned(m, content, address, eraseAll, i) ==
        if address <= i < address + |content| then left & content[i - address] else left
  {
    BurnedIs(m, content, address, eraseAll, i);
    hide Index, InErased, Burned;
    AlignedIndex(address, |content|, i);
  }

  lemma BurnedIs(m: seq<bv8>, content: seq<bv8>, address: nat, eraseAll: bool, i: nat)
    requires i < |m|
    ensures var left := if InErased(i, address, |content|, eraseAll) then 0xFF else m[i];
      Burned(m, content, address, eraseAll, i) ==
        if Index(address, i) < |content| then left & content[Index(address, i)] else left
  {
    hide Index, EraseFrom, EraseTo;
  }
}
