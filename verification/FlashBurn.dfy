/**
 The flash burner (utils/src-SPI_burn/main.c:230-303, flash.c:205-260, flash.h:93-96) over a model of a NOR
 flash chip: erasing a sector gives 0xFF everywhere, programming can only clear bits, a page program
 wraps round inside its page, and address bits beyond the size of the chip are ignored.
 */
module FlashBurn {
  const FLASH_SIZE: nat := 0x20_0000
  const SECTOR: nat := 0x1000
  const PAGE: nat := 0x100
  const PAGES: nat := 0x2000

  const TWO32: nat := 0x1_0000_0000
  const TWO24: nat := 0x100_0000

  // ----- command words -----

  const PAGE_PROGRAM_CMD: bv8 := 0x02
  const ERASE_SECTOR_CMD: bv8 := 0x20

  /** Octet `k` of a word, the lowest being octet 0. */
  function Octet(w: nat, k: nat): (r: nat)
    ensures r < 256
  {
    if k == 0 then w % 256 else Octet(w / 256, k - 1)
  }

  /** The word with these octets, the lowest first. */
  function Word(a: nat, b: nat, c: nat, d: nat): nat {
    a + 256 * (b + 256 * (c + 256 * d))
  }

  /** ENDIAN_CHANGE: the four octets of a word in reverse. */
  function EndianChange(v: nat): nat {
    Word(Octet(v, 3), Octet(v, 2), Octet(v, 1), Octet(v, 0))
  }

  function OrOctet(op: bv8, x: nat): bv8
    requires x < 256
  {
    op | (x as bv8)
  }

  /** `op | w` for an `op` of one octet. */
  function Or(op: bv8, w: nat): nat {
    w - w % 256 + OrOctet(op, w % 256) as nat
  }

  /** The word put on the wire, lowest octet first. */
  function Command(op: bv8, addr: nat): nat {
    Or(op, EndianChange(addr))
  }

  /** The chip takes the first octet as the command and the next three as an address, highest first. */
  function Opcode(w: nat): bv8 {
    Octet(w, 0) as bv8
  }

  function Address(w: nat): nat {
    Word(Octet(w, 3), Octet(w, 2), Octet(w, 1), 0)
  }

  /** The top octet of the address adds no bit to the command. */
  predicate Intact(op: bv8, addr: nat) {
    OrOctet(op, Octet(addr, 3)) == op
  }

  lemma OctetsOf(a: nat, b: nat, c: nat, d: nat)
    requires a < 256 && b < 256 && c < 256 && d < 256
    ensures var w := Word(a, b, c, d); Octet(w, 0) == a && Octet(w, 1) == b && Octet(w, 2) == c && Octet(w, 3) == d
  {
    var w1, w2 := b + 256 * (c + 256 * d), c + 256 * d;
    assert Word(a, b, c, d) / 256 == w1 && w1 / 256 == w2 && w2 / 256 == d;
    assert Octet(w1, 0) == b && Octet(w1, 1) == Octet(w2, 0) == c && Octet(w1, 2) == Octet(w2, 1) == Octet(d, 0) == d;
  }

  /** A word of 32 bits is made of its four octets; without the highest it is the word modulo 2^24. */
  lemma MadeOfOctets(v: nat)
    requires v < TWO32
    ensures v == Word(Octet(v, 0), Octet(v, 1), Octet(v, 2), Octet(v, 3)) && Octet(v, 3) == v / TWO24
    ensures Word(Octet(v, 0), Octet(v, 1), Octet(v, 2), 0) == v % TWO24
  {
    var v1 := v / 256;
    var v2 := v1 / 256;
    var v3 := v2 / 256;
    assert Octet(v, 1) == Octet(v1, 0) && Octet(v, 2) == Octet(v1, 1) == Octet(v2, 0);
    assert Octet(v, 3) == Octet(v1, 2) == Octet(v2, 1) == Octet(v3, 0) == v3;
    TopAndRest(v % 256, v1 % 256, v2 % 256, v3);
  }

  lemma TopAndRest(a: nat, b: nat, c: nat, d: nat)
    requires a < 256 && b < 256 && c < 256
    ensures Word(a, b, c, d) / TWO24 == d && Word(a, b, c, d) % TWO24 == Word(a, b, c, 0)
  {
    assert Word(a, b, c, d) == TWO24 * d + Word(a, b, c, 0) && Word(a, b, c, 0) < TWO24;
  }

  lemma LowOctetSet(w: nat, x: nat)
    requires x < 256
    ensures var r := w - w % 256 + x;
      Octet(r, 0) == x && Octet(r, 1) == Octet(w, 1) && Octet(r, 2) == Octet(w, 2) && Octet(r, 3) == Octet(w, 3)
  {
    var r := w - w % 256 + x;
    assert r / 256 == w / 256;
  }

  lemma OctetThere(x: bv8)
    ensures x as nat < 256 && (x as nat) as bv8 == x
  {
  }

  /** The chip gets the low 24 bits of the address, and the command exactly if the top octet adds no bit to it. */
  lemma CommandArrives(op: bv8, addr: nat)
    requires addr < TWO32
    ensures Address(Command(op, addr)) == addr % TWO24
    ensures Opcode(Command(op, addr)) == op <==> Intact(op, addr)
    ensures Opcode(Command(op, addr)) == OrOctet(op, Octet(addr, 3))
  {
    hide Octet, Word, OrOctet, Or, EndianChange;
    var w, top := EndianChange(addr), Octet(addr, 3);
    Reversed(addr);
    OrChangesLowest(op, w);
    MadeOfOctets(addr);
    OctetThere(OrOctet(op, top));
  }

  lemma Reversed(v: nat)
    ensures var w := EndianChange(v);
      && Octet(w, 0) == Octet(v, 3) && Octet(w, 1) == Octet(v, 2)
      && Octet(w, 2) == Octet(v, 1) && Octet(w, 3) == Octet(v, 0)
  {
    hide Octet, Word;
    OctetsOf(Octet(v, 3), Octet(v, 2), Octet(v, 1), Octet(v, 0));
  }

  lemma OrChangesLowest(op: bv8, w: nat)
    ensures var r := Or(op, w);
      && Octet(r, 0) == OrOctet(op, Octet(w, 0)) as nat
      && Octet(r, 1) == Octet(w, 1) && Octet(r, 2) == Octet(w, 2) && Octet(r, 3) == Octet(w, 3)
  {
    hide Octet, OrOctet;
    LowestOctet(w);
    OctetThere(OrOctet(op, Octet(w, 0)));
    LowOctetSet(w, OrOctet(op, Octet(w, 0)) as nat);
  }

  lemma LowestOctet(w: nat)
    ensures Octet(w, 0) == w % 256
  {
  }

  /** Below 2^24 both commands arrive, and so does the whole address. */
  lemma BothArrive(addr: nat)
    requires addr < TWO24
    ensures Intact(ERASE_SECTOR_CMD, addr) && Intact(PAGE_PROGRAM_CMD, addr)
    ensures Opcode(Command(ERASE_SECTOR_CMD, addr)) == ERASE_SECTOR_CMD
    ensures Opcode(Command(PAGE_PROGRAM_CMD, addr)) == PAGE_PROGRAM_CMD
    ensures Address(Command(ERASE_SECTOR_CMD, addr)) == Address(Command(PAGE_PROGRAM_CMD, addr)) == addr
  {
    hide Command, Opcode, Address, Octet, OrOctet;
    CommandArrives(ERASE_SECTOR_CMD, addr);
    CommandArrives(PAGE_PROGRAM_CMD, addr);
    MadeOfOctets(addr);
    NoBitAdded(ERASE_SECTOR_CMD);
    NoBitAdded(PAGE_PROGRAM_CMD);
  }

  lemma NoBitAdded(op: bv8)
    ensures OrOctet(op, 0) == op
  {
  }

  /** A page program arrives as such up to 2^24, and from 2 * 2^24 to 3 * 2^24. */
  lemma WhenProgramIntact(addr: nat)
    requires addr < TWO32
    ensures Intact(PAGE_PROGRAM_CMD, addr) <==> addr / TWO24 == 0 || addr / TWO24 == 2
  {
    hide Octet;
    MadeOfOctets(addr);
    OctetOfTwo(addr / TWO24);
  }

  lemma OctetOfTwo(x: nat)
    requires x < 256
    ensures OrOctet(PAGE_PROGRAM_CMD, x) == PAGE_PROGRAM_CMD <==> x == 0 || x == 2
  {
  }

  // ----- the chip -----

  function SectorOf(a: nat): nat {
    a - a % SECTOR
  }

  /** Where octet `i` of a page program at `a` goes. */
  function Slot(a: nat, i: nat): (r: nat)
    ensures r < FLASH_SIZE
  {
    a / PAGE % PAGES * PAGE + (a + i) % PAGE
  }

  lemma SlotsDiffer(a: nat, i: nat, j: nat)
    requires i < PAGE && j < PAGE && i != j
    ensures Slot(a, i) != Slot(a, j)
  {
  }

  /** What a page program of `data` at `a` makes of the flash. */
  ghost predicate Overwritten(m: seq<bv8>, before: seq<bv8>, a: nat, data: seq<bv8>)
    requires |m| == |before| == FLASH_SIZE
  {
    && (forall i :: 0 <= i < |data| ==> m[Slot(a, i)] == before[Slot(a, i)] & data[i])
    && forall j :: 0 <= j < FLASH_SIZE && (forall i :: 0 <= i < |data| ==> Slot(a, i) != j) ==> m[j] == before[j]
  }

  class Chip {
    const mem: array<bv8>
    /** Whether a command came in that is neither of the two the burner means to send. */
    var strange: bool

    constructor ()
      ensures fresh(mem) && mem.Length == FLASH_SIZE && !strange
    {
      mem := new bv8[FLASH_SIZE];
      strange := false;
    }

    method Erase(a: nat)
      requires mem.Length == FLASH_SIZE && a < FLASH_SIZE
      modifies mem
      ensures forall i :: 0 <= i < FLASH_SIZE ==>
        mem[i] == if SectorOf(a) <= i < SectorOf(a) + SECTOR then 0xFF else old(mem[i])
    {
      var base := SectorOf(a);
      for k := 0 to SECTOR
        invariant forall i :: 0 <= i < FLASH_SIZE ==> mem[i] == if base <= i < base + k then 0xFF else old(mem[i])
      {
        mem[base + k] := 0xFF;
      }
    }

    method Program(a: nat, data: seq<bv8>)
      requires mem.Length == FLASH_SIZE && |data| <= PAGE
      modifies mem
      ensures Overwritten(mem[..], old(mem[..]), a, data)
    {
      hide Slot;
      for k := 0 to |data|
        invariant forall i :: 0 <= i < k ==> mem[Slot(a, i)] == old(mem[Slot(a, i)]) & data[i]
        invariant forall i :: k <= i < |data| ==> mem[Slot(a, i)] == old(mem[Slot(a, i)])
        invariant forall j :: 0 <= j < FLASH_SIZE && (forall i :: 0 <= i < |data| ==> Slot(a, i) != j) ==>
          mem[j] == old(mem[j])
      {
        forall i | 0 <= i < |data| && i != k ensures Slot(a, i) != Slot(a, k) {
          SlotsDiffer(a, i, k);
        }
        mem[Slot(a, k)] := mem[Slot(a, k)] & data[k];
      }
    }

    /** A command word comes in, and for a program the data behind it. */
    method Accept(word: nat, data: seq<bv8>)
      requires mem.Length == FLASH_SIZE && |data| <= PAGE
      modifies mem, this`strange
      ensures strange <==> old(strange) || (Opcode(word) != ERASE_SECTOR_CMD && Opcode(word) != PAGE_PROGRAM_CMD)
      ensures Opcode(word) == ERASE_SECTOR_CMD ==>
        var base := SectorOf(Address(word) % FLASH_SIZE);
        forall i :: 0 <= i < FLASH_SIZE ==> mem[i] == if base <= i < base + SECTOR then 0xFF else old(mem[i])
      ensures Opcode(word) == PAGE_PROGRAM_CMD ==> Overwritten(mem[..], old(mem[..]), Address(word), data)
    {
      hide Opcode, Address, Overwritten;
      if Opcode(word) == ERASE_SECTOR_CMD {
        Erase(Address(word) % FLASH_SIZE);
      } else if Opcode(word) == PAGE_PROGRAM_CMD {
        Program(Address(word), data);
      } else {
        strange := true;
      }
    }
  }

  /** `flash_sector_erase` */
  method SectorErase(chip: Chip, addr: nat)
    requires chip.mem.Length == FLASH_SIZE && addr < FLASH_SIZE
    modifies chip.mem, chip`strange
    ensures chip.strange == old(chip.strange)
    ensures forall i :: 0 <= i < FLASH_SIZE ==>
      chip.mem[i] == if SectorOf(addr) <= i < SectorOf(addr) + SECTOR then 0xFF else old(chip.mem[i])
  {
    hide Command, Opcode, Address, Intact;
    BothArrive(addr);
    chip.Accept(Command(ERASE_SECTOR_CMD, addr), []);
  }

  /** Bits of an address beyond the chip make no difference. */
  lemma SlotWraps(a: nat, i: nat)
    ensures Slot(a % TWO24, i) == Slot(a, i) && Slot(a % TWO32, i) == Slot(a, i)
  {
    Wraps(a, TWO24, 8, i);
    Wraps(a, TWO32, 2048, i);
  }

  lemma Wraps(a: nat, m: nat, k: nat, i: nat)
    requires m == k * FLASH_SIZE && k > 0
    ensures Slot(a % m, i) == Slot(a, i)
  {
    hide Slot;
    var q, r := a / m, a % m;
    Regroup(q, k);
    assert a == r + q * m;
    OnceRound(r, q * k, i);
  }

  lemma Regroup(q: nat, k: nat)
    ensures q * (k * FLASH_SIZE) == q * k * FLASH_SIZE
  {
  }

  lemma OnceRound(r: nat, t: nat, i: nat)
    ensures Slot(r + t * FLASH_SIZE, i) == Slot(r, i)
  {
    var n := t * FLASH_SIZE;
    assert n == t * PAGES * PAGE;
    WholePages(t);
    PagesOn(r, n, i);
    PagesRound(r / PAGE, t);
  }

  lemma WholePages(t: nat)
    ensures t * 0x20_0000 % PAGE == 0 && t * 0x20_0000 / PAGE == t * PAGES
  {
    assert t * 0x20_0000 == t * 0x2000 * PAGE;
  }

  lemma PagesRound(x: nat, t: nat)
    ensures (x + t * PAGES) % PAGES == x % PAGES
  {
  }

  lemma PagesOn(address: nat, n: nat, i: nat)
    requires n % PAGE == 0
    ensures (address + n) / PAGE == address / PAGE + n / PAGE && (address + n + i) % PAGE == (address + i) % PAGE
  {
  }

  /** `flash_page_program`, of a page at most. */
  method PageProgram(chip: Chip, addr: nat, src: seq<bv8>)
    requires chip.mem.Length == FLASH_SIZE && addr < TWO32
    modifies chip.mem, chip`strange
    ensures chip.strange <==> old(chip.strange) || !Intact(PAGE_PROGRAM_CMD, addr)
    ensures var data := if |src| > PAGE then src[..PAGE] else src;
      Intact(PAGE_PROGRAM_CMD, addr) ==> Overwritten(chip.mem[..], old(chip.mem[..]), addr, data)
  {
    hide Command, Opcode, Address, Intact, Overwritten;
    var data := if |src| > PAGE then src[..PAGE] else src;
    var word := Command(PAGE_PROGRAM_CMD, addr);
    CommandArrives(PAGE_PROGRAM_CMD, addr);
    ProgramIsNoErase(Octet(addr, 3));
    ghost var before := chip.mem[..];
    chip.Accept(word, data);
    if Intact(PAGE_PROGRAM_CMD, addr) {
      OverwrittenWraps(chip.mem[..], before, addr, data);
    }
  }

  /** A program command is no erase, whatever bits of an address come to it. */
  lemma ProgramIsNoErase(x: nat)
    requires x < 256
    ensures OrOctet(PAGE_PROGRAM_CMD, x) != ERASE_SECTOR_CMD
  {
  }

  lemma OverwrittenWraps(m: seq<bv8>, before: seq<bv8>, addr: nat, data: seq<bv8>)
    requires |m| == |before| == FLASH_SIZE && |data| <= PAGE && Overwritten(m, before, addr % TWO24, data)
    ensures Overwritten(m, before, addr, data)
  {
    hide Slot;
    forall i | 0 <= i < |data| ensures Slot(addr % TWO24, i) == Slot(addr, i) {
      SlotWraps(addr, i);
    }
  }

  // ----- what a burn leaves in the flash -----

  function RoundUp(size: nat): nat {
    (size + 4095) / 4096 * 4096
  }

  /** The first octet erased, and the one behind the last. */
  function EraseFrom(address: nat, eraseAll: bool): nat {
    if eraseAll then 0 else SectorOf(address)
  }

  function EraseTo(address: nat, size: nat, eraseAll: bool): nat {
    if eraseAll then FLASH_SIZE else if address < RoundUp(size) then RoundUp(size) else SectorOf(address)
  }

  function Erased(m: seq<bv8>, address: nat, size: nat, eraseAll: bool, i: nat): bv8
    requires i < |m|
  {
    if EraseFrom(address, eraseAll) <= i < EraseTo(address, size, eraseAll) then 0xFF else m[i]
  }

  /** The octet of the image that goes to `x` in the flash, if the image is that long: pages follow one another,
      and inside a page the image starts where the address does. */
  function Index(address: nat, x: nat): (r: nat)
    ensures r < FLASH_SIZE
  {
    (x / PAGE - address / PAGE) % PAGES * PAGE + (x - address) % PAGE
  }

  /** Octet `i` of the flash after a burn: erased or not, then the image's bits cleared. */
  function Burned(m: seq<bv8>, content: seq<bv8>, address: nat, eraseAll: bool, i: nat): bv8
    requires i < |m|
  {
    Masked(Erased(m, address, |content|, eraseAll, i), Index(address, i), content)
  }

  /** An octet `x` once the bits of octet `k` of `data` were cleared in it. */
  function Masked(x: bv8, k: nat, data: seq<bv8>): bv8 {
    if k < |data| then x & data[k] else x
  }

  // ----- where the octets of the image go -----

  lemma PageSlot(a: nat, n: nat, x: nat)
    requires n < PAGES && x < PAGES
    ensures (a + n) % PAGES == x <==> (x - a) % PAGES == n
  {
  }

  lemma PlaceInPage(a: nat, i: nat, x: nat)
    requires i < PAGE && x < PAGE
    ensures (a + i) % PAGE == x <==> (x - a) % PAGE == i
  {
  }

  lemma Together(p: nat, i: nat, q: nat, j: nat)
    requires i < PAGE && j < PAGE
    ensures p * PAGE + i == q * PAGE + j <==> p == q && i == j
  {
  }

  /** Octet `n + i` of the image goes to `x` exactly if it is the one `Index` says. */
  lemma SlotIndex(address: nat, n: nat, i: nat, x: nat)
    requires n % PAGE == 0 && n < FLASH_SIZE && i < PAGE && x < FLASH_SIZE
    ensures Slot(address + n, i) == x <==> Index(address, x) == n + i
  {
    var k, p, o := n / PAGE, x / PAGE, x % PAGE;
    PagesOn(address, n, i);
    InsidePage(x, address);
    PageSlot(address / PAGE, k, p);
    PlaceInPage(address, i, o);
    Together((address / PAGE + k) % PAGES, (address + i) % PAGE, p, o);
    Together((p - address / PAGE) % PAGES, (o - address) % PAGE, k, i);
  }

  lemma InsidePage(x: nat, address: nat)
    ensures (x - address) % PAGE == (x % PAGE - address) % PAGE
  {
  }

  /** Every octet of an image goes to one place, and no two to the same. */
  lemma EachOctetOnce(address: nat, k: nat)
    requires k < FLASH_SIZE
    ensures Index(address, Slot(address + k / PAGE * PAGE, k % PAGE)) == k
    ensures forall x: nat :: x < FLASH_SIZE && Index(address, x) == k ==> x == Slot(address + k / PAGE * PAGE, k % PAGE)
  {
    hide Index, Slot;
    var n, i := k / PAGE * PAGE, k % PAGE;
    SlotIndex(address, n, i, Slot(address + n, i));
    forall x: nat | x < FLASH_SIZE && Index(address, x) == k ensures x == Slot(address + n, i) {
      SlotIndex(address, n, i, x);
    }
  }

  /** An octet of the image goes to its own address exactly if that lies in the page its program starts in. */
  lemma WhenInPlace(address: nat, k: nat)
    requires address + k < FLASH_SIZE
    ensures Index(address, address + k) == k <==> address % PAGE + k % PAGE < PAGE
  {
    var a, o, p, i := address / PAGE, address % PAGE, k / PAGE, k % PAGE;
    assert address + k == (a + p) * PAGE + (o + i);
    assert k == p * PAGE + i && p < PAGES;
    var x := address + k;
    assert (x - address) % PAGE == i;
    if o + i < PAGE {
      assert x / PAGE == a + p;
      assert (x / PAGE - a) % PAGES == p;
    } else {
      assert x / PAGE == a + p + 1;
      assert (p + 1) % PAGES != p;
    }
  }

  /** From the start of a page on, the image lies where it should. */
  lemma AlignedIndex(address: nat, size: nat, x: nat)
    requires address % PAGE == 0 && address + size <= FLASH_SIZE && x < FLASH_SIZE
    ensures Index(address, x) < size <==> address <= x < address + size
    ensures address <= x ==> Index(address, x) == x - address
  {
    if address <= x {
      WhenInPlace(address, x - address);
    } else if size > 0 {
      var d := x / PAGE - address / PAGE;
      assert d < 0 && d + PAGES > 0 && d % PAGES == d + PAGES;
      assert (x - address) % PAGE == x % PAGE;
    }
  }

  ghost predicate HoldsImage(m: seq<bv8>, content: seq<bv8>, address: nat, eraseAll: bool)
    requires address + |content| <= |m|
  {
    forall k :: 0 <= k < |content| ==> Burned(m, content, address, eraseAll, address + k) == content[k]
  }

  lemma BitsOfErased(x: bv8)
    ensures 0xFF & x == x && 0 & x == 0
  {
  }

  lemma NothingAdded(x: bv8)
    ensures x & 0 == 0
  {
  }

  predicate InErased(x: nat, address: nat, size: nat, eraseAll: bool) {
    EraseFrom(address, eraseAll) <= x < EraseTo(address, size, eraseAll)
  }

  /** Octet `k` of the image is found at its address, whatever was there: erased, what goes there is the same octet, or
      nothing and the octet is 0xFF; not erased, it is 0 and so is what goes there. */
  predicate Arrives(content: seq<bv8>, address: nat, eraseAll: bool, k: nat)
    requires k < |content|
  {
    var i := Index(address, address + k);
    if InErased(address + k, address, |content|, eraseAll) then content[k] == if i < |content| then content[i] else 0xFF
    else i < |content| && content[k] == 0 && content[i] == 0
  }

  lemma OctetArrives(content: seq<bv8>, address: nat, eraseAll: bool, k: nat, m: seq<bv8>)
    requires address + |content| <= FLASH_SIZE == |m| && k < |content| && Arrives(content, address, eraseAll, k)
    ensures Burned(m, content, address, eraseAll, address + k) == content[k]
  {
    hide Index;
    BitsOfErased(content[k]);
    NothingAdded(m[address + k]);
  }

  /** Two flashes, all 0 and all 0xFF, tell whether an octet arrives whatever was there. */
  lemma OctetArrivesInBoth(content: seq<bv8>, address: nat, eraseAll: bool, k: nat, zeros: seq<bv8>, ones: seq<bv8>)
    requires address + |content| <= FLASH_SIZE == |zeros| == |ones| && k < |content|
    requires zeros[address + k] == 0 && ones[address + k] == 0xFF
    requires Burned(zeros, content, address, eraseAll, address + k) == content[k]
    requires Burned(ones, content, address, eraseAll, address + k) == content[k]
    ensures Arrives(content, address, eraseAll, k)
  {
    hide Index;
    var i := Index(address, address + k);
    if i < |content| {
      BitsOfErased(content[i]);
    }
  }

  /** A burn leaves the image in the flash, whatever was there, exactly if each of its octets arrives. */
  lemma ImageArrives(content: seq<bv8>, address: nat, eraseAll: bool)
    requires address + |content| <= FLASH_SIZE
    ensures (forall m: seq<bv8> :: |m| == FLASH_SIZE ==> HoldsImage(m, content, address, eraseAll))
      <==> forall k :: 0 <= k < |content| ==> Arrives(content, address, eraseAll, k)
  {
    hide Burned, Arrives;
    if forall k :: 0 <= k < |content| ==> Arrives(content, address, eraseAll, k) {
      forall m: seq<bv8> | |m| == FLASH_SIZE ensures HoldsImage(m, content, address, eraseAll) {
        forall k | 0 <= k < |content| ensures Burned(m, content, address, eraseAll, address + k) == content[k] {
          OctetArrives(content, address, eraseAll, k, m);
        }
      }
    } else {
      var k :| 0 <= k < |content| && !Arrives(content, address, eraseAll, k);
      var zeros: seq<bv8>, ones: seq<bv8> := seq(FLASH_SIZE, _ => 0), seq(FLASH_SIZE, _ => 0xFF);
      if HoldsImage(zeros, content, address, eraseAll) && HoldsImage(ones, content, address, eraseAll) {
        OctetArrivesInBoth(content, address, eraseAll, k, zeros, ones);
      }
    }
  }

  /** From the start of a page on it does exactly if everything is erased or the octets that go behind the image size
      rounded up to sectors are all 0. */
  lemma AlignedImageArrives(content: seq<bv8>, address: nat, eraseAll: bool)
    requires address % PAGE == 0 && address + |content| <= FLASH_SIZE
    ensures (forall m: seq<bv8> :: |m| == FLASH_SIZE ==> HoldsImage(m, content, address, eraseAll))
      <==> eraseAll || forall k :: 0 <= k < |content| && RoundUp(|content|) <= address + k ==> content[k] == 0
  {
    hide Index, HoldsImage;
    ImageArrives(content, address, eraseAll);
    forall k | 0 <= k < |content|
      ensures Arrives(content, address, eraseAll, k) <==>
        eraseAll || address + k < RoundUp(|content|) || content[k] == 0
    {
      AlignedIndex(address, |content|, address + k);
    }
  }

  /** The octet 1 burned to the second sector of a flash full of zeros, which is not erased. */
  lemma ImageLost()
    ensures !HoldsImage(seq(FLASH_SIZE, _ => 0), [1], SECTOR, false)
  {
    var m: seq<bv8> := seq(FLASH_SIZE, _ => 0);
    AlignedIndex(SECTOR, 1, SECTOR);
    BitsOfErased(1);
    assert Burned(m, [1], SECTOR, false, SECTOR + 0) == 0;
  }

  /** The erase loop: the first sector is the one the address lies in, the bound is the image size rounded up. */
  method EraseLoop(chip: Chip, address: nat, size: nat, eraseAll: bool)
    requires chip.mem.Length == FLASH_SIZE && size <= FLASH_SIZE
    modifies chip.mem, chip`strange
    ensures chip.strange == old(chip.strange)
    ensures forall i :: 0 <= i < FLASH_SIZE ==>
      chip.mem[i] == if InErased(i, address, size, eraseAll) then 0xFF else old(chip.mem[i])
  {
    var eraseAddr, eraseSize := address, RoundUp(size);
    if eraseAll {
      eraseAddr, eraseSize := 0, FLASH_SIZE;
    }
    ghost var first := SectorOf(eraseAddr);
    while eraseAddr < eraseSize
      invariant chip.strange == old(chip.strange)
      invariant eraseAddr % SECTOR == (if eraseAll then 0 else address) % SECTOR && first <= SectorOf(eraseAddr)
      invariant eraseAddr >= eraseSize ==>
        SectorOf(eraseAddr) == if (if eraseAll then 0 else address) < eraseSize then eraseSize else first
      invariant forall i :: 0 <= i < FLASH_SIZE ==>
        chip.mem[i] == if first <= i < SectorOf(eraseAddr) then 0xFF else old(chip.mem[i])
      decreases eraseSize - eraseAddr
    {
      SectorErase(chip, eraseAddr);
      eraseAddr := eraseAddr + SECTOR;
    }
  }

  /** Octets of `data` have been programmed as octets `n` and following of an image that starts at `address`. */
  function Piece(x: bv8, k: nat, n: nat, data: seq<bv8>): bv8 {
    if n <= k < n + |data| then x & data[k - n] else x
  }

  /** One `flash_page_program` at `address + n`, in 32-bit arithmetic. */
  method ProgramPage(chip: Chip, address: nat, n: nat, data: seq<bv8>)
    requires chip.mem.Length == FLASH_SIZE && n % PAGE == 0 && n < FLASH_SIZE && |data| <= PAGE
    modifies chip.mem, chip`strange
    ensures chip.strange <==> old(chip.strange) || !Intact(PAGE_PROGRAM_CMD, (address + n) % TWO32)
    ensures Intact(PAGE_PROGRAM_CMD, (address + n) % TWO32) ==>
      forall x :: 0 <= x < FLASH_SIZE ==> chip.mem[x] == Piece(old(chip.mem[x]), Index(address, x), n, data)
  {
    hide Slot, Index, Intact;
    var a := (address + n) % TWO32;
    PageProgram(chip, a, data);
    if Intact(PAGE_PROGRAM_CMD, a) {
      forall x | 0 <= x < FLASH_SIZE ensures chip.mem[x] == Piece(old(chip.mem[x]), Index(address, x), n, data) {
        forall i | 0 <= i < |data| ensures Slot(a, i) == x <==> Index(address, x) == n + i {
          SlotWraps(address + n, i);
          SlotIndex(address, n, i, x);
        }
        var k := Index(address, x);
        if n <= k < n + |data| {
          assert Slot(a, k - n) == x;
        }
      }
    }
  }

  /** Every program command for the first `size` octets of an image that starts at `address` arrives as such. */
  ghost predicate AllIntact(address: nat, size: nat) {
    forall n: nat :: n < size && PageStart(n) ==> Intact(PAGE_PROGRAM_CMD, (address + n) % TWO32)
  }

  predicate PageStart(n: nat) {
    n % PAGE == 0
  }

  lemma NoPageStartBetween(start: nat, w: nat, n: nat)
    requires PageStart(start) && PageStart(n) && w <= PAGE && n < start + w
    ensures n <= start
  {
  }

  lemma OneMoreIntact(address: nat, start: nat, w: nat)
    requires start % PAGE == 0 && 0 < w <= PAGE
    ensures AllIntact(address, start + w) <==>
      AllIntact(address, start) && Intact(PAGE_PROGRAM_CMD, (address + start) % TWO32)
  {
    hide Intact;
    assert PageStart(start);
    hide PageStart;
    forall n: nat | n < start + w && PageStart(n) ensures n <= start {
      NoPageStartBetween(start, w, n);
    }
  }

  lemma NothingSent(address: nat)
    ensures AllIntact(address, 0)
  {
  }

  lemma NoWrap(a: nat)
    requires a < TWO24
    ensures a % TWO32 == a
  {
  }

  /** Below 2^24 they all do. */
  lemma BelowTwo24(address: nat, size: nat)
    requires address + size <= TWO24
    ensures AllIntact(address, size)
  {
    hide Intact;
    forall n: nat | n < size && PageStart(n) ensures Intact(PAGE_PROGRAM_CMD, (address + n) % TWO32) {
      BothArrive(address + n);
      NoWrap(address + n);
    }
  }

  /** `m` is `before` with the bits of an image that starts at `address` cleared, and nothing else changed. */
  ghost predicate Programmed(m: seq<bv8>, before: seq<bv8>, address: nat, data: seq<bv8>) {
    |m| == |before| && forall x :: 0 <= x < |m| ==> m[x] == Masked(before[x], Index(address, x), data)
  }

  lemma MaskedOn(x: bv8, k: nat, content: seq<bv8>, n: nat, w: nat)
    requires n + w <= |content|
    ensures Piece(Masked(x, k, content[..n]), k, n, content[n..n + w]) == Masked(x, k, content[..n + w])
  {
  }

  lemma NothingProgrammed(m: seq<bv8>, address: nat)
    ensures Programmed(m, m, address, [])
  {
  }

  lemma ProgrammedOn(m: seq<bv8>, mid: seq<bv8>, before: seq<bv8>, address: nat, content: seq<bv8>, n: nat, w: nat)
    requires n + w <= |content| && |m| == |mid|
    requires Programmed(mid, before, address, content[..n])
    requires forall x :: 0 <= x < |m| ==> m[x] == Piece(mid[x], Index(address, x), n, content[n..n + w])
    ensures Programmed(m, before, address, content[..n + w])
  {
    hide Masked, Piece, Index;
    forall x | 0 <= x < |m| ensures m[x] == Masked(before[x], Index(address, x), content[..n + w]) {
      MaskedOn(before[x], Index(address, x), content, n, w);
    }
  }

  lemma AddressOn(address: nat, start: nat, w: nat)
    ensures ((address + start) % TWO32 + w) % TWO32 == (address + (start + w)) % TWO32
  {
  }

  /** The program loop, 256 octets at a time. */
  method ProgramLoop(chip: Chip, content: seq<bv8>, address: nat)
    requires chip.mem.Length == FLASH_SIZE && |content| <= FLASH_SIZE && address < TWO32 && !chip.strange
    modifies chip.mem, chip`strange
    ensures chip.strange <==> !AllIntact(address, |content|)
    ensures !chip.strange ==> Programmed(chip.mem[..], old(chip.mem[..]), address, content)
  {
    hide Programmed, Piece, Index, AllIntact, Intact;
    var programSize, flashAddr, start := |content|, address, 0;
    NothingProgrammed(chip.mem[..], address);
    NothingSent(address);
    assert content[..0] == [];
    while programSize > 0
      invariant programSize == |content| - start && flashAddr == (address + start) % TWO32 && 0 <= start <= |content|
      invariant programSize > 0 ==> start % PAGE == 0
      invariant chip.strange <==> !AllIntact(address, start)
      invariant !chip.strange ==> Programmed(chip.mem[..], old(chip.mem[..]), address, content[..start])
    {
      var writeLength := if programSize > 0xFF then PAGE else programSize;
      ghost var mid, before := chip.mem[..], old(chip.mem[..]);
      assert flashAddr == (address + start) % TWO32;
      ProgramPage(chip, address, start, content[start..start + writeLength]);
      OneMoreIntact(address, start, writeLength);
      if !chip.strange {
        ProgrammedOn(chip.mem[..], mid, before, address, content, start, writeLength);
      }
      programSize := programSize - writeLength;
      AddressOn(address, start, writeLength);
      flashAddr := (flashAddr + writeLength) % TWO32;
      start := start + writeLength;
    }
    assert content[..start] == content;
  }

  /** The burn: nothing when the image is larger than the flash. The chip sees no other command than those meant
      exactly if the program commands all arrive, and then every octet of the flash is `Burned`. */
  method Burn(chip: Chip, content: seq<bv8>, address: nat, eraseAll: bool) returns (done: bool)
    requires chip.mem.Length == FLASH_SIZE && address < TWO32 && !chip.strange
    modifies chip.mem, chip`strange
    ensures done <==> |content| <= FLASH_SIZE
    ensures !done ==> chip.mem[..] == old(chip.mem[..]) && !chip.strange
    ensures done ==> (chip.strange <==> !AllIntact(address, |content|))
    ensures done && !chip.strange ==>
      forall i :: 0 <= i < FLASH_SIZE ==> chip.mem[i] == Burned(old(chip.mem[..]), content, address, eraseAll, i)
  {
    if |content| > FLASH_SIZE {
      return false;
    }
    hide EraseFrom, EraseTo, Index, Masked, AllIntact;
    EraseLoop(chip, address, |content|, eraseAll);
    ProgramLoop(chip, content, address);
    return true;
  }

  /** A burn at address 0 changes nothing behind the image's size rounded up to sectors, and leaves 0xFF in between. */
  lemma BurnAtZero(m: seq<bv8>, content: seq<bv8>, i: nat)
    requires |m| == FLASH_SIZE && |content| <= i < FLASH_SIZE
    ensures Burned(m, content, 0, false, i) == if i < RoundUp(|content|) then 0xFF else m[i]
  {
    AlignedIndex(0, |content|, i);
  }

  /** Away from the start of a page, the octets that would run into the next page come round to the front of this
      one. */
  lemma UnalignedComesRound(m: seq<bv8>, content: seq<bv8>, address: nat, k: nat)
    requires |m| == FLASH_SIZE && |content| <= FLASH_SIZE && k < |content| && k < PAGE && address < FLASH_SIZE
    requires address % PAGE + k >= PAGE
    ensures Burned(m, content, address, true, address - address % PAGE + (address % PAGE + k - PAGE)) == content[k]
  {
    hide Index;
    var x := address - address % PAGE + (address % PAGE + k - PAGE);
    SlotIndex(address, 0, k, x);
    assert Slot(address, k) == x;
    BitsOfErased(content[k]);
  }

  // ----- reading back -----

  function RoundUp4(n: nat): (r: nat)
    ensures n <= r < n + 4 && r % 4 == 0
  {
    (n + 3) / 4 * 4
  }

  /** What stands in the controller's buffer once `len` octets from `a` on have come in over what it held before. */
  function Received(m: seq<bv8>, a: nat, len: nat, stale: seq<bv8>): (r: seq<bv8>)
    requires |m| == FLASH_SIZE && len <= |stale|
    ensures |r| == |stale| && forall i :: 0 <= i < |r| ==> r[i] == if i < len then m[(a + i) % FLASH_SIZE] else stale[i]
  {
    seq(|stale|, i requires 0 <= i < |stale| => if i < len then m[(a + i) % FLASH_SIZE] else stale[i])
  }

  method CopyWord(dest: array<bv8>, n: nat, buffer: seq<bv8>)
    requires n + 4 <= dest.Length && n + 4 <= |buffer|
    modifies dest
    ensures forall i :: 0 <= i < dest.Length ==> dest[i] == if n <= i < n + 4 then buffer[i] else old(dest[i])
  {
    dest[n], dest[n + 1], dest[n + 2], dest[n + 3] := buffer[n], buffer[n + 1], buffer[n + 2], buffer[n + 3];
  }

  lemma WordFits(n: nat, len: nat)
    requires n % 4 == 0 && n < len
    ensures n + 4 <= RoundUp4(len) && (n + 4) % 4 == 0
  {
  }

  lemma WordsDone(n: nat, len: nat)
    requires n % 4 == 0 && len <= n <= RoundUp4(len)
    ensures n == RoundUp4(len)
  {
  }

  /** `flash_fast_read`: the chip is asked for `len` octets and the controller's buffer is copied in words of four, so
      behind those octets comes what the buffer held before, `stale`. */
  method FastRead(chip: Chip, a: nat, len: nat, dest: array<bv8>, stale: seq<bv8>)
    requires chip.mem.Length == FLASH_SIZE && dest != chip.mem
    requires RoundUp4(len) <= dest.Length && RoundUp4(len) <= |stale|
    modifies dest
    ensures forall i :: 0 <= i < dest.Length ==>
      dest[i] == if i < len then chip.mem[(a + i) % FLASH_SIZE]
                 else if i < RoundUp4(len) then stale[i] else old(dest[i])
  {
    hide RoundUp4;
    var buffer := Received(chip.mem[..], a, len, stale);
    var n := 0;
    while n < len
      invariant 0 <= n <= RoundUp4(len) && n % 4 == 0
      invariant forall i :: 0 <= i < dest.Length ==> dest[i] == if i < n then buffer[i] else old(dest[i])
    {
      WordFits(n, len);
      CopyWord(dest, n, buffer);
      n := n + 4;
    }
    WordsDone(n, len);
  }

  /** Reading the whole flash, one sector after another. */
  method ReadAll(chip: Chip, stale: seq<bv8>) returns (image: seq<bv8>)
    requires chip.mem.Length == FLASH_SIZE && |stale| >= SECTOR
    ensures image == chip.mem[..]
  {
    image := [];
    var readBuf := new bv8[SECTOR];
    var readAddr := 0;
    while readAddr < FLASH_SIZE
      invariant 0 <= readAddr <= FLASH_SIZE && readAddr % SECTOR == 0
      invariant image == chip.mem[..readAddr]
    {
      FastRead(chip, readAddr, SECTOR, readBuf, stale);
      assert readBuf[..] == chip.mem[readAddr..readAddr + SECTOR];
      image := image + readBuf[..];
      readAddr := readAddr + SECTOR;
    }
  }
}
