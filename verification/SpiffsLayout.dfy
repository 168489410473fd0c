/**
 The flash layout arithmetic of SPIFFS (components/fsal/spiffs/spiffs_nucleus.h:155-243): blocks start with
 lookup pages, whose entries stand for the block's other pages, and the last two entries of the last lookup
 page hold the magic and the erase count.
 */
module SpiffsLayout {
  /** The size of an object id, and of a page index. */
  const ID: nat := 2

  /** Page size, pages in a block, first address of the file system, octets before the index in an index
      header page and in an index page (46 and 8 with names of 32 octets and aligned index tables). */
  datatype Geometry = Geometry(page: nat, perBlock: nat, start: nat, ixHeader: nat, ix: nat) {
    predicate Valid() {
      page >= 2 * ID && page % ID == 0 && perBlock > 0 && ixHeader <= page && ix + ID <= page
    }

    function BlockSize(): nat {
      perBlock * page
    }

    /** SPIFFS_OBJ_LOOKUP_PAGES */
    function LookupPages(): (r: nat)
      requires Valid()
    {
      if perBlock * ID / page > 1 then perBlock * ID / page else 1
    }

    /** SPIFFS_OBJ_LOOKUP_MAX_ENTRIES, never negative by `LookupPagesFit`. */
    function MaxEntries(): int
      requires Valid()
    {
      perBlock - LookupPages()
    }

    /** SPIFFS_IS_LOOKUP_PAGE */
    predicate IsLookupPage(p: nat)
      requires Valid()
    {
      p % perBlock < LookupPages()
    }

    /** SPIFFS_BLOCK_TO_PADDR */
    function BlockToPaddr(block: nat): nat {
      start + block * BlockSize()
    }

    /** SPIFFS_OBJ_LOOKUP_ENTRY_TO_PIX */
    function EntryToPix(block: nat, entry: nat): nat
      requires Valid()
    {
      block * perBlock + (LookupPages() + entry)
    }

    /** SPIFFS_OBJ_LOOKUP_ENTRY_TO_PADDR */
    function EntryToPaddr(block: nat, entry: nat): nat
      requires Valid()
    {
      BlockToPaddr(block) + (LookupPages() + entry) * page
    }

    /** SPIFFS_PAGE_TO_PADDR */
    function PageToPaddr(p: nat): nat {
      start + p * page
    }

    /** SPIFFS_PADDR_TO_PAGE */
    function PaddrToPage(a: nat): nat
      requires Valid() && start <= a
    {
      (a - start) / page
    }

    /** SPIFFS_PADDR_TO_PAGE_OFFSET */
    function PaddrToPageOffset(a: nat): nat
      requires Valid() && start <= a
    {
      (a - start) % page
    }

    /** SPIFFS_BLOCK_FOR_PAGE */
    function BlockForPage(p: nat): nat
      requires Valid()
    {
      p / perBlock
    }

    /** SPIFFS_OBJ_LOOKUP_ENTRY_FOR_PAGE */
    function EntryForPage(p: nat): int
      requires Valid()
    {
      p % perBlock - LookupPages()
    }

    /** SPIFFS_ERASE_COUNT_PADDR */
    function EraseCountPaddr(block: nat): int
      requires Valid()
    {
      BlockToPaddr(block) + LookupPages() * page - ID
    }

    /** SPIFFS_MAGIC_PADDR */
    function MagicPaddr(block: nat): int
      requires Valid()
    {
      BlockToPaddr(block) + LookupPages() * page - ID * 2
    }

    /** SPIFFS_CHECK_MAGIC_POSSIBLE */
    predicate CheckMagicPossible()
      requires Valid()
    {
      MaxEntries() % (page / ID) * ID <= page - ID * 2
    }

    /** Where lookup entry `entry` of a block is kept: the lookup pages hold their entries one after another. */
    function LookupSlot(block: nat, entry: nat): nat {
      BlockToPaddr(block) + entry * ID
    }

    /** SPIFFS_OBJ_HDR_IX_LEN */
    function HeaderIxLen(): nat
      requires Valid()
    {
      (page - ixHeader) / ID
    }

    /** SPIFFS_OBJ_IX_LEN */
    function IxLen(): (r: nat)
      requires Valid()
      ensures r > 0
    {
      (page - ix) / ID
    }

    /** SPIFFS_OBJ_IX_ENTRY */
    function IxEntry(span: nat): nat
      requires Valid()
    {
      if span < HeaderIxLen() then span else (span - HeaderIxLen()) % IxLen()
    }

    /** SPIFFS_OBJ_IX_ENTRY_SPAN_IX */
    function IxEntrySpan(span: nat): nat
      requires Valid()
    {
      if span < HeaderIxLen() then 0 else 1 + (span - HeaderIxLen()) / IxLen()
    }

    /** SPIFFS_DATA_SPAN_IX_FOR_OBJ_IX_SPAN_IX */
    function FirstDataSpan(ixSpan: nat): nat
      requires Valid()
    {
      if ixSpan == 0 then 0 else HeaderIxLen() + (ixSpan - 1) * IxLen()
    }

    /** How many entries an index page has. */
    function Entries(ixSpan: nat): nat
      requires Valid()
    {
      if ixSpan == 0 then HeaderIxLen() else IxLen()
    }
  }

  // ----- arithmetic -----

  lemma QuotientOf(q: nat, r: nat, d: nat)
    requires r < d
    ensures (q * d + r) / d == q && (q * d + r) % d == r
  {
    var x := q * d + r;
    var q', r' := x / d, x % d;
    assert (q - q') * d == r' - r && (q' - q) * d == r - r';
    if q > q' {
      TimesAtLeast(q - q', d);
    } else if q < q' {
      TimesAtLeast(q' - q, d);
    }
  }

  lemma TimesAtLeast(k: nat, d: nat)
    requires k > 0
    ensures k * d >= d
  {
  }

  lemma QuotientAtMost(x: nat, k: nat, d: nat)
    requires d > 0 && x < k * d
    ensures x / d < k
  {
  }

  lemma LookupPagesFit(g: Geometry)
    requires g.Valid()
    ensures 1 <= g.LookupPages() <= g.perBlock
  {
    assert g.perBlock * ID <= g.perBlock * g.page;
    QuotientAtMost(g.perBlock * ID, g.perBlock + 1, g.page);
  }

  // ----- lookup entries and pages -----

  /** A block's lookup entry stands for one page of that block that is no lookup page, and both address formulas
      agree on it. */
  lemma PageOfEntry(g: Geometry, block: nat, entry: nat)
    requires g.Valid() && entry < g.MaxEntries()
    ensures var p := g.EntryToPix(block, entry);
      && !g.IsLookupPage(p)
      && g.BlockForPage(p) == block
      && g.EntryForPage(p) == entry
      && g.PageToPaddr(p) == g.EntryToPaddr(block, entry)
  {
    QuotientOf(block, g.LookupPages() + entry, g.perBlock);
    Distribute(block, g.perBlock, g.LookupPages() + entry, g.page);
  }

  lemma Distribute(b: nat, k: nat, r: nat, page: nat)
    ensures (b * k + r) * page == b * (k * page) + r * page
  {
  }

  /** Every page that is no lookup page has one entry, in its own block. */
  lemma EntryOfPage(g: Geometry, p: nat)
    requires g.Valid() && !g.IsLookupPage(p)
    ensures 0 <= g.EntryForPage(p) < g.MaxEntries()
    ensures g.EntryToPix(g.BlockForPage(p), g.EntryForPage(p)) == p
  {
    assert p == p / g.perBlock * g.perBlock + p % g.perBlock;
  }

  /** Addresses are pages and offsets. */
  lemma AddressOfPage(g: Geometry, p: nat, offset: nat)
    requires g.Valid() && offset < g.page
    ensures g.PaddrToPage(g.PageToPaddr(p) + offset) == p && g.PaddrToPageOffset(g.PageToPaddr(p) + offset) == offset
  {
    QuotientOf(p, offset, g.page);
  }

  lemma PageOfAddress(g: Geometry, a: nat)
    requires g.Valid() && g.start <= a
    ensures g.PageToPaddr(g.PaddrToPage(a)) + g.PaddrToPageOffset(a) == a && g.PaddrToPageOffset(a) < g.page
  {
  }

  // ----- object index entries and data spans -----

  /** An object's data span sits in one entry of one index page: going there and back is the identity. */
  lemma SpanHasEntry(g: Geometry, span: nat)
    requires g.Valid()
    ensures g.IxEntry(span) < g.Entries(g.IxEntrySpan(span))
    ensures g.FirstDataSpan(g.IxEntrySpan(span)) + g.IxEntry(span) == span
  {
  }

  lemma EntryHasSpan(g: Geometry, ixSpan: nat, entry: nat)
    requires g.Valid() && entry < g.Entries(ixSpan)
    ensures g.IxEntrySpan(g.FirstDataSpan(ixSpan) + entry) == ixSpan
    ensures g.IxEntry(g.FirstDataSpan(ixSpan) + entry) == entry
  {
    if ixSpan > 0 {
      QuotientOf(ixSpan - 1, entry, g.IxLen());
    }
  }

  /** Index pages take the spans in order, the header page the first of them. */
  lemma SpansInOrder(g: Geometry, ixSpan: nat)
    requires g.Valid()
    ensures g.FirstDataSpan(0) == 0 && g.FirstDataSpan(1) == (g.page - g.ixHeader) / 2
    ensures g.FirstDataSpan(ixSpan + 1) ==
      g.FirstDataSpan(ixSpan) + if ixSpan == 0 then (g.page - g.ixHeader) / 2 else (g.page - g.ix) / 2
  {
    if ixSpan > 0 {
      assert ixSpan * g.IxLen() == (ixSpan - 1) * g.IxLen() + g.IxLen();
    }
  }

  /** A block's first pages are its lookup pages, as many as two octets for each of its pages fill, and one at least;
      its entries are the other pages in order, kept in the lookup pages one behind the other. */
  lemma PagesInOrder(g: Geometry, block: nat, entry: nat)
    requires g.Valid()
    ensures var n := g.LookupPages();
      && g.EntryToPix(block, entry) == block * g.perBlock + n + entry
      && g.LookupSlot(block, entry) == g.PageToPaddr(block * g.perBlock) + 2 * entry
      && 1 <= n && (n == 1 || n * g.page <= 2 * g.perBlock) && 2 * g.perBlock < (n + 1) * g.page
  {
    var q := g.perBlock * ID / g.page;
    var r := g.perBlock * ID % g.page;
    assert g.perBlock * ID == q * g.page + r;
    assert (q + 1) * g.page == q * g.page + g.page;
    if q == 0 {
      assert 2 * g.perBlock < g.page;
    }
    Distribute(block, g.perBlock, 0, g.page);
  }

  /** The last two octets in front of the block's first entry page are the erase count, the two in front of those
      the magic. */
  lemma LastOfLookup(g: Geometry, block: nat)
    requires g.Valid()
    ensures g.EraseCountPaddr(block) + 2 == g.PageToPaddr(block * g.perBlock + g.LookupPages())
    ensures g.MagicPaddr(block) + 4 == g.PageToPaddr(block * g.perBlock + g.LookupPages())
  {
    Distribute(block, g.perBlock, g.LookupPages(), g.page);
  }

  /** Blocks of 4096 octets in pages of 256: one lookup page with 15 entries, the magic at 252 and the erase count at
      254; the header page indexes 105 spans and every other index page 124. */
  lemma ShippedLayout()
    ensures var g := Geometry(256, 16, 0, 46, 8);
      && g.Valid() && g.LookupPages() == 1 && g.MaxEntries() == 15 && g.MagicPaddr(0) == 252
      && g.EraseCountPaddr(0) == 254 && g.EntryToPaddr(1, 0) == 4096 + 256 && g.CheckMagicPossible()
      && g.IxEntrySpan(104) == 0 && g.IxEntry(104) == 104 && g.IxEntrySpan(105) == 1 && g.IxEntry(105) == 0
      && g.IxEntrySpan(229) == 2 && g.IxEntry(229) == 0
  {
  }

  // ----- magic and erase count -----

  predicate Overlaps(a: int, b: int) {
    a < b + ID && b < a + ID
  }

  /** No lookup entry shares an octet with the magic or the erase count. */
  ghost predicate MagicIsFree(g: Geometry)
    requires g.Valid()
  {
    forall block: nat, entry: nat :: entry < g.MaxEntries() ==>
      && !Overlaps(g.LookupSlot(block, entry), g.MagicPaddr(block))
      && !Overlaps(g.LookupSlot(block, entry), g.EraseCountPaddr(block))
  }

  /** The entries that fit in the lookup pages. */
  function Room(g: Geometry): nat
    requires g.Valid()
  {
    g.LookupPages() * (g.page / ID)
  }

  lemma RoomInOctets(g: Geometry)
    requires g.Valid()
    ensures g.LookupPages() * g.page == Room(g) * ID && Room(g) >= 2
  {
    var k := g.page / ID;
    assert g.page == k * ID;
    assert g.LookupPages() * g.page == Room(g) * ID by { Regroup(g.LookupPages(), k); }
    LookupPagesFit(g);
    TimesAtLeast(g.LookupPages(), k);
  }

  lemma Regroup(n: nat, k: nat)
    ensures n * (k * ID) == n * k * ID
  {
  }

  lemma FreeMeansRoom(g: Geometry)
    requires g.Valid()
    ensures MagicIsFree(g) <==> g.MaxEntries() + 2 <= Room(g)
  {
    RoomInOctets(g);
    if g.MaxEntries() + 2 > Room(g) {
      var e := Room(g) - 2;
      assert Overlaps(g.LookupSlot(0, e), g.MagicPaddr(0));
    }
  }

  lemma LookupPagesAre(g: Geometry)
    requires g.Valid()
    ensures var k := g.page / ID; g.LookupPages() == if g.perBlock < k then 1 else g.perBlock / k
  {
    var k := g.page / ID;
    assert g.page == k * ID;
    SameQuotient(g.perBlock, k);
    if g.perBlock >= k {
      AtLeastOne(g.perBlock, k);
    } else {
      QuotientAtMost(g.perBlock, 1, k);
    }
  }

  lemma AtLeastOne(x: nat, d: nat)
    requires 0 < d <= x
    ensures x / d >= 1
  {
  }

  /** The exact condition for the two slots to be free, for every geometry. */
  lemma WhenMagicIsFree(g: Geometry)
    requires g.Valid()
    ensures var k := g.page / ID;
      MagicIsFree(g) <==> g.perBlock < k || g.perBlock % k + 2 <= g.perBlock / k
  {
    hide MagicIsFree;
    FreeMeansRoom(g);
    LookupPagesAre(g);
    var k := g.page / ID;
    var q, r := g.perBlock / k, g.perBlock % k;
    assert g.perBlock == q * k + r;
    assert g.perBlock < k ==> Room(g) == k;
    assert g.perBlock >= k ==> Room(g) == q * k;
  }

  lemma SameQuotient(p: nat, k: nat)
    requires k > 0
    ensures p * ID / (k * ID) == p / k
  {
    var q, r := p / k, p % k;
    assert p * ID == q * (k * ID) + r * ID;
    QuotientOf(q, r * ID, k * ID);
  }

  // ----- the check at mount time -----

  lemma SameRemainder(q: nat, k: nat, x: int)
    requires k > 0
    ensures (q * k + x) % k == x % k
    decreases q
  {
    if q > 0 {
      SameRemainder(q - 1, k, x);
      assert q * k + x == (q - 1) * k + x + k;
      OneRound((q - 1) * k + x, k);
    }
  }

  lemma OneRound(y: int, k: nat)
    requires k > 0
    ensures (y + k) % k == y % k
  {
    var c, m := y / k, y % k;
    assert y + k == (c + 1) * k + m;
    RemainderIs(y + k, c + 1, m, k);
  }

  lemma RemainderIs(x: int, c: int, m: nat, k: nat)
    requires x == c * k + m && m < k
    ensures x % k == m
  {
    var c', m' := x / k, x % k;
    assert (c - c') * k == m' - m && (c' - c) * k == m - m';
    if c > c' {
      TimesAtLeast(c - c', k);
    } else if c < c' {
      TimesAtLeast(c' - c, k);
    }
  }

  lemma NegatedRemainder(x: int, k: nat)
    requires k >= 2
    ensures (-x) % k == k - 1 <==> x % k == 1
  {
    var c, m := x / k, x % k;
    assert x == c * k + m;
    if m == 0 {
      assert -x == (-c) * k + 0;
      RemainderIs(-x, -c, 0, k);
    } else {
      assert -x == (-c - 1) * k + (k - m);
      RemainderIs(-x, -c - 1, k - m, k);
    }
  }

  /** What the check looks at: with `q` times as many pages in a block as a page has entries, and `r` more,
      it refuses exactly if q - r is 1 modulo that number. */
  lemma WhenCheckPasses(g: Geometry)
    requires g.Valid()
    ensures var k := g.page / ID;
      g.CheckMagicPossible() <==> g.perBlock < k || (g.perBlock / k - g.perBlock % k) % k != 1
  {
    LookupPagesAre(g);
    var k := g.page / ID;
    var q, r := g.perBlock / k, g.perBlock % k;
    assert g.page == k * ID && g.perBlock == q * k + r;
    assert g.CheckMagicPossible() <==> g.MaxEntries() % k != k - 1;
    if g.perBlock < k {
      RemainderIs(g.MaxEntries(), 0, g.perBlock - 1, k);
    } else {
      SameRemainder(q, k, r - q);
      NegatedRemainder(q - r, k);
    }
  }

  lemma SmallRemainder(q: nat, r: nat, k: nat)
    requires k >= 2 && 1 <= q && r < k && q <= r + 1
    ensures (q - r) % k == 1 <==> q == r + 1
  {
    if q <= r {
      if q == r {
        RemainderIs(0, 0, 0, k);
      } else {
        assert q - r == (-1) * k + (k + q - r);
        RemainderIs(q - r, -1, k + q - r, k);
      }
    } else {
      RemainderIs(1, 0, 1, k);
    }
  }

  /** For every geometry: the check passes although an entry overlaps exactly if the quotient is at most the
      remainder. */
  lemma WrongPass(g: Geometry)
    requires g.Valid()
    ensures var k := g.page / ID;
      g.CheckMagicPossible() && !MagicIsFree(g) <==> g.perBlock >= k && g.perBlock / k <= g.perBlock % k
  {
    hide MagicIsFree, Geometry.CheckMagicPossible;
    WhenCheckPasses(g);
    WhenMagicIsFree(g);
    var k := g.page / ID;
    if g.perBlock >= k {
      AtLeastOne(g.perBlock, k);
      if g.perBlock / k <= g.perBlock % k + 1 {
        SmallRemainder(g.perBlock / k, g.perBlock % k, k);
      }
    }
  }

  /** For every geometry: it fails although no entry overlaps exactly if the quotient exceeds the remainder by
      more than one, and by one modulo the entries of a page. */
  lemma WrongRefusal(g: Geometry)
    requires g.Valid()
    ensures var k := g.page / ID; var d := g.perBlock / k - g.perBlock % k;
      !g.CheckMagicPossible() && MagicIsFree(g) <==> g.perBlock >= k && d >= 2 && d % k == 1
  {
    hide MagicIsFree, Geometry.CheckMagicPossible;
    WhenCheckPasses(g);
    WhenMagicIsFree(g);
  }

  /** So the check is right exactly if pages are few, or quotient minus remainder is 1, or it is larger and not 1
      modulo the entries of a page. */
  lemma WhenCheckIsRight(g: Geometry)
    requires g.Valid()
    ensures var k := g.page / ID; var d := g.perBlock / k - g.perBlock % k;
      (g.CheckMagicPossible() <==> MagicIsFree(g)) <==> g.perBlock < k || d == 1 || (d >= 2 && d % k != 1)
  {
    hide MagicIsFree, Geometry.CheckMagicPossible;
    WrongPass(g);
    WrongRefusal(g);
  }

  ghost predicate PowerOfTwo(n: nat) {
    n == 1 || (n % 2 == 0 && n > 0 && PowerOfTwo(n / 2))
  }

  lemma HalvesDivide(a: nat, b: nat)
    requires b > 0 && a % 2 == 0 && b % 2 == 0 && a / 2 % (b / 2) == 0
    ensures a % b == 0 && a / b == a / 2 / (b / 2)
  {
    var q, h := a / 2 / (b / 2), b / 2;
    assert a / 2 == q * h;
    Twice(q, h);
    QuotientOf(q, 0, b);
  }

  lemma Twice(q: nat, h: nat)
    ensures 2 * (q * h) == q * (2 * h)
  {
  }

  lemma {:induction false} SmallerDivides(a: nat, b: nat)
    requires PowerOfTwo(a) && PowerOfTwo(b) && b <= a
    ensures a % b == 0
  {
    if b > 1 {
      SmallerDivides(a / 2, b / 2);
      HalvesDivide(a, b);
    }
  }

  lemma {:induction false} QuotientIsPower(a: nat, b: nat)
    requires PowerOfTwo(a) && PowerOfTwo(b) && b <= a && a % b == 0
    ensures PowerOfTwo(a / b)
  {
    if b > 1 {
      SmallerDivides(a / 2, b / 2);
      QuotientIsPower(a / 2, b / 2);
      HalvesDivide(a, b);
    }
  }

  lemma HalfIsPower(n: nat)
    requires PowerOfTwo(n) && n >= 4
    ensures PowerOfTwo(n / 2) && n / 2 % 2 == 0
  {
  }

  lemma OddRemainder(q: nat, k: nat)
    requires k > 0 && k % 2 == 0 && q % k == 1
    ensures q % 2 == 1
  {
    var h, a := k / 2, q / k;
    assert q == 2 * (a * h) + 1;
  }

  /** For powers of two the check is right. */
  lemma CheckIsExact(g: Geometry)
    requires g.Valid() && PowerOfTwo(g.page) && PowerOfTwo(g.perBlock)
    ensures g.CheckMagicPossible() <==> MagicIsFree(g)
  {
    hide MagicIsFree, Geometry.CheckMagicPossible;
    var k := g.page / ID;
    WhenCheckIsRight(g);
    if g.perBlock >= k {
      var q := g.perBlock / k;
      SmallerDivides(g.perBlock, k);
      HalfIsPower(g.page);
      QuotientIsPower(g.perBlock, k);
      if q > 1 && q % k == 1 {
        OddRemainder(q, k);
      }
    }
  }

  /** Blocks of 48 KiB in pages of 256 octets: 128 entries fit in the lookup page, 191 are used, and the check
      passes. */
  lemma CheckMissesOverlap()
    ensures var g := Geometry(256, 192, 0, 46, 8); g.Valid() && g.CheckMagicPossible() && !MagicIsFree(g)
  {
    WrongPass(Geometry(256, 192, 0, 46, 8));
  }

  /** Blocks of 4128 KiB: 129 lookup pages have room for 16512 entries, 16383 are used, and the check fails. */
  lemma CheckRefusesFree()
    ensures var g := Geometry(256, 16512, 0, 46, 8); g.Valid() && !g.CheckMagicPossible() && MagicIsFree(g)
  {
    WrongRefusal(Geometry(256, 16512, 0, 46, 8));
  }
}
