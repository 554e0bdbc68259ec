/** Page-table entries and address bits of the four-level paging the kernel
    uses (sections 4.5 and 4.6 of the Intel 64 and IA-32 Architectures Software
    Developer's Manual, Volume 3A).  Entries are 64-bit words; addresses are
    numbers, and the four table indices are read off them by division, which
    AddressWord proves to be what the kernel's masks and shifts do. */
module PageEntry {
  import Ring

  const PGD_MASK: bv64 := 0xff8000000000
  const PUD_MASK: bv64 := 0x7fc0000000
  const PMD_MASK: bv64 := 0x3fe00000
  const PTE_MASK: bv64 := 0x1ff000

  const PAGE_SIZE: nat := 4096
  const PAGES: nat := 0x1000000000      // 2 to the 36: as many pages as 48 address bits name

  // ---------------------------------------------------------------- table indices

  /** The page an address lies in, as far as the hardware translates it. */
  function PageOf(addr: nat): nat {
    (addr / PAGE_SIZE) % PAGES
  }

  /** The indices into the four levels of tables, top level first. */
  function Path(addr: nat): (p: seq<nat>)
    ensures |p| == 4
  {
    [(addr / 0x8000000000) % 512, (addr / 0x40000000) % 512, (addr / 0x200000) % 512, (addr / 0x1000) % 512]
  }

  /** Each index is a digit of the page number in base 512. */
  lemma Digits(addr: nat)
    ensures var p := addr / 4096;
            && (addr / 0x1000) % 512 == p % 512
            && (addr / 0x200000) % 512 == (p / 512) % 512
            && (addr / 0x40000000) % 512 == (p / 512 / 512) % 512
            && (addr / 0x8000000000) % 512 == (p / 512 / 512 / 512) % 512
  {
    Ring.DivDiv(addr, 4096, 512);
    Ring.DivDiv(addr, 0x200000, 512);
    Ring.DivDiv(addr, 0x40000000, 512);
  }

  /** A page number is its four digits. */
  lemma DigitsMake(p: nat)
    ensures p % PAGES ==
              (p / 512 / 512 / 512) % 512 * 0x8000000 + (p / 512 / 512) % 512 * 0x40000
              + (p / 512) % 512 * 512 + p % 512
  {
    Ring.ModParts(p, 512, 0x8000000);
    Ring.ModParts(p / 512, 512, 0x40000);
    Ring.ModParts(p / 512 / 512, 512, 512);
  }

  lemma PageFromPath(addr: nat)
    ensures var p := Path(addr);
            && PageOf(addr) == p[0] * 0x8000000 + p[1] * 0x40000 + p[2] * 512 + p[3]
            && 0 <= p[0] < 512 && 0 <= p[1] < 512 && 0 <= p[2] < 512 && 0 <= p[3] < 512
  {
    Digits(addr);
    DigitsMake(addr / 4096);
  }

  /** The four indices together name the page. */
  lemma PathNamesPage(a: nat, b: nat)
    ensures Path(a) == Path(b) <==> PageOf(a) == PageOf(b)
  {
    PageFromPath(a);
    PageFromPath(b);
    hide Path, PageOf;
    var p, q := Path(a), Path(b);
    if PageOf(a) == PageOf(b) {
      assert p[0] == q[0] && p[1] == q[1] && p[2] == q[2] && p[3] == q[3];
    }
  }

  // ---------------------------------------------------------------- entry bits

  predicate Present(e: bv64) { e & 0x1 != 0 }

  predicate Writable(e: bv64) { e & 0x2 != 0 }

  predicate UserBit(e: bv64) { e & 0x4 != 0 }

  /** A physical frame, by its number. */
  datatype Frame = Frame(number: bv64)

  function FrameOf(e: bv64): Frame { Frame((e >> 12) & 0xFFFFFFFF) }

  /** A new entry for frame `pfn`, all rights granted. */
  function NewEntry(f: Frame): bv64 { (f.number << 12) | 0x7 }

  /** What a process may do to a page in user mode. */
  datatype Access = NoAccess | ReadOnly | ReadWrite

  function AccessOf(user: bool, writable: bool): Access {
    if !user then NoAccess else if writable then ReadWrite else ReadOnly
  }

  /** The access an entry grants by itself. */
  function EntryAccess(e: bv64): Access {
    AccessOf(UserBit(e), Writable(e))
  }

  lemma OpenBits(e: bv64)
    ensures (e | 0x7) & 0x1 != 0 && (e | 0x7) & 0x2 != 0 && (e | 0x7) & 0x4 != 0
    ensures ((e | 0x7) >> 12) & 0xFFFFFFFF == (e >> 12) & 0xFFFFFFFF
  {
  }

  lemma NewBits(pfn: bv64)
    requires pfn <= 0xFFFFFFFF
    ensures ((pfn << 12) | 0x7) & 0x1 != 0 && ((pfn << 12) | 0x7) & 0x2 != 0 && ((pfn << 12) | 0x7) & 0x4 != 0
    ensures (((pfn << 12) | 0x7) >> 12) & 0xFFFFFFFF == pfn
  {
  }

  lemma NarrowBits(e: bv64)
    ensures (e & !0x2) & 0x1 == e & 0x1 && ((e & !0x2) >> 12) & 0xFFFFFFFF == (e >> 12) & 0xFFFFFFFF
    ensures (e & !0x2) & 0x2 == 0 && (e & !0x2) & 0x4 == e & 0x4
  {
  }

  lemma ShutBits(e: bv64)
    ensures (e & !0x6) & 0x1 == e & 0x1 && ((e & !0x6) >> 12) & 0xFFFFFFFF == (e >> 12) & 0xFFFFFFFF
    ensures (e & !0x6) & 0x4 == 0
  {
  }

  /** An entry on the way to a page: all rights granted. */
  function Open(e: bv64): bv64 { e | 0x7 }

  lemma Opened(e: bv64)
    ensures Present(Open(e)) && FrameOf(Open(e)) == FrameOf(e) && EntryAccess(Open(e)) == ReadWrite
  {
    OpenBits(e);
  }

  lemma Created(f: Frame)
    requires f.number <= 0xFFFFFFFF
    ensures Present(NewEntry(f)) && FrameOf(NewEntry(f)) == f && EntryAccess(NewEntry(f)) == ReadWrite
  {
    NewBits(f.number);
  }

  /** The entry without its write right. */
  function Narrow(e: bv64): bv64 { e & !0x2 }

  /** The entry without write and user rights. */
  function Shut(e: bv64): bv64 { e & !0x6 }

  /** What pt_walk does to an existing leaf entry. */
  function SetLeaf(e: bv64, remove: bool, compOff: bool): bv64 {
    if compOff then Shut(e)
    else if remove then Narrow(Open(e))
    else Open(e)
  }

  /** The access pt_walk grants. */
  function Granted(remove: bool, compOff: bool): Access {
    if compOff then NoAccess else if remove then ReadOnly else ReadWrite
  }

  lemma ShutGrantsNothing(e: bv64)
    requires Present(e)
    ensures Present(Shut(e)) && FrameOf(Shut(e)) == FrameOf(e) && EntryAccess(Shut(e)) == NoAccess
  {
    ShutBits(e);
  }

  lemma NarrowGrantsReading(e: bv64)
    requires Present(e) && EntryAccess(e) == ReadWrite
    ensures Present(Narrow(e)) && FrameOf(Narrow(e)) == FrameOf(e) && EntryAccess(Narrow(e)) == ReadOnly
  {
    NarrowBits(e);
  }

  lemma LeafSet(e: bv64, remove: bool, compOff: bool)
    requires Present(e)
    ensures Present(SetLeaf(e, remove, compOff)) && FrameOf(SetLeaf(e, remove, compOff)) == FrameOf(e)
    ensures EntryAccess(SetLeaf(e, remove, compOff)) == Granted(remove, compOff)
  {
    hide Present, FrameOf, EntryAccess, Open, Narrow, Shut;
    ShutGrantsNothing(e);
    Opened(e);
    NarrowGrantsReading(Open(e));
  }

  /** A leaf entry pt_walk creates. */
  function NewLeaf(f: Frame, remove: bool): bv64 {
    if remove then Narrow(NewEntry(f)) else NewEntry(f)
  }

  lemma NewNarrowBits(pfn: bv64)
    requires pfn <= 0xFFFFFFFF
    ensures (((pfn << 12) | 0x7) & !0x2) & 0x1 != 0 && (((pfn << 12) | 0x7) & !0x2) & 0x4 != 0
    ensures ((((pfn << 12) | 0x7) & !0x2) >> 12) & 0xFFFFFFFF == pfn
    ensures (((pfn << 12) | 0x7) & !0x2) & 0x2 == 0
  {
  }

  lemma LeafCreatedNarrow(pfn: bv64)
    requires pfn <= 0xFFFFFFFF
    ensures var e := NewLeaf(Frame(pfn), true); Present(e) && FrameOf(e) == Frame(pfn) && EntryAccess(e) == ReadOnly
  {
    NewNarrowBits(pfn);
  }

  lemma LeafCreatedWide(pfn: bv64)
    requires pfn <= 0xFFFFFFFF
    ensures var e := NewLeaf(Frame(pfn), false); Present(e) && FrameOf(e) == Frame(pfn) && EntryAccess(e) == ReadWrite
  {
    NewBits(pfn);
  }

  lemma LeafCreated(f: Frame, remove: bool)
    requires f.number <= 0xFFFFFFFF
    ensures Present(NewLeaf(f, remove)) && FrameOf(NewLeaf(f, remove)) == f
    ensures EntryAccess(NewLeaf(f, remove)) == Granted(remove, false)
  {
    hide NewLeaf, Present, FrameOf, EntryAccess;
    if remove { LeafCreatedNarrow(f.number); } else { LeafCreatedWide(f.number); }
  }
}
