/** The context-switch pass over all private areas sets every page's rights to
    exactly what the area's rule gives the context that runs next. */
module ThreadSwitch {
  import opened PageEntry
  import opened PageTable
  import opened PageWalk
  import opened ThreadSpec

  const ADDRESSES: nat := 0x1000000000000   // 2 to the 48

  /** Page aligned, and inside the addresses the tables translate. */
  predicate Aligned(area: Area) {
    area.start % PAGE_SIZE == 0 && area.length % PAGE_SIZE == 0 && area.start + area.length <= ADDRESSES
  }

  /** The page's rights are exactly `a`, unless it is not mapped at all. */
  predicate Settled(m: Memory, root: Frame, addr: nat, a: Access) {
    UpperOpen(m, root, Path(addr)) &&
    match Lookup(m, root, Path(addr)) case Unmapped => true case Mapped(e) => EntryAccess(e) == a
  }

  /** The page is mapped to the same frame, or still not mapped. */
  predicate SameFrame(m: Memory, m': Memory, root: Frame, addr: nat) {
    match (Lookup(m, root, Path(addr)), Lookup(m', root, Path(addr)))
    case (Mapped(e), Mapped(e')) => FrameOf(e') == FrameOf(e)
    case (Unmapped, Unmapped) => true
    case _ => false
  }

  /** What a part of the pass does to one page: sets it to `a` or leaves it alone. */
  ghost predicate Effect(m: Memory, m': Memory, root: Frame, path: Labels, addr: nat, inside: bool, a: Access) {
    && Tree(m', root, path)
    && SameFrame(m, m', root, addr)
    && (inside ==> Settled(m', root, addr, a))
    && (!inside ==> Lookup(m', root, Path(addr)) == Lookup(m, root, Path(addr)))
    && (UpperOpen(m, root, Path(addr)) ==> UpperOpen(m', root, Path(addr)))
  }

  lemma NoEffect(m: Memory, root: Frame, path: Labels, addr: nat, a: Access)
    requires Tree(m, root, path)
    ensures Effect(m, m, root, path, addr, false, a)
  {
  }

  /** Two parts of the pass, at most one of which covers the page. */
  lemma EffectCompose(m: Memory, m1: Memory, m2: Memory, root: Frame, path: Labels, addr: nat,
                      in1: bool, a1: Access, in2: bool, a2: Access)
    requires Effect(m, m1, root, path, addr, in1, a1) && Effect(m1, m2, root, path, addr, in2, a2) && !(in1 && in2)
    ensures Effect(m, m2, root, path, addr, in1 || in2, if in1 then a1 else a2)
  {
    hide Tree, UpperOpen, Lookup, EntryAccess, FrameOf, Path;
  }

  /** The pages of an area from page `k` on. */
  predicate InTail(area: Area, k: nat, addr: nat) {
    area.start + k * PAGE_SIZE <= addr < area.start + area.length
  }

  /** The tail is its first page and the next tail, which do not overlap. */
  lemma TailSplits(area: Area, k: nat, addr: nat)
    requires Aligned(area) && k < area.length / PAGE_SIZE && addr < ADDRESSES
    ensures var first := PageOf(addr) == PageOf(area.start + k * PAGE_SIZE);
            && (InTail(area, k, addr) <==> first || InTail(area, k + 1, addr))
            && !(first && InTail(area, k + 1, addr))
  {
  }

  lemma TailEnds(area: Area, addr: nat)
    requires Aligned(area)
    ensures !InTail(area, area.length / PAGE_SIZE, addr)
  {
  }

  lemma OnePageEffect(m: Memory, root: Frame, path: Labels, page: nat, remove: bool, compOff: bool, addr: nat)
    requires Tree(m, root, path)
    ensures Effect(m, PtWalk(m, root, page, remove, true, compOff, []), root, path, addr,
                   PageOf(addr) == PageOf(page), Granted(remove, compOff))
  {
    hide Tree, UpperOpen, Lookup, EntryAccess, FrameOf, Path, PageOf, PtWalk, Granted;
    PtWalkTouchesOnePage(m, root, path, page, addr, remove, true, compOff, []);
  }

  lemma {:induction false} SwitchPagesEffect(m: Memory, root: Frame, path: Labels, area: Area,
                                             remove: bool, compOff: bool, k: nat, addr: nat)
    requires Tree(m, root, path) && Aligned(area) && k <= area.length / PAGE_SIZE && addr < ADDRESSES
    ensures Effect(m, SwitchPages(m, root, area, remove, compOff, k), root, path, addr,
                   InTail(area, k, addr), Granted(remove, compOff))
    decreases area.length / PAGE_SIZE - k
  {
    hide Tree, Granted, PtWalk, PageOf, InTail, Aligned;
    if k == area.length / PAGE_SIZE {
      TailEnds(area, addr);
      NoEffect(m, root, path, addr, Granted(remove, compOff));
    } else {
      var page := area.start + k * PAGE_SIZE;
      var m1 := PtWalk(m, root, page, remove, true, compOff, []);
      OnePageEffect(m, root, path, page, remove, compOff, addr);
      TailSplits(area, k, addr);
      assert Tree(m1, root, path);
      hide Effect;
      SwitchPagesEffect(m1, root, path, area, remove, compOff, k + 1, addr);
      EffectCompose(m, m1, SwitchPages(m1, root, area, remove, compOff, k + 1), root, path, addr,
                    PageOf(addr) == PageOf(page), Granted(remove, compOff),
                    InTail(area, k + 1, addr), Granted(remove, compOff));
    }
  }

  /** The rights the pass asks for are the rule's. */
  lemma ModeIsRule(proc: int, next: int, owner: int, flags: bv32)
    ensures var (remove, compOff) := SwitchMode(proc, next, owner, flags);
            Granted(remove, compOff) == Rule(proc, next, owner, flags)
  {
    hide RdWr, RdOnly;
  }

  /** The page lies in one of the thread's live areas from `j` on. */
  predicate CoveredFrom(areas: seq<Area>, j: nat, addr: nat)
    requires j <= |areas|
  {
    HitFrom(areas, addr, j) < |areas|
  }

  function RuleFrom(t: Thread, proc: int, next: int, j: nat, addr: nat): Access
    requires j <= |t.areas|
  {
    var k := HitFrom(t.areas, addr, j);
    if k < |t.areas| then Rule(proc, next, t.pid, t.areas[k].flags) else NoAccess
  }

  predicate OneAreaAt(areas: seq<Area>, addr: nat) {
    forall j, k | 0 <= j < k < |areas| :: !(Contains(areas[j], addr) && Contains(areas[k], addr))
  }

  lemma {:induction false} SwitchAreasEffect(m: Memory, root: Frame, path: Labels, t: Thread,
                                             proc: int, next: int, j: nat, addr: nat)
    requires Tree(m, root, path) && j <= |t.areas| && addr < ADDRESSES && OneAreaAt(t.areas, addr)
    requires forall k | 0 <= k < |t.areas| && t.areas[k].live :: Aligned(t.areas[k])
    ensures Effect(m, SwitchAreas(m, root, t, proc, next, j), root, path, addr,
                   CoveredFrom(t.areas, j, addr), RuleFrom(t, proc, next, j, addr))
    decreases |t.areas| - j
  {
    if j == |t.areas| {
      NoEffect(m, root, path, addr, NoAccess);
    } else if !t.areas[j].live {
      SwitchAreasEffect(m, root, path, t, proc, next, j + 1, addr);
    } else {
      var area := t.areas[j];
      var (remove, compOff) := SwitchMode(proc, next, t.pid, area.flags);
      ModeIsRule(proc, next, t.pid, area.flags);
      SwitchPagesEffect(m, root, path, area, remove, compOff, 0, addr);
      var m1 := SwitchPages(m, root, area, remove, compOff, 0);
      assert Tree(m1, root, path);
      SwitchAreasEffect(m1, root, path, t, proc, next, j + 1, addr);
      assert InTail(area, 0, addr) == Contains(area, addr);
      hide Tree, Effect, Granted, Rule, SwitchMode, SwitchPages, InTail;
      EffectCompose(m, m1, SwitchAreas(m1, root, t, proc, next, j + 1), root, path, addr,
                    Contains(area, addr), Granted(remove, compOff),
                    CoveredFrom(t.areas, j + 1, addr), RuleFrom(t, proc, next, j + 1, addr));
    }
  }

  // ---------------------------------------------------------------- all threads

  predicate AllAligned(ts: Threads) {
    forall h | 0 <= h < |ts| && ts[h].used ::
      forall k | 0 <= k < |ts[h].areas| && ts[h].areas[k].live :: Aligned(ts[h].areas[k])
  }

  predicate Holds(t: Thread, addr: nat) {
    t.used && CoveredFrom(t.areas, 0, addr)
  }

  /** The first used thread from `i` on with a live area at the address. */
  function HolderFrom(ts: Threads, addr: nat, i: nat): (r: nat)
    requires i <= |ts|
    ensures i <= r <= |ts| && (r < |ts| ==> Holds(ts[r], addr)) && (forall k | i <= k < r :: !Holds(ts[k], addr))
    decreases |ts| - i
  {
    if i == |ts| || Holds(ts[i], addr) then i else HolderFrom(ts, addr, i + 1)
  }

  function RuleAt(ts: Threads, proc: int, next: int, i: nat, addr: nat): Access
    requires i <= |ts|
  {
    var k := HolderFrom(ts, addr, i);
    if k < |ts| then RuleFrom(ts[k], proc, next, 0, addr) else NoAccess
  }

  predicate OneThreadAt(ts: Threads, addr: nat) {
    forall i, k | 0 <= i < k < |ts| :: !(Holds(ts[i], addr) && Holds(ts[k], addr))
  }

  lemma {:induction false} SwitchThreadsEffect(m: Memory, root: Frame, path: Labels, ts: Threads,
                                               proc: int, next: int, i: nat, addr: nat)
    requires Tree(m, root, path) && i <= |ts| && addr < ADDRESSES && OneThreadAt(ts, addr)
    requires forall h | 0 <= h < |ts| && ts[h].used :: OneAreaAt(ts[h].areas, addr)
    requires AllAligned(ts)
    ensures Effect(m, SwitchThreads(m, root, ts, proc, next, i), root, path, addr,
                   HolderFrom(ts, addr, i) < |ts|, RuleAt(ts, proc, next, i, addr))
    decreases |ts| - i
  {
    hide Holds;
    if i == |ts| {
      NoEffect(m, root, path, addr, NoAccess);
    } else if !ts[i].used {
      assert !Holds(ts[i], addr) by { UnusedHoldsNothing(ts[i], addr); }
      SwitchThreadsEffect(m, root, path, ts, proc, next, i + 1, addr);
    } else {
      HoldsIsCovered(ts[i], addr);
      SwitchAreasEffect(m, root, path, ts[i], proc, next, 0, addr);
      var m1 := SwitchAreas(m, root, ts[i], proc, next, 0);
      assert Tree(m1, root, path);
      SwitchThreadsEffect(m1, root, path, ts, proc, next, i + 1, addr);
      hide Tree, Effect, SwitchAreas;
      EffectCompose(m, m1, SwitchThreads(m1, root, ts, proc, next, i + 1), root, path, addr,
                    CoveredFrom(ts[i].areas, 0, addr), RuleFrom(ts[i], proc, next, 0, addr),
                    HolderFrom(ts, addr, i + 1) < |ts|, RuleAt(ts, proc, next, i + 1, addr));
    }
  }

  lemma UnusedHoldsNothing(t: Thread, addr: nat)
    ensures !t.used ==> !Holds(t, addr)
  {
  }

  lemma HoldsIsCovered(t: Thread, addr: nat)
    requires t.used
    ensures Holds(t, addr) == CoveredFrom(t.areas, 0, addr)
  {
  }
}
