/** Runs of clone, private mmap and unmap, fault, context switch and exit, and
    the isolation of private areas in every state they reach. */
module ThreadIsolation {
  import opened PageEntry
  import opened PageTable
  import opened PageWalk
  import opened ThreadSpec
  import opened ThreadSwitch

  /** `frames` are the frames the allocator has given to the tables, with their
      places; `proc` is the process, `running` the context last switched to. */
  datatype State = State(mem: Memory, root: Frame, frames: Labels, threads: Threads, proc: int, running: int)

  /** The memory-area code around these handlers may change the tables too; it is
      free to do anything that keeps them a tree and leaves live private areas alone. */
  datatype Tables = Tables(mem: Memory, frames: Labels)

  datatype Step =
    | CloneStep(pid: int)
    | MmapStep(addr: nat, length: nat, flags: bv32)
    | UnmapStep(addr: nat, length: nat, after: Tables)
    | FaultStep(addr: nat, error: bv32, pool: seq<Frame>)
    | SwitchStep(next: int)
    | ExitStep(after: Tables)
    | OtherStep(after: Tables)

  ghost predicate IsLive(ts: Threads, pid: int) {
    exists i | 0 <= i < |ts| :: ts[i].used && ts[i].pid == pid
  }

  /** Only the process and its live threads enter the kernel. */
  ghost predicate Alive(s: State) {
    s.running == s.proc || IsLive(s.threads, s.running)
  }

  ghost predicate LeavesPrivateAlone(s: State, ts: Threads, after: Tables) {
    && Tree(after.mem, s.root, after.frames)
    && forall i: nat, j: nat, a: nat {:trigger InArea(ts, i, j, a)} | InArea(ts, i, j, a) ::
         Lookup(after.mem, s.root, Path(a)) == Lookup(s.mem, s.root, Path(a))
  }

  /** The address range an area may get: page aligned, translated by the tables,
      clear of every live private area, and not yet mapped. */
  ghost predicate FreshRange(s: State, addr: nat, length: nat) {
    && Aligned(Area(true, addr, length, 0))
    && (forall i: nat, j: nat, a: nat {:trigger InArea(s.threads, i, j, a)} | addr <= a < addr + length ::
          !InArea(s.threads, i, j, a))
    && (forall a {:trigger Path(a)} | addr <= a < addr + length :: Lookup(s.mem, s.root, Path(a)) == Unmapped)
  }

  /** What must hold for a step to be taken at all. */
  ghost predicate Enabled(s: State, step: Step) {
    match step
    case CloneStep(pid) => s.running == s.proc && pid != s.proc && !IsLive(s.threads, pid)
    case MmapStep(addr, length, flags) => Alive(s) && FreshRange(s, addr, length)
    case UnmapStep(addr, length, after) =>
      Alive(s) && LeavesPrivateAlone(s, Unmap(s.threads, s.proc, s.running, addr, length), after)
    case FaultStep(addr, error, pool) => Alive(s) && Supply(s.frames, pool, 4, false)
    case SwitchStep(next) => next == s.proc || IsLive(s.threads, next)
    case ExitStep(after) =>
      IsLive(s.threads, s.running) && s.running != s.proc && LeavesPrivateAlone(s, Exit(s.threads, s.running), after)
    case OtherStep(after) => LeavesPrivateAlone(s, s.threads, after)
  }

  ghost function Apply(s: State, step: Step): State
    requires Enabled(s, step) && s.root in s.frames
  {
    match step
    case CloneStep(pid) => s.(threads := Clone(s.threads, pid).0)
    case MmapStep(addr, length, flags) => s.(threads := Mmap(s.threads, s.proc, s.running, addr, length, flags).0)
    case UnmapStep(addr, length, after) =>
      s.(threads := Unmap(s.threads, s.proc, s.running, addr, length), mem := after.mem, frames := after.frames)
    case FaultStep(addr, error, pool) =>
      s.(mem := Fault(s.mem, s.root, s.threads, s.proc, s.running, addr, error, pool).0,
         frames := if Judge(s.threads, s.proc, s.running, addr, error).Refuse? then s.frames
                   else Relabel(s.mem, s.frames, s.root, Path(addr), false, pool))
    case SwitchStep(next) => s.(mem := SwitchThreads(s.mem, s.root, s.threads, s.proc, next, 0), running := next)
    case ExitStep(after) => s.(threads := Exit(s.threads, s.running), mem := after.mem, frames := after.frames)
    case OtherStep(after) => s.(mem := after.mem, frames := after.frames)
  }

  // ---------------------------------------------------------------- the invariant

  /** A thread in use has a pid that neither the process nor any lower slot bears,
      so a search by pid that ignores the status finds it first. */
  predicate PidsInv(ts: Threads, proc: int) {
    && (forall i | 0 <= i < |ts| && ts[i].used :: ts[i].pid != proc)
    && (forall i, k | 0 <= k < i < |ts| && ts[i].used :: ts[k].pid != ts[i].pid)
  }

  ghost predicate AreasInv(ts: Threads) {
    && (forall i, j {:trigger ts[i].areas[j]} | 0 <= i < |ts| && 0 <= j < |ts[i].areas| && ts[i].areas[j].live ::
          ts[i].used && Aligned(ts[i].areas[j]))
    && (forall a: nat, i: nat, j: nat, h: nat, k: nat {:trigger InArea(ts, i, j, a), InArea(ts, h, k, a)} |
          InArea(ts, i, j, a) && InArea(ts, h, k, a) :: i == h && j == k)
  }

  /** A present leaf entry grants exactly `rule`. */
  predicate Granting(m: Memory, root: Frame, addr: nat, rule: Access) {
    match Lookup(m, root, Path(addr)) case Unmapped => true case Mapped(e) => EntryAccess(e) == rule
  }

  function RuleOf(s: State, i: nat, j: nat): Access
    requires i < |s.threads| && j < |s.threads[i].areas|
  {
    Rule(s.proc, s.running, s.threads[i].pid, s.threads[i].areas[j].flags)
  }

  ghost predicate Isolated(s: State) {
    forall i: nat, j: nat, a: nat {:trigger InArea(s.threads, i, j, a)} | InArea(s.threads, i, j, a) ::
      Granting(s.mem, s.root, a, RuleOf(s, i, j))
  }

  ghost predicate Inv(s: State) {
    && Tree(s.mem, s.root, s.frames)
    && PidsInv(s.threads, s.proc)
    && AreasInv(s.threads)
    && Isolated(s)
  }

  // ---------------------------------------------------------------- slots

  /** The pid search finds a live thread's own slot, whatever stale pids other slots bear. */
  lemma FindsLive(ts: Threads, proc: int, i: nat)
    requires PidsInv(ts, proc) && i < |ts| && ts[i].used
    ensures FindFrom(ts, ts[i].pid, 0) == i
  {
    var r := FindFrom(ts, ts[i].pid, 0);
    assert r <= i;
  }

  lemma CloneKeepsPids(ts: Threads, proc: int, pid: int)
    requires PidsInv(ts, proc) && pid != proc && !IsLive(ts, pid)
    ensures PidsInv(Clone(ts, pid).0, proc)
  {
  }

  lemma AreasInvFrom(ts: Threads, ts': Threads)
    requires AreasInv(ts) && |ts'| == |ts|
    requires forall i | 0 <= i < |ts| :: |ts'[i].areas| == |ts[i].areas|
    requires forall i, j {:trigger ts'[i].areas[j]} | 0 <= i < |ts| && 0 <= j < |ts[i].areas| && ts'[i].areas[j].live ::
               ts'[i].used && ts[i].areas[j] == ts'[i].areas[j]
    ensures AreasInv(ts')
    ensures forall i: nat, j: nat, a: nat {:trigger InArea(ts', i, j, a)} ::
              InArea(ts', i, j, a) ==> InArea(ts, i, j, a)
  {
    hide Aligned;
    forall i: nat, j: nat, a: nat | InArea(ts', i, j, a) ensures InArea(ts, i, j, a) {
      var x := ts'[i].areas[j];
      assert ts[i].areas[j] == x && ts[i].used;
    }
  }

  /** Where a private mmap of a live thread goes: a free area of its own slot. */
  lemma MmapTarget(s: State, addr: nat, length: nat, flags: bv32) returns (i: nat, j: nat)
    requires PidsInv(s.threads, s.proc) && Alive(s)
    ensures var ts' := Mmap(s.threads, s.proc, s.running, addr, length, flags).0;
            ts' == s.threads
            || (&& i < |s.threads| && s.threads[i].used && s.threads[i].pid == s.running
                && j < |s.threads[i].areas| && !s.threads[i].areas[j].live
                && ts' == s.threads[i := s.threads[i].(
                                      areas := s.threads[i].areas[j := Area(true, addr, length, flags)])])
  {
    i, j := 0, 0;
    if s.running != s.proc {
      var h :| 0 <= h < |s.threads| && s.threads[h].used && s.threads[h].pid == s.running;
      FindsLive(s.threads, s.proc, h);
      i, j := h, FreeAreaFrom(s.threads[h].areas, 0);
    }
  }

  lemma NewAreaInv(ts: Threads, i: nat, j: nat, area: Area)
    requires AreasInv(ts) && i < |ts| && ts[i].used && j < |ts[i].areas|
    requires !ts[i].areas[j].live && area.live && Aligned(area)
    requires forall h: nat, k: nat, a: nat {:trigger InArea(ts, h, k, a)}
               | area.start <= a < area.start + area.length :: !InArea(ts, h, k, a)
    ensures var ts' := ts[i := ts[i].(areas := ts[i].areas[j := area])];
            && AreasInv(ts')
            && forall h: nat, k: nat, a: nat {:trigger InArea(ts', h, k, a)} ::
                 InArea(ts', h, k, a) <==> InArea(ts, h, k, a) || (h == i && k == j && Contains(area, a))
  {
    hide Aligned;
    var ts' := ts[i := ts[i].(areas := ts[i].areas[j := area])];
    forall h: nat, k: nat, a: nat
      ensures InArea(ts', h, k, a) <==> InArea(ts, h, k, a) || (h == i && k == j && Contains(area, a))
    {
    }
    hide InArea;
  }

  // ---------------------------------------------------------------- rights

  /** The pass settles the page of every live private area at its rule, and keeps the tree. */
  lemma SwitchSettles(s: State, next: int, i: nat, j: nat, addr: nat)
    requires Inv(s) && InArea(s.threads, i, j, addr)
    ensures var m' := SwitchThreads(s.mem, s.root, s.threads, s.proc, next, 0);
            && Settled(m', s.root, addr, Rule(s.proc, next, s.threads[i].pid, s.threads[i].areas[j].flags))
            && SameFrame(s.mem, m', s.root, addr)
  {
    var ts := s.threads;
    assert addr < ADDRESSES by { assert ts[i].areas[j].live; }
    OneOwner(ts, addr);
    assert HitFrom(ts[i].areas, addr, 0) == j by {
      var k := HitFrom(ts[i].areas, addr, 0);
      assert InArea(ts, i, k, addr);
    }
    assert Holds(ts[i], addr);
    assert HolderFrom(ts, addr, 0) == i;
    hide Tree, Lookup, Path, UpperOpen, Isolated, Rule, Effect;
    SwitchThreadsEffect(s.mem, s.root, s.frames, ts, s.proc, next, 0, addr);
    EffectMeans(s.mem, SwitchThreads(s.mem, s.root, ts, s.proc, next, 0), s.root, s.frames, addr,
                RuleAt(ts, s.proc, next, 0, addr));
  }

  lemma EffectMeans(m: Memory, m': Memory, root: Frame, path: Labels, addr: nat, a: Access)
    requires Effect(m, m', root, path, addr, true, a)
    ensures Tree(m', root, path) && SameFrame(m, m', root, addr) && Settled(m', root, addr, a)
  {
  }

  lemma OneOwner(ts: Threads, addr: nat)
    requires AreasInv(ts)
    ensures OneThreadAt(ts, addr)
    ensures forall h | 0 <= h < |ts| && ts[h].used :: OneAreaAt(ts[h].areas, addr)
    ensures AllAligned(ts)
  {
    forall i, k | 0 <= i < k < |ts| ensures !(Holds(ts[i], addr) && Holds(ts[k], addr)) {
      var p, q := HitFrom(ts[i].areas, addr, 0), HitFrom(ts[k].areas, addr, 0);
      assert InArea(ts, i, p, addr) && InArea(ts, k, q, addr) ==> i == k;
    }
    forall h, j, k | 0 <= h < |ts| && ts[h].used && 0 <= j < k < |ts[h].areas|
      ensures !(Contains(ts[h].areas[j], addr) && Contains(ts[h].areas[k], addr))
    {
      assert InArea(ts, h, j, addr) && InArea(ts, h, k, addr) ==> j == k;
    }
  }

  /** Rights carry over where areas keep their owner and pages their leaf entry,
      or the page is not mapped. */
  lemma IsolationCarries(s: State, s': State)
    requires Isolated(s) && s'.root == s.root && s'.proc == s.proc && s'.running == s.running
    requires forall i: nat, j: nat, a: nat {:trigger InArea(s'.threads, i, j, a)} | InArea(s'.threads, i, j, a) ::
               || (&& InArea(s.threads, i, j, a) && s'.threads[i].pid == s.threads[i].pid
                   && s'.threads[i].areas[j] == s.threads[i].areas[j]
                   && Lookup(s'.mem, s.root, Path(a)) == Lookup(s.mem, s.root, Path(a)))
               || Lookup(s'.mem, s.root, Path(a)) == Unmapped
    ensures Isolated(s')
  {
    hide Lookup, Path, Rule, EntryAccess;
  }

  lemma CloneKeepsInv(s: State, pid: int)
    requires Inv(s) && Enabled(s, CloneStep(pid))
    ensures Inv(Apply(s, CloneStep(pid)))
  {
    var s' := Apply(s, CloneStep(pid));
    CloneKeepsPids(s.threads, s.proc, pid);
    hide Tree, Lookup, Path, Aligned, PidsInv, Isolated;
    AreasInvFrom(s.threads, s'.threads);
    IsolationCarries(s, s');
  }

  lemma MmapKeepsInv(s: State, addr: nat, length: nat, flags: bv32)
    requires Inv(s) && Enabled(s, MmapStep(addr, length, flags))
    ensures Inv(Apply(s, MmapStep(addr, length, flags)))
  {
    var s' := Apply(s, MmapStep(addr, length, flags));
    hide Tree, Lookup, Path, Isolated;
    var i, j := MmapTarget(s, addr, length, flags);
    if s'.threads != s.threads {
      var area := Area(true, addr, length, flags);
      assert Aligned(area) by { assert Aligned(Area(true, addr, length, 0)); }
      hide Aligned, Mmap;
      NewAreaInv(s.threads, i, j, area);
      forall h: nat, k: nat, a: nat | InArea(s'.threads, h, k, a)
        ensures Lookup(s'.mem, s.root, Path(a)) == Unmapped
                || (&& InArea(s.threads, h, k, a) && s'.threads[h].pid == s.threads[h].pid
                    && s'.threads[h].areas[k] == s.threads[h].areas[k])
      {
      }
    }
    hide Aligned;
    IsolationCarries(s, s');
  }

  /** Giving areas and slots up. */
  lemma ReleaseKeepsInv(s: State, ts: Threads, after: Tables)
    requires Inv(s) && LeavesPrivateAlone(s, ts, after) && |ts| == |s.threads|
    requires forall i | 0 <= i < |ts| :: |ts[i].areas| == |s.threads[i].areas| && ts[i].pid == s.threads[i].pid
    requires forall i | 0 <= i < |ts| :: ts[i].used ==> s.threads[i].used
    requires forall i, j {:trigger ts[i].areas[j]} | 0 <= i < |ts| && 0 <= j < |ts[i].areas| && ts[i].areas[j].live ::
               ts[i].used && ts[i].areas[j] == s.threads[i].areas[j]
    ensures Inv(s.(threads := ts, mem := after.mem, frames := after.frames))
  {
    hide Tree, Lookup, Path, Aligned, Isolated;
    AreasInvFrom(s.threads, ts);
    IsolationCarries(s, s.(threads := ts, mem := after.mem, frames := after.frames));
  }

  lemma UnmapKeepsInv(s: State, addr: nat, length: nat, after: Tables)
    requires Inv(s) && Enabled(s, UnmapStep(addr, length, after))
    ensures Inv(Apply(s, UnmapStep(addr, length, after)))
  {
    hide Tree, Lookup, Path, Isolated, LeavesPrivateAlone, UnmapTarget;
    ReleaseKeepsInv(s, Unmap(s.threads, s.proc, s.running, addr, length), after);
  }

  lemma ExitKeepsInv(s: State, after: Tables)
    requires Inv(s) && Enabled(s, ExitStep(after))
    ensures Inv(Apply(s, ExitStep(after)))
  {
    hide Tree, Lookup, Path, Isolated, LeavesPrivateAlone;
    ReleaseKeepsInv(s, Exit(s.threads, s.running), after);
  }

  lemma OtherKeepsInv(s: State, after: Tables)
    requires Inv(s) && Enabled(s, OtherStep(after))
    ensures Inv(Apply(s, OtherStep(after)))
  {
    hide Tree, Lookup, Path, Isolated, LeavesPrivateAlone;
    ReleaseKeepsInv(s, s.threads, after);
  }

  lemma SwitchKeepsInv(s: State, next: int)
    requires Inv(s) && Enabled(s, SwitchStep(next))
    ensures Inv(Apply(s, SwitchStep(next)))
  {
    var s' := Apply(s, SwitchStep(next));
    assert Tree(s'.mem, s'.root, s'.frames) by { SwitchKeepsTree(s, next); }
    hide Tree, Lookup, Path, UpperOpen, Rule, PidsInv, AreasInv, EntryAccess;
    forall i: nat, j: nat, a: nat | InArea(s'.threads, i, j, a) ensures Granting(s'.mem, s'.root, a, RuleOf(s', i, j)) {
      SwitchSettles(s, next, i, j, a);
    }
  }

  lemma SwitchKeepsTree(s: State, next: int)
    requires Inv(s)
    ensures Tree(SwitchThreads(s.mem, s.root, s.threads, s.proc, next, 0), s.root, s.frames)
  {
    OneOwner(s.threads, 0);
    hide Tree, Lookup, Path, Isolated, Settled, SameFrame, UpperOpen;
    SwitchThreadsEffect(s.mem, s.root, s.frames, s.threads, s.proc, next, 0, 0);
  }

  // ---------------------------------------------------------------- the fault

  /** Who is granted a page: as the code tests it, never a read-only sibling. */
  lemma JudgeExactly(ts: Threads, proc: int, running: int, i: nat, j: nat, addr: nat, error: bv32)
    requires AreasInv(ts) && InArea(ts, i, j, addr)
    ensures Judge(ts, proc, running, addr, error) ==
              if error != PF_PROTECTED_WRITE && Rule(proc, running, ts[i].pid, ts[i].areas[j].flags) == ReadWrite
              then Grant(false) else Refuse
  {
    hide Aligned;
    var h := LastHit(ts, addr, |ts|);
    assert h.Hit?;
    assert h.thread == i && h.area == j;
    MaskIsZero(error);
    hide RdWr, RdOnly;
  }

  lemma MaskIsZero(error: bv32)
    ensures error & Truth(PF_ERROR_WR == 0) == 0
  {
    assert Truth(PF_ERROR_WR == 0) == 0;
    AndZero(error);
  }

  lemma AndZero(x: bv32)
    ensures x & 0 == 0
  {
  }

  lemma SamePageSameArea(ts: Threads, i: nat, j: nat, addr: nat, a: nat)
    requires AreasInv(ts) && InArea(ts, i, j, addr) && a < ADDRESSES && PageOf(a) == PageOf(addr)
    ensures InArea(ts, i, j, a)
  {
    var area := ts[i].areas[j];
    assert area.live && Aligned(area);
    PageInside(area, addr, a);
  }

  lemma PageInside(area: Area, addr: nat, a: nat)
    requires Aligned(area) && Contains(area, addr) && a < ADDRESSES && PageOf(a) == PageOf(addr)
    ensures Contains(area, a)
  {
    assert addr < ADDRESSES;
    assert a / PAGE_SIZE == addr / PAGE_SIZE;
  }

  lemma FaultKeepsInv(s: State, addr: nat, error: bv32, pool: seq<Frame>)
    requires Inv(s) && Enabled(s, FaultStep(addr, error, pool))
    ensures Inv(Apply(s, FaultStep(addr, error, pool)))
  {
    var s' := Apply(s, FaultStep(addr, error, pool));
    if Judge(s.threads, s.proc, s.running, addr, error).Grant? {
      var hit := LastHit(s.threads, addr, |s.threads|);
      var i, j := hit.thread, hit.area;
      JudgeExactly(s.threads, s.proc, s.running, i, j, addr, error);
      PtWalkTouchesOnePage(s.mem, s.root, s.frames, addr, addr, false, false, false, pool);
      forall h: nat, k: nat, a: nat | InArea(s'.threads, h, k, a)
        ensures Granting(s'.mem, s'.root, a, RuleOf(s', h, k))
      {
        FaultPageGranted(s, addr, error, pool, i, j, h, k, a);
      }
    }
  }

  lemma FaultPageGranted(s: State, addr: nat, error: bv32, pool: seq<Frame>, i: nat, j: nat, h: nat, k: nat, a: nat)
    requires Inv(s) && Supply(s.frames, pool, 4, false)
    requires InArea(s.threads, i, j, addr) && RuleOf(s, i, j) == ReadWrite && InArea(s.threads, h, k, a)
    ensures Granting(PtWalk(s.mem, s.root, addr, false, false, false, pool), s.root, a, RuleOf(s, h, k))
  {
    PtWalkTouchesOnePage(s.mem, s.root, s.frames, addr, a, false, false, false, pool);
    hide Tree, Lookup, Path, UpperOpen, PtWalk, EntryAccess, Relabel, LeafAfter, Supply, PageOf;
    assert Granting(s.mem, s.root, a, RuleOf(s, h, k));
    if PageOf(a) == PageOf(addr) {
      assert a < ADDRESSES by { assert s.threads[h].areas[k].live; }
      SamePageSameArea(s.threads, i, j, addr, a);
      assert h == i && k == j;
      hide PidsInv, AreasInv, Isolated, Rule;
    }
  }

  // ---------------------------------------------------------------- whole runs

  /** Every step keeps the invariant. */
  lemma StepKeepsInv(s: State, step: Step)
    requires Inv(s) && Enabled(s, step)
    ensures Inv(Apply(s, step))
  {
    hide Inv, Enabled, Apply;
    match step
    case CloneStep(pid) => CloneKeepsInv(s, pid);
    case MmapStep(addr, length, flags) => MmapKeepsInv(s, addr, length, flags);
    case UnmapStep(addr, length, after) => UnmapKeepsInv(s, addr, length, after);
    case FaultStep(addr, error, pool) => FaultKeepsInv(s, addr, error, pool);
    case SwitchStep(next) => SwitchKeepsInv(s, next);
    case ExitStep(after) => ExitKeepsInv(s, after);
    case OtherStep(after) => OtherKeepsInv(s, after);
  }

  /** The process before its first clone: no slot is used and no area live. */
  ghost predicate Initial(s: State) {
    && Tree(s.mem, s.root, s.frames)
    && s.running == s.proc
    && forall i | 0 <= i < |s.threads| :: !s.threads[i].used
         && forall j | 0 <= j < |s.threads[i].areas| :: !s.threads[i].areas[j].live
  }

  ghost predicate Run(s: State, steps: seq<Step>, s': State)
    decreases |steps|
  {
    if steps == [] then s' == s
    else s.root in s.frames && Enabled(s, steps[0]) && Run(Apply(s, steps[0]), steps[1..], s')
  }

  lemma {:induction false} RunKeepsInv(s: State, steps: seq<Step>, s': State)
    requires Inv(s) && Run(s, steps, s')
    ensures Inv(s')
    decreases |steps|
  {
    hide Inv, Enabled, Apply;
    if steps != [] {
      StepKeepsInv(s, steps[0]);
      RunKeepsInv(Apply(s, steps[0]), steps[1..], s');
    }
  }

  lemma InitialInv(s: State)
    requires Initial(s)
    ensures Inv(s)
  {
    hide Tree, Lookup, Path, Aligned;
  }

  /** In every state of every run, whatever the interleaving of clones, private maps
      and unmaps, faults, switches and exits, each present leaf entry of each live
      private area grants exactly the area's rule for the running context. */
  lemma LeafIsRule(s: State, steps: seq<Step>, s': State, i: nat, j: nat, addr: nat)
    requires Initial(s) && Run(s, steps, s') && InArea(s'.threads, i, j, addr)
    ensures match Lookup(s'.mem, s'.root, Path(addr))
            case Unmapped => true
            case Mapped(e) => EntryAccess(e) == RuleOf(s', i, j)
  {
    InitialInv(s);
    RunKeepsInv(s, steps, s');
    hide Tree, Path, PidsInv, AreasInv, Rule, Run, Initial, EntryAccess, Lookup;
    assert Granting(s'.mem, s'.root, addr, RuleOf(s', i, j));
  }

  /** And so the hardware, whatever other code has done to the upper levels, grants
      the running context no more there than the rule. */
  lemma Isolation(s: State, steps: seq<Step>, s': State, i: nat, j: nat, addr: nat)
    requires Initial(s) && Run(s, steps, s') && InArea(s'.threads, i, j, addr)
    ensures AtMost(Effective(s'.mem, s'.root, Path(addr), true, true), RuleOf(s', i, j))
  {
    hide Tree, Path, Rule, Run, Initial, EntryAccess, Effective, Lookup;
    LeafIsRule(s, steps, s', i, j, addr);
    EffectiveAtMostLeaf(s'.mem, s'.root, Path(addr), true, true);
  }

  /** Right after a switch the hardware grants the incoming context exactly the
      rule on every mapped page of every live private area, and the switch has
      neither mapped a page nor moved one to another frame. */
  lemma SwitchIsExact(s: State, steps: seq<Step>, s': State, next: int, i: nat, j: nat, addr: nat)
    requires Initial(s) && Run(s, steps, s') && Enabled(s', SwitchStep(next)) && s'.root in s'.frames
    requires InArea(s'.threads, i, j, addr)
    ensures var s2 := Apply(s', SwitchStep(next));
            && SameFrame(s'.mem, s2.mem, s'.root, addr)
            && Effective(s2.mem, s2.root, Path(addr), true, true) ==
                 if Lookup(s'.mem, s'.root, Path(addr)).Unmapped? then NoAccess else RuleOf(s2, i, j)
  {
    InitialInv(s);
    RunKeepsInv(s, steps, s');
    hide Tree, Path, PidsInv, AreasInv, Rule, Run, Initial, EntryAccess, Effective, Lookup, UpperOpen, Isolated;
    SwitchSettles(s', next, i, j, addr);
    var s2 := Apply(s', SwitchStep(next));
    OpenEffective(s2.mem, s2.root, Path(addr));
  }

  // ---------------------------------------------------------------- what the fault handler promises

  /** The rule lets the context make the access that faulted. */
  predicate Legal(rule: Access, error: bv32) {
    if error & PF_ERROR_WR != 0 then rule == ReadWrite else rule != NoAccess
  }

  /** An access the handler fixes is legal, and afterwards the hardware allows it. */
  lemma FixedIsLegal(s: State, addr: nat, error: bv32, pool: seq<Frame>)
    requires Inv(s) && Enabled(s, FaultStep(addr, error, pool))
    requires Fault(s.mem, s.root, s.threads, s.proc, s.running, addr, error, pool).1 == 1
    ensures exists i, j :: InArea(s.threads, i, j, addr) && Legal(RuleOf(s, i, j), error)
    ensures var s' := Apply(s, FaultStep(addr, error, pool));
            Effective(s'.mem, s'.root, Path(addr), true, true) == ReadWrite
  {
    var hit := LastHit(s.threads, addr, |s.threads|);
    var i, j := hit.thread, hit.area;
    JudgeExactly(s.threads, s.proc, s.running, i, j, addr, error);
    assert InArea(s.threads, i, j, addr) && Legal(RuleOf(s, i, j), error);
    PtWalkTouchesOnePage(s.mem, s.root, s.frames, addr, addr, false, false, false, pool);
    var s' := Apply(s, FaultStep(addr, error, pool));
    OpenEffective(s'.mem, s'.root, Path(addr));
  }

  /** The handler's documentation promises to fix every legal access.  It does so
      exactly when the access is not one of a sibling to a read-only area, and not
      a write that found the page present. */
  lemma LegalIsFixedExactly(s: State, addr: nat, error: bv32, pool: seq<Frame>, i: nat, j: nat)
    requires Inv(s) && Enabled(s, FaultStep(addr, error, pool)) && InArea(s.threads, i, j, addr)
    requires Legal(RuleOf(s, i, j), error)
    ensures Fault(s.mem, s.root, s.threads, s.proc, s.running, addr, error, pool).1 == 1 <==>
              && (s.running == s.proc || s.running == s.threads[i].pid || RdWr(s.threads[i].areas[j].flags))
              && error != PF_PROTECTED_WRITE
  {
    JudgeExactly(s.threads, s.proc, s.running, i, j, addr, error);
    hide Tree, RdWr, RdOnly;
  }

  /** In every state of every run the pid search finds each live thread's own slot. */
  lemma FindsLiveInEveryRun(s: State, steps: seq<Step>, s': State, i: nat)
    requires Initial(s) && Run(s, steps, s') && i < |s'.threads| && s'.threads[i].used
    ensures FindFrom(s'.threads, s'.threads[i].pid, 0) == i
  {
    InitialInv(s);
    RunKeepsInv(s, steps, s');
    FindsLive(s'.threads, s'.proc, i);
  }
}
