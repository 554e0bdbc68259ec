/** Who may do what to a private area: what clone, private map and unmap, fault and
    exit change, and that nothing else takes an area from its owner. */
module ThreadEffects {
  import opened PageEntry
  import opened PageTable
  import opened PageWalk
  import opened ThreadSpec
  import opened ThreadSwitch
  import opened ThreadIsolation

  // ---------------------------------------------------------------- areas given up

  /** An unmap of (`addr`, `length`) names this area: it starts there, and has that
      length unless the length is 0. */
  predicate Named(ts: Threads, i: nat, j: nat, addr: nat, length: nat) {
    && i < |ts| && ts[i].used && j < |ts[i].areas| && ts[i].areas[j].live
    && ts[i].areas[j].start == addr && (length == 0 || ts[i].areas[j].length == length)
  }

  /** The running context is the process or the area's owner. */
  predicate MayGiveUp(s: State, i: nat) {
    i < |s.threads| && (s.running == s.proc || s.running == s.threads[i].pid)
  }

  ghost predicate CanGiveUp(s: State, addr: nat, length: nat) {
    exists i: nat, j: nat {:trigger Named(s.threads, i, j, addr, length)} ::
      Named(s.threads, i, j, addr, length) && MayGiveUp(s, i)
  }

  /** `ts` without the area (i, j). */
  function Without(ts: Threads, i: nat, j: nat): Threads
    requires i < |ts| && j < |ts[i].areas|
  {
    ts[i := ts[i].(areas := ts[i].areas[j := ts[i].areas[j].(live := false)])]
  }

  lemma MatchIsNamed(ts: Threads, i: nat, addr: nat, length: nat)
    requires i < |ts| && ts[i].used
    ensures var j := FindMapFrom(ts[i].areas, addr, length, 0);
            && (j < |ts[i].areas| ==> Named(ts, i, j, addr, length))
            && (j == |ts[i].areas| ==> forall k: nat :: !Named(ts, i, k, addr, length))
  {
    var j := FindMapFrom(ts[i].areas, addr, length, 0);
    if j == |ts[i].areas| {
      forall k: nat ensures !Named(ts, i, k, addr, length) {
        assert k < |ts[i].areas| ==> !MatchesMap(ts[i].areas[k], addr, length);
      }
    }
  }

  lemma {:induction false} NoOwner(ts: Threads, addr: nat, length: nat, i: nat, h: nat, k: nat)
    requires i <= h && i <= |ts| && FindOwnerFrom(ts, addr, length, i) == |ts|
    ensures !Named(ts, h, k, addr, length)
    decreases h - i
  {
    if i < |ts| {
      if i == h {
        if ts[i].used { MatchIsNamed(ts, i, addr, length); }
      } else {
        NoOwner(ts, addr, length, i + 1, h, k);
      }
    }
  }

  /** An unmap gives up one area it names, and only one the caller may give up; where
      there is none it changes nothing: the process goes on, a thread is killed. */
  lemma UnmapExactly(s: State, addr: nat, length: nat) returns (i: nat, j: nat)
    requires PidsInv(s.threads, s.proc) && Alive(s)
    ensures var ts, target := Unmap(s.threads, s.proc, s.running, addr, length),
                              UnmapTarget(s.threads, s.proc, s.running, addr, length);
            if CanGiveUp(s, addr, length) then
              && Named(s.threads, i, j, addr, length) && MayGiveUp(s, i)
              && target == Dropped(i, j) && ts == Without(s.threads, i, j)
            else
              ts == s.threads && target == if s.running == s.proc then NotPrivate else Segfault
  {
    var ts := s.threads;
    i, j := 0, 0;
    if s.running == s.proc {
      var h := FindOwnerFrom(ts, addr, length, 0);
      if h < |ts| {
        MatchIsNamed(ts, h, addr, length);
        i, j := h, FindMapFrom(ts[h].areas, addr, length, 0);
      } else {
        forall h: nat, k: nat ensures !Named(ts, h, k, addr, length) { NoOwner(ts, addr, length, 0, h, k); }
      }
    } else {
      var h :| 0 <= h < |ts| && ts[h].used && ts[h].pid == s.running;
      FindsLive(ts, s.proc, h);
      MatchIsNamed(ts, h, addr, length);
      i, j := h, FindMapFrom(ts[h].areas, addr, length, 0);
      forall g: nat, k: nat | Named(ts, g, k, addr, length) && MayGiveUp(s, g) ensures g == h {
        FindsLive(ts, s.proc, g);
      }
    }
  }

  /** Areas that hold an address differ in where they start, so a name means one. */
  lemma NamesOne(s: State, addr: nat, length: nat, i: nat, j: nat, h: nat, k: nat)
    requires Inv(s) && Named(s.threads, i, j, addr, length) && Named(s.threads, h, k, addr, length)
    requires s.threads[i].areas[j].length > 0 && s.threads[h].areas[k].length > 0
    ensures i == h && j == k
  {
    assert InArea(s.threads, i, j, addr) && InArea(s.threads, h, k, addr);
  }

  /** So a nonempty area that its owner or the process names with its length is the
      one given up. */
  lemma UnmapGivesUp(s: State, i: nat, j: nat, addr: nat, length: nat)
    requires Inv(s) && Alive(s) && length > 0
    requires Named(s.threads, i, j, addr, length) && MayGiveUp(s, i)
    ensures Unmap(s.threads, s.proc, s.running, addr, length) == Without(s.threads, i, j)
  {
    var h, k := UnmapExactly(s, addr, length);
    hide Unmap, UnmapTarget;
    NamesOne(s, addr, length, i, j, h, k);
  }

  // ---------------------------------------------------------------- the other operations

  /** A clone succeeds exactly when a slot is unused; the lowest becomes a thread with
      the new pid and no area, and no other slot changes. */
  lemma CloneExactly(s: State, pid: int) returns (i: nat)
    requires AreasInv(s.threads)
    ensures var (ts, r) := Clone(s.threads, pid);
            if exists k :: 0 <= k < |s.threads| && !s.threads[k].used then
              && r == pid && i < |s.threads| == |ts|
              && !s.threads[i].used && (forall k | 0 <= k < i :: s.threads[k].used)
              && ts[i].used && ts[i].pid == pid && ts[i].areas == s.threads[i].areas
              && (forall j | 0 <= j < |ts[i].areas| :: !ts[i].areas[j].live)
              && (forall k | 0 <= k < |ts| && k != i :: ts[k] == s.threads[k])
            else r == -1 && ts == s.threads
  {
    i := UnusedFrom(s.threads, 0);
    hide Aligned;
  }

  /** A private map of a thread is recorded, as asked, in a free area of its own slot
      exactly when it has one; it takes no area from anybody.  The process gets -1. */
  lemma MmapExactly(s: State, addr: nat, length: nat, flags: bv32) returns (i: nat, j: nat)
    requires PidsInv(s.threads, s.proc) && Alive(s)
    ensures var (ts, r) := Mmap(s.threads, s.proc, s.running, addr, length, flags);
            if s.running == s.proc then r == -1 && ts == s.threads
            else
              && i < |s.threads| == |ts| && s.threads[i].used && s.threads[i].pid == s.running
              && if exists k :: 0 <= k < |s.threads[i].areas| && !s.threads[i].areas[k].live then
                   && r == 0 && j < |s.threads[i].areas| == |ts[i].areas| && !s.threads[i].areas[j].live
                   && ts[i].areas[j] == Area(true, addr, length, flags)
                   && (forall k | 0 <= k < |ts[i].areas| && k != j :: ts[i].areas[k] == s.threads[i].areas[k])
                   && ts[i].used && ts[i].pid == s.running
                   && (forall h | 0 <= h < |ts| && h != i :: ts[h] == s.threads[h])
                 else r == -1 && ts == s.threads
  {
    i, j := 0, 0;
    if s.running != s.proc {
      i :| 0 <= i < |s.threads| && s.threads[i].used && s.threads[i].pid == s.running;
      FindsLive(s.threads, s.proc, i);
      j := FreeAreaFrom(s.threads[i].areas, 0);
    }
  }

  /** An exiting thread is no longer live and owns nothing; its pid stays behind in the
      slot, and no other thread loses anything. */
  lemma ExitExactly(s: State) returns (i: nat)
    requires PidsInv(s.threads, s.proc) && IsLive(s.threads, s.running)
    ensures var ts := Exit(s.threads, s.running);
            && i < |s.threads| == |ts| && s.threads[i].used && s.threads[i].pid == s.running
            && !IsLive(ts, s.running) && !ts[i].used && ts[i].pid == s.running
            && |ts[i].areas| == |s.threads[i].areas| && (forall j | 0 <= j < |ts[i].areas| :: !ts[i].areas[j].live)
            && (forall h | 0 <= h < |ts| && h != i :: ts[h] == s.threads[h])
  {
    i :| 0 <= i < |s.threads| && s.threads[i].used && s.threads[i].pid == s.running;
    FindsLive(s.threads, s.proc, i);
    forall h | 0 <= h < |s.threads| && s.threads[h].used && s.threads[h].pid == s.running ensures h == i {
      FindsLive(s.threads, s.proc, h);
    }
  }

  /** A fault is refused with -1 and nothing changed, or fixed with 1; then the page
      itself is mapped with full rights, in its old frame or one no table uses, and no
      other page's leaf entry changes. */
  lemma FaultExactly(s: State, addr: nat, error: bv32, pool: seq<Frame>, b: nat)
    requires Inv(s) && Enabled(s, FaultStep(addr, error, pool))
    ensures var (m, r) := Fault(s.mem, s.root, s.threads, s.proc, s.running, addr, error, pool);
            && (r == 1 || r == -1) && (r == -1 ==> m == s.mem)
            && (r == 1 && PageOf(b) != PageOf(addr) ==>
                  Lookup(m, s.root, Path(b)) == Lookup(s.mem, s.root, Path(b)))
            && (r == 1 ==> Effective(m, s.root, Path(addr), true, true) == ReadWrite
                           && Lookup(m, s.root, Path(addr)).Mapped?
                           && (if Lookup(s.mem, s.root, Path(addr)).Mapped? then SameFrame(s.mem, m, s.root, addr)
                               else FrameOf(Lookup(m, s.root, Path(addr)).entry) !in s.frames))
  {
    var (m, r) := Fault(s.mem, s.root, s.threads, s.proc, s.running, addr, error, pool);
    if r == 1 {
      var hit := LastHit(s.threads, addr, |s.threads|);
      JudgeExactly(s.threads, s.proc, s.running, hit.thread, hit.area, addr, error);
      PtWalkTouchesOnePage(s.mem, s.root, s.frames, addr, addr, false, false, false, pool);
      PtWalkTouchesOnePage(s.mem, s.root, s.frames, addr, b, false, false, false, pool);
      OpenEffective(m, s.root, Path(addr));
    }
  }

  // ---------------------------------------------------------------- whole runs

  /** The step is one that may take the area (i, j) away: an unmap that names it, by its
      owner or the process, or its owner's exit. */
  ghost predicate TakesAway(s: State, step: Step, i: nat, j: nat) {
    match step
    case UnmapStep(addr, length, _) => Named(s.threads, i, j, addr, length) && MayGiveUp(s, i)
    case ExitStep(_) => i < |s.threads| && s.threads[i].pid == s.running
    case _ => false
  }

  predicate Owns(ts: Threads, i: nat, j: nat, area: Area, pid: int) {
    i < |ts| && ts[i].used && ts[i].pid == pid && j < |ts[i].areas| && area.live && ts[i].areas[j] == area
  }

  lemma KeptUnlessTaken(s: State, step: Step, i: nat, j: nat, area: Area, pid: int)
    requires Inv(s) && Enabled(s, step) && Owns(s.threads, i, j, area, pid) && !TakesAway(s, step, i, j)
    ensures Owns(Apply(s, step).threads, i, j, area, pid)
  {
    hide Tree, Lookup, Path, AreasInv, Isolated, LeavesPrivateAlone, FreshRange;
    match step
    case CloneStep(_) =>
    case MmapStep(addr, length, flags) =>
      var h, k := MmapExactly(s, addr, length, flags);
      hide Mmap;
    case UnmapStep(addr, length, after) =>
      var h, k := UnmapExactly(s, addr, length);
      hide Unmap, UnmapTarget;
    case ExitStep(after) =>
      var h := ExitExactly(s);
      hide Exit;
    case _ =>
  }

  /** No step of the run may take the area away. */
  ghost predicate NoneTakes(s: State, steps: seq<Step>, i: nat, j: nat)
    decreases |steps|
  {
    steps == [] || (!TakesAway(s, steps[0], i, j)
                    && (s.root in s.frames && Enabled(s, steps[0]) ==>
                          NoneTakes(Apply(s, steps[0]), steps[1..], i, j)))
  }

  /** A thread keeps a private area, as it was mapped, over any run in which neither it
      nor the process unmaps it and the thread does not exit. */
  lemma {:induction false} AreaStays(s: State, steps: seq<Step>, s': State, i: nat, j: nat, area: Area, pid: int)
    requires Inv(s) && Run(s, steps, s') && Owns(s.threads, i, j, area, pid) && NoneTakes(s, steps, i, j)
    ensures Owns(s'.threads, i, j, area, pid)
    decreases |steps|
  {
    hide Inv, Enabled, Apply, TakesAway, Owns;
    if steps != [] {
      StepKeepsInv(s, steps[0]);
      KeptUnlessTaken(s, steps[0], i, j, area, pid);
      AreaStays(Apply(s, steps[0]), steps[1..], s', i, j, area, pid);
    }
  }
}
