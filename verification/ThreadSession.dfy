/** One run of a process with two threads, so that the results about all runs are
    about something: the second thread maps a private area that its sibling may
    read, and the sibling's first read of it is refused. */
module ThreadSession {
  import opened PageEntry
  import opened PageTable
  import opened PageWalk
  import opened ThreadSpec
  import opened ThreadSwitch
  import opened ThreadIsolation

  const PAGE: nat := 0x180000000
  const ROOT := Frame(1)
  const NO_AREAS := [Area(false, 0, 0, 0), Area(false, 0, 0, 0), Area(false, 0, 0, 0), Area(false, 0, 0, 0)]
  const BLANK := Thread(0, false, NO_AREAS)

  /** A process with pid 1 and an empty address space. */
  function Start(): State {
    State(map[], ROOT, map[ROOT := []], [BLANK, BLANK, BLANK, BLANK], 1, 1)
  }

  lemma StartIsInitial()
    ensures Initial(Start())
  {
    ZeroIsAbsent();
  }

  lemma Prepend(s: State, step: Step, t: State, steps: seq<Step>, z: State)
    requires s.root in s.frames && Enabled(s, step) && t == Apply(s, step) && Run(t, steps, z)
    ensures Run(s, [step] + steps, z)
  {
    hide Enabled, Apply;
    assert ([step] + steps)[1..] == steps;
  }

  /** The root's table is empty, so no address is mapped. */
  lemma NothingMapped(addr: nat)
    ensures Lookup(map[], ROOT, Path(addr)) == Unmapped
  {
    ZeroIsAbsent();
  }

  function Used(pid: int, areas: seq<Area>): Thread { Thread(pid, true, areas) }

  const ONE_AREA := NO_AREAS[0 := Area(true, PAGE, 4096, TP_SIBLINGS_RDONLY)]

  lemma Cloned() returns (s1: State, s2: State)
    ensures Enabled(Start(), CloneStep(2)) && s1 == Apply(Start(), CloneStep(2)) && s1.root in s1.frames
    ensures Enabled(s1, CloneStep(3)) && s2 == Apply(s1, CloneStep(3))
    ensures s2 == Start().(threads := Threads0())
  {
    s1 := Apply(Start(), CloneStep(2));
    assert s1.threads == [Used(2, NO_AREAS), BLANK, BLANK, BLANK];
    s2 := Apply(s1, CloneStep(3));
    assert UnusedFrom(s1.threads, 0) == 1;
    assert s2.threads == Threads0();
  }

  // ---------------------------------------------------------------- switching with nothing to do

  lemma {:induction false} SwitchNoAreas(m: Memory, root: Frame, t: Thread, proc: int, next: int, j: nat)
    requires j <= |t.areas| && forall k | 0 <= k < |t.areas| :: !t.areas[k].live
    ensures SwitchAreas(m, root, t, proc, next, j) == m
    decreases |t.areas| - j
  {
    if j < |t.areas| { SwitchNoAreas(m, root, t, proc, next, j + 1); }
  }

  lemma {:induction false} SwitchNothing(m: Memory, root: Frame, ts: Threads, proc: int, next: int, i: nat)
    requires i <= |ts|
    requires forall h, k {:trigger ts[h].areas[k]} | 0 <= h < |ts| && 0 <= k < |ts[h].areas| :: !ts[h].areas[k].live
    ensures SwitchThreads(m, root, ts, proc, next, i) == m
    decreases |ts| - i
  {
    if i < |ts| {
      SwitchNoAreas(m, root, ts[i], proc, next, 0);
      SwitchNothing(m, root, ts, proc, next, i + 1);
    }
  }

  // ---------------------------------------------------------------- the first thread maps an area

  function Threads0(): Threads { [Used(2, NO_AREAS), Used(3, NO_AREAS), BLANK, BLANK] }

  function Threads1(): Threads { [Used(2, ONE_AREA), Used(3, NO_AREAS), BLANK, BLANK] }

  function Mapping(): State { Start().(threads := Threads1(), running := 2) }

  lemma Switched(s: State)
    requires s == Start().(threads := Threads0())
    ensures Enabled(s, SwitchStep(2)) && Apply(s, SwitchStep(2)) == s.(running := 2)
  {
    assert s.threads[0].pid == 2;
    SwitchNothing(map[], ROOT, s.threads, 1, 2, 0);
  }

  lemma MapsArea(s: State)
    requires s == Start().(threads := Threads0(), running := 2)
    ensures Enabled(s, MmapStep(PAGE, 4096, TP_SIBLINGS_RDONLY))
    ensures Apply(s, MmapStep(PAGE, 4096, TP_SIBLINGS_RDONLY)) == Mapping()
  {
    assert s.threads[0].pid == 2;
    forall a: nat | PAGE <= a < PAGE + 4096 ensures Lookup(s.mem, s.root, Path(a)) == Unmapped {
      NothingMapped(a);
    }
    hide Lookup, Path;
    assert FreshRange(s, PAGE, 4096);
    assert FindFrom(s.threads, 2, 0) == 0 && FreeAreaFrom(s.threads[0].areas, 0) == 0;
    assert Apply(s, MmapStep(PAGE, 4096, TP_SIBLINGS_RDONLY)).threads == Threads1();
  }

  function ToMapping(): seq<Step> {
    [CloneStep(2)] + ([CloneStep(3)] + ([SwitchStep(2)] + ([MmapStep(PAGE, 4096, TP_SIBLINGS_RDONLY)] + [])))
  }

  lemma IsMapping()
    ensures Run(Start(), ToMapping(), Mapping()) && Inv(Mapping())
  {
    var s1, s2 := Cloned();
    var s3, s4 := s2.(running := 2), Mapping();
    Switched(s2);
    MapsArea(s3);
    StartIsInitial();
    InitialInv(Start());
    hide Initial, Enabled, Apply, Inv, Run;
    assert Run(s4, [], s4) by { NoSteps(s4); }
    Prepend(s3, MmapStep(PAGE, 4096, TP_SIBLINGS_RDONLY), s4, [], s4);
    Prepend(s2, SwitchStep(2), s3, [MmapStep(PAGE, 4096, TP_SIBLINGS_RDONLY)] + [], s4);
    Prepend(s1, CloneStep(3), s2, [SwitchStep(2)] + ([MmapStep(PAGE, 4096, TP_SIBLINGS_RDONLY)] + []), s4);
    Prepend(Start(), CloneStep(2), s1,
            [CloneStep(3)] + ([SwitchStep(2)] + ([MmapStep(PAGE, 4096, TP_SIBLINGS_RDONLY)] + [])), s4);
    RunKeepsInv(Start(), ToMapping(), s4);
  }

  lemma NoSteps(s: State)
    ensures Run(s, [], s)
  {
  }

  // ---------------------------------------------------------------- the sibling

  lemma OneLiveArea()
    ensures InArea(Threads1(), 0, 0, PAGE) && IsLive(Threads1(), 2) && IsLive(Threads1(), 3)
  {
    assert Threads1()[0].pid == 2 && Threads1()[1].pid == 3;
  }

  lemma Flags()
    ensures RdOnly(TP_SIBLINGS_RDONLY) && !RdWr(TP_SIBLINGS_RDONLY)
  {
  }

  /** The page is live and not mapped, the sibling runs, and its read of it is
      legal; the write-bit test of the handler's second branch is always 0, so the
      read is refused. */
  lemma ReadOnlySiblingIsRefused(pool: seq<Frame>) returns (steps: seq<Step>, s: State)
    requires 4 <= |pool|
    ensures Run(Start(), steps, s) && InArea(s.threads, 0, 0, PAGE) && Alive(s)
    ensures Lookup(s.mem, s.root, Path(PAGE)) == Unmapped
    ensures Legal(RuleOf(s, 0, 0), 0x4)
    ensures Fault(s.mem, s.root, s.threads, s.proc, s.running, PAGE, 0x4, pool) == (s.mem, -1)
  {
    hide Run, Inv, Lookup, Path, Judge;
    var m := Mapping();
    OneLiveArea();
    Flags();
    IsMapping();
    steps, s := SwitchOn(ToMapping(), m, 3);
    NothingMapped(PAGE);
    SwitchSettles(m, 3, 0, 0, PAGE);
    assert SameFrame(m.mem, s.mem, ROOT, PAGE);
    hide SwitchThreads, SwitchPages, SwitchAreas;
    AreasStay(s);
    JudgeExactly(s.threads, 1, 3, 0, 0, PAGE, 0x4);
  }

  lemma AreasStay(s: State)
    requires Inv(s)
    ensures AreasInv(s.threads)
  {
  }

  /** One more switch at the end of a run. */
  lemma SwitchOn(steps: seq<Step>, s: State, next: int) returns (steps': seq<Step>, t: State)
    requires Run(Start(), steps, s) && Inv(s) && Enabled(s, SwitchStep(next)) && s.root in s.frames
    ensures steps' == steps + [SwitchStep(next)] && t == Apply(s, SwitchStep(next))
    ensures Run(Start(), steps', t) && Inv(t)
  {
    hide Inv, Enabled, Apply;
    StepKeepsInv(s, SwitchStep(next));
    steps', t := steps + [SwitchStep(next)], Apply(s, SwitchStep(next));
    RunOneMore(Start(), steps, s, SwitchStep(next), t);
  }

  lemma {:induction false} RunOneMore(s: State, steps: seq<Step>, t: State, step: Step, z: State)
    requires Run(s, steps, t) && t.root in t.frames && Enabled(t, step) && z == Apply(t, step)
    ensures Run(s, steps + [step], z)
    decreases |steps|
  {
    hide Enabled, Apply;
    if steps == [] {
      assert ([] + [step])[1..] == [];
    } else {
      RunOneMore(Apply(s, steps[0]), steps[1..], t, step, z);
      assert (steps + [step])[1..] == steps[1..] + [step];
    }
  }

  // ---------------------------------------------------------------- the page mapped by its owner

  const POOL := [Frame(2), Frame(3), Frame(4), Frame(5)]

  /** When the owner has touched the page first, the sibling finds it mapped and may
      read it, and only read it. */
  lemma SiblingMayRead() returns (steps: seq<Step>, s: State)
    ensures Run(Start(), steps, s) && InArea(s.threads, 0, 0, PAGE) && s.running == 3
    ensures Lookup(s.mem, s.root, Path(PAGE)).Mapped?
    ensures Effective(s.mem, s.root, Path(PAGE), true, true) == ReadOnly
  {
    var m := Mapping();
    OneLiveArea();
    Flags();
    IsMapping();
    hide Run, Inv, Path, Lookup, Effective, PtWalk;
    var t := OwnerTouches();
    StepKeepsInv(m, FaultStep(PAGE, 0x6, POOL));
    RunOneMore(Start(), ToMapping(), m, FaultStep(PAGE, 0x6, POOL), t);
    steps, s := SwitchOn(ToMapping() + [FaultStep(PAGE, 0x6, POOL)], t, 3);
    StartIsInitial();
    SwitchIsExact(Start(), ToMapping() + [FaultStep(PAGE, 0x6, POOL)], t, 3, 0, 0, PAGE);
  }

  lemma OwnerTouches() returns (t: State)
    ensures Enabled(Mapping(), FaultStep(PAGE, 0x6, POOL)) && Mapping().root in Mapping().frames
    ensures t == Apply(Mapping(), FaultStep(PAGE, 0x6, POOL)) && t.root in t.frames
    ensures t.threads == Threads1() && t.proc == 1 && t.root == ROOT
    ensures Lookup(t.mem, ROOT, Path(PAGE)).Mapped?
  {
    var m := Mapping();
    OneLiveArea();
    IsMapping();
    PoolSupplies(m);
    MappingInOrder(m);
    hide Run, Path, Lookup, PtWalk, Tree, Supply, Judge, AreasInv, Inv, Relabel;
    JudgeExactly(m.threads, 1, 2, 0, 0, PAGE, 0x6);
    t := Apply(m, FaultStep(PAGE, 0x6, POOL));
    PtWalkTouchesOnePage(m.mem, ROOT, m.frames, PAGE, PAGE, false, false, false, POOL);
  }

  lemma PoolSupplies(m: State)
    requires m == Mapping()
    ensures Supply(m.frames, POOL, 4, false)
  {
  }

  lemma MappingInOrder(m: State)
    requires m == Mapping() && Inv(m)
    ensures Tree(m.mem, m.root, m.frames) && AreasInv(m.threads) && m.root in m.frames
  {
  }
}
