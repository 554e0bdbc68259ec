/** What the user of the debugger sees of a stop and of a request: which calls stop,
    what wait_and_continue and the register query report, and what setting and
    removing a breakpoint change, at once and for the rest of the run. */
module DebugEffects {
  import opened ProcessState
  import opened DebugSpec
  import opened DebugSystem
  import opened DebugInvariant
  import opened DebugTransparency
  import opened DebugResults

  // ---------------------------------------------------------------- stops

  /** The child stops exactly when it calls a function that has a breakpoint or
      has returned into end_handler. */
  lemma StopsExactly(s: Sys, p: Program)
    requires Inv(s, p)
    ensures Traps(s.w) <==> s.sh.phase == AtEnd
                            || (s.sh.phase == AtEntry && Listed(s.w.dbg.bps, Last(s.sh.frames).entry))
  {
    hide FramesOk, StackOk, ListOk, BooksOk;
    if s.sh.phase != AtEntry && s.sh.phase != AtEnd {
      NoTrapInside(s, p);
    }
  }

  /** What a stop leaves for the debugger to ask for: the result of its
      wait_and_continue, the registers and the backtrace. */
  datatype Report = Report(address: int, regs: Regs, trace: seq<int>)

  function Reported(w: World): Report {
    Report(w.parentRax, w.dbg.regs, w.dbg.trace)
  }

  /** What there is to tell about a stop, by the call stack: the function, entered or
      end_handler; the registers as at that function's first instruction, with the
      stack pointer at its return address and the frame pointer its caller's; and
      the true return addresses. */
  function TrueReport(s: Sys, p: Program): Report
    requires |s.sh.frames| > 1
  {
    var top, caller := Last(s.sh.frames), s.sh.frames[|s.sh.frames| - 2];
    var address := if s.sh.phase == AtEntry then top.entry else p.endHandler;
    Report(address, Regs(s.w.regs.general, address, top.slot, caller.slot - 8),
           (if s.sh.phase == AtEntry then [top.entry] else []) + RetsDown(s.sh.frames))
  }

  /** Every stop reports the truth, puts the child to sleep and wakes the debugger. */
  lemma StopReports(s: Sys, i: Insn, p: Program)
    requires Inv(s, p) && Enabled(s, Step(i), p) && Traps(s.w)
    ensures Steppable(s, Step(i)) && |s.sh.frames| > 1
    ensures var t := Next(s, Step(i)).w;
            Reported(t) == TrueReport(s, p) && t.childState == Waiting && t.parentState == Running
  {
    if s.sh.phase == AtEntry {
      EntryTraceIsTrue(s, p);
    } else if s.sh.phase == AtEnd {
      EndTraceIsTrue(s, p);
    } else {
      NoTrapInside(s, p);
    }
    hide EntryTrace, EndTrace, EntryStopReady, EndStopReady, StackOk, ListOk, CodeOk, BooksOk, FramesOk, RetsDown;
  }

  /** `t` is `w` after a push of rbp below the return slot `slot`, which may be new too. */
  ghost predicate Pushes(w: World, t: World, slot: int) {
    && t.regs == w.regs.(rsp := slot - 8)
    && Load(t.mem, slot - 8) == w.regs.rbp
    && (forall a | a != slot && a != slot - 8 :: Load(t.mem, a) == Load(w.mem, a))
    && t.code == w.code && t.dbg.bps == w.dbg.bps && t.dbg.breakpointNum == w.dbg.breakpointNum
  }

  lemma Int3Pushes(w: World)
    requires Int3Ready(w)
    ensures Pushes(w, Int3(w), if w.regs.rip - 1 == w.dbg.endHandler then w.regs.rsp - 8 else w.regs.rsp)
  {
    hide EntryTrace, EndTrace, Walkable, EndFlag;
  }

  /** For the child a stop is the function's `push %rbp`: the registers, the saved frame
      pointer, and a return slot that shows end_handler while an end stop is awaited
      and the true address otherwise.  No other word, and nothing of the text or the
      list, changes. */
  lemma StopPushes(s: Sys, i: Insn, p: Program)
    requires Inv(s, p) && Enabled(s, Step(i), p) && Traps(s.w)
    ensures Steppable(s, Step(i)) && |s.sh.frames| > 1
    ensures var top, t := Last(s.sh.frames), Next(s, Step(i));
            && Pushes(Trapped(s.w), t.w, top.slot)
            && t.sh.frames != [] && Load(t.w.mem, top.slot) == Shown(Last(t.sh.frames), p.endHandler)
            && s.w.regs.rbp == s.sh.frames[|s.sh.frames| - 2].slot - 8
            && s.w.regs.rip == TrueReport(s, p).address
  {
    StopReports(s, i, p);
    StepKeepsInv(s, Step(i), p);
    Int3Pushes(Trapped(s.w));
    var t := Next(s, Step(i));
    assert Last(t.sh.frames).slot == Last(s.sh.frames).slot;
    assert s.sh.phase == AtEnd || s.sh.phase == AtEntry by {
      if s.sh.phase != AtEnd && s.sh.phase != AtEntry { NoTrapInside(s, p); }
    }
    hide Int3, Int3Ready, Pushes, ListOk, CodeOk, FramesOk, BooksOk, Shown, EndFlag;
  }

  /** Nothing else touches the report: not the program's own steps, not setting and
      removing, not continuing, which puts the debugger to sleep and the child to work
      and changes nothing more. */
  lemma OthersReportNothing(s: Sys, ev: Event)
    requires Steppable(s, ev) && (ev.Step? ==> !Traps(s.w))
    ensures var t := Next(s, ev).w;
            && Reported(t) == Reported(s.w)
            && (ev.Resume? ==> t == s.w.(childState := t.childState, parentState := t.parentState))
            && (if ev.Resume? then t.childState == Running && t.parentState == Waiting
                else t.childState == s.w.childState && t.parentState == s.w.parentState)
  {
  }

  /** The last thing there was to tell in a run that began with `r` told. */
  function LastReport(s: Sys, es: seq<Event>, r: Report, p: Program): Report
    requires Inv(s, p) && RunOk(s, es, p)
    decreases |es|
  {
    if es == [] then r
    else
      StepKeepsInv(s, es[0], p);
      var r' := if es[0].Step? && Traps(s.w) then StopReports(s, es[0].insn, p); TrueReport(s, p) else r;
      LastReport(Next(s, es[0]), es[1..], r', p)
  }

  /** Whenever the debugger asks, in any run, it is told the truth about the last stop. */
  lemma {:induction false} ReportIsLastStop(s: Sys, es: seq<Event>, p: Program)
    requires Inv(s, p) && RunOk(s, es, p)
    ensures Reported(Run(s, es, p).w) == LastReport(s, es, Reported(s.w), p)
    decreases |es|
  {
    hide Inv, Enabled, Next, Steppable, Reported, TrueReport;
    if es != [] {
      StepKeepsInv(s, es[0], p);
      if es[0].Step? && Traps(s.w) {
        StopReports(s, es[0].insn, p);
      } else {
        OthersReportNothing(s, es[0]);
      }
      ReportIsLastStop(Next(s, es[0]), es[1..], p);
    }
  }

  /** One of the two is active and the other waits. */
  predicate OneActive(w: World) {
    || (w.childState == Waiting && Active(w.parentState))
    || (w.parentState == Waiting && Active(w.childState))
  }

  /** Child and debugger take turns in every run: the stops wake the debugger, and
      nothing but continuing wakes the child. */
  lemma {:induction false} OneActiveInEveryRun(s: Sys, es: seq<Event>, p: Program)
    requires Inv(s, p) && RunOk(s, es, p) && OneActive(s.w)
    ensures OneActive(Run(s, es, p).w)
    decreases |es|
  {
    hide Inv, Next, Steppable, Reported, TrueReport;
    if es != [] {
      StepKeepsInv(s, es[0], p);
      if es[0].Step? && Traps(s.w) {
        StopReports(s, es[0].insn, p);
      } else {
        OthersReportNothing(s, es[0]);
      }
      OneActiveInEveryRun(Next(s, es[0]), es[1..], p);
    }
  }

  /** An entry stop patches the activation exactly when the function's end breakpoint
      is enabled; that is then the activation whose end stop is awaited. */
  lemma PatchedExactly(s: Sys, i: Insn, p: Program)
    requires Inv(s, p) && Enabled(s, Step(i), p) && s.sh.phase == AtEntry && Traps(s.w)
    ensures Steppable(s, Step(i))
    ensures var top, t := Last(s.sh.frames), Next(s, Step(i));
            var enabled := exists k | 0 <= k < |s.w.dbg.bps| ::
                             s.w.dbg.bps[k].addr == top.entry && s.w.dbg.bps[k].endEnable != 0;
            && (Load(t.w.mem, top.slot) == p.endHandler <==> enabled)
            && (Load(t.w.mem, top.slot) == top.ret <==> !enabled)
            && t.w.dbg.stack == s.w.dbg.stack + (if enabled then [top.entry] else [])
            && t.w.dbg.rets == s.w.dbg.rets + (if enabled then [top.ret] else [])
  {
    EntryTraceIsTrue(s, p);
    hide EntryTrace, EntryStopReady, RetsDown;
    var top := Last(s.sh.frames);
    assert Load(s.w.mem, top.slot) == top.ret;
    assert top.ret !in p.entries;
    var k := Find(s.w.dbg.bps, top.entry);
    if j :| 0 <= j < |s.w.dbg.bps| && s.w.dbg.bps[j].addr == top.entry && s.w.dbg.bps[j].endEnable != 0 {
      assert j == k;
    }
  }

  // ---------------------------------------------------------------- requests

  /** The breakpoints at other addresses, in order. */
  function Others(bps: seq<Bp>, a: int): seq<Bp> {
    if bps == [] then []
    else Others(DropLast(bps), a) + if Last(bps).addr == a then [] else [Last(bps)]
  }

  lemma {:induction false} OthersIsAll(bps: seq<Bp>, a: int)
    requires forall i | 0 <= i < |bps| :: bps[i].addr != a
    ensures Others(bps, a) == bps
  {
    if bps != [] {
      var front, last := DropLast(bps), Last(bps);
      assert bps == front + [last] && last.addr != a;
      OthersIsAll(front, a);
    }
  }

  lemma {:induction false} OthersAre(bps: seq<Bp>, k: nat)
    requires k < |bps| && Distinct(bps)
    ensures Others(bps, bps[k].addr) == bps[..k] + bps[k + 1..]
    decreases |bps|
  {
    var a := bps[k].addr;
    var front := DropLast(bps);
    if k == |front| {
      OthersIsAll(front, a);
    } else {
      OthersAre(front, k);
      assert bps[k + 1..] == front[k + 1..] + [Last(bps)];
    }
  }

  /** Removing: with result 0 there was a breakpoint, it is gone, its function's first
      byte is `push %rbp` again, and all other breakpoints stay in order; with
      result -1 nothing has changed.  Never anything else. */
  lemma RemoveExactly(s: Sys, a: int, p: Program)
    requires Inv(s, p)
    ensures var (t, r) := RemoveBreakpoint(s.w, a);
            && r == (if Listed(s.w.dbg.bps, a) && !AwaitsEnd(s.sh.frames, a) then 0 else -1)
            && (r == 0 ==>
                  && !Listed(t.dbg.bps, a) && t.dbg.bps == Others(s.w.dbg.bps, a)
                  && |t.dbg.bps| == |s.w.dbg.bps| - 1
                  && Byte(t.code, a) == PUSHRBP_OPCODE && (forall b | b != a :: Byte(t.code, b) == Byte(s.w.code, b))
                  && t == s.w.(code := t.code, dbg := s.w.dbg.(bps := t.dbg.bps)))
            && (r == -1 ==> t == s.w)
  {
    RemoveRefusedExactly(s, a, p);
    var bps, k := s.w.dbg.bps, Find(s.w.dbg.bps, a);
    if k < |bps| {
      UnlinkKeepsList(bps, s.w.dbg.breakpointNum, k, p);
      Unlink(bps, k);
      OthersAre(bps, k);
    }
    hide Inv, AwaitsEnd, Others, SameApartFrom, Distinct;
  }

  /** Setting an address that has a breakpoint: refused exactly if that would disable
      an end breakpoint still awaited, else the flag is changed and nothing more. */
  lemma SetAgainExactly(s: Sys, a: int, flag: int, haveMemory: bool, p: Program)
    requires Inv(s, p) && Listed(s.w.dbg.bps, a) && (flag == 0 || flag == 1)
    ensures var (t, r) := SetBreakpoint(s.w, a, flag, haveMemory);
            var bps := s.w.dbg.bps;
            && r == (if flag == 0 && AwaitsEnd(s.sh.frames, a) then -1 else 0)
            && (r == 0 ==>
                  && |t.dbg.bps| == |bps| && EndFlag(t.dbg.bps, a) == flag
                  && (forall k | 0 <= k < |bps| ::
                        t.dbg.bps[k] == if bps[k].addr == a then Bp(bps[k].num, a, flag) else bps[k])
                  && t == s.w.(dbg := s.w.dbg.(bps := t.dbg.bps)))
            && (r == -1 ==> t == s.w)
  {
    DisableRefusedExactly(s, a, haveMemory, p);
    var bps, k := s.w.dbg.bps, Find(s.w.dbg.bps, a);
    FlagKeepsList(bps, s.w.dbg.breakpointNum, k, flag, p);
    ChangeFlag(bps, k, flag);
    assert forall j | 0 <= j < |bps| && j != k :: bps[j].addr != a;
    hide Inv, AwaitsEnd, SameApartFrom, EndFlag;
  }

  /** Setting an address that has none: refused exactly if the list is full or there
      is no memory, else the breakpoint is the last of the list under the next number,
      and the function's first byte is INT3. */
  lemma SetNewExactly(s: Sys, a: int, flag: int, haveMemory: bool, p: Program)
    requires Inv(s, p) && !Listed(s.w.dbg.bps, a)
    ensures var (t, r) := SetBreakpoint(s.w, a, flag, haveMemory);
            var n := s.w.dbg.breakpointNum + 1;
            && r == (if |s.w.dbg.bps| < MAX_BREAKPOINTS && haveMemory then 0 else -1)
            && (r == 0 ==>
                  && Listed(t.dbg.bps, a) && EndFlag(t.dbg.bps, a) == flag
                  && t.dbg.bps == s.w.dbg.bps + [Bp(n, a, flag)]
                  && (forall k | 0 <= k < |s.w.dbg.bps| :: s.w.dbg.bps[k].num < n)
                  && Byte(t.code, a) == INT3_OPCODE && (forall b | b != a :: Byte(t.code, b) == Byte(s.w.code, b))
                  && t == s.w.(code := t.code, dbg := s.w.dbg.(bps := t.dbg.bps, breakpointNum := n)))
            && (r == -1 ==> t == s.w)
  {
    Append(s.w.dbg.bps, Bp(s.w.dbg.breakpointNum + 1, a, flag));
    hide EndFlag, SameApartFrom, FramesOk, StackOk, TopOk, CodeOk, BooksOk;
  }

  // ---------------------------------------------------------------- the rest of the run

  predicate Names(ev: Event, a: int) {
    match ev
    case Set(b, _, _) => b == a
    case Remove(b) => b == a
    case _ => false
  }

  /** Only a request that names an address changes whether it has a breakpoint, and which. */
  lemma {:induction false} UnnamedStays(s: Sys, es: seq<Event>, a: int, p: Program)
    requires Inv(s, p) && RunOk(s, es, p) && forall k | 0 <= k < |es| :: !Names(es[k], a)
    ensures Inv(Run(s, es, p), p)
    ensures Listed(Run(s, es, p).w.dbg.bps, a) == Listed(s.w.dbg.bps, a)
    ensures EndFlag(Run(s, es, p).w.dbg.bps, a) == EndFlag(s.w.dbg.bps, a)
    decreases |es|
  {
    hide Listed, EndFlag, Inv, Enabled, Steppable, Next;
    if es != [] {
      StepKeepsInv(s, es[0], p);
      StepLeavesUnnamed(s, es[0], a, p);
      assert forall k | 0 <= k < |es[1..]| :: es[1..][k] == es[k + 1];
      UnnamedStays(Next(s, es[0]), es[1..], a, p);
    }
  }

  lemma StepLeavesUnnamed(s: Sys, ev: Event, a: int, p: Program)
    requires Inv(s, p) && Enabled(s, ev, p) && Steppable(s, ev) && !Names(ev, a)
    ensures Listed(Next(s, ev).w.dbg.bps, a) == Listed(s.w.dbg.bps, a)
    ensures EndFlag(Next(s, ev).w.dbg.bps, a) == EndFlag(s.w.dbg.bps, a)
  {
    hide FramesOk, StackOk, TopOk, ListOk, CodeOk, BooksOk, Steppable, SetBreakpoint, RemoveBreakpoint, Listed, EndFlag;
    match ev
    case Set(b, flag, haveMemory) => SetKeepsList(s.w, b, flag, haveMemory, p);
    case Remove(b) => RemoveKeepsList(s.w, b, p);
    case _ => assert Next(s, ev).w.dbg.bps == s.w.dbg.bps;
  }

  /** A function whose breakpoint has been removed is never stopped at again, until
      a breakpoint is set there. */
  lemma RemovedNeverStops(s: Sys, a: int, es: seq<Event>, p: Program)
    requires Inv(s, p) && RemoveBreakpoint(s.w, a).1 == 0
    requires RunOk(Next(s, Remove(a)), es, p) && forall k | 0 <= k < |es| :: !Names(es[k], a)
    ensures var m := Run(Next(s, Remove(a)), es, p);
            && !Listed(m.w.dbg.bps, a) && m.sh.frames != []
            && (m.sh.phase == AtEntry && Last(m.sh.frames).entry == a ==> !Traps(m.w))
  {
    RemoveExactly(s, a, p);
    RemoveKeepsInv(s, a, p);
    hide RemoveBreakpoint, Others, Listed, StackOk, TopOk, ListOk, CodeOk, BooksOk;
    UnnamedStays(Next(s, Remove(a)), es, a, p);
    StopsExactly(Run(Next(s, Remove(a)), es, p), p);
  }

  /** A function whose breakpoint has been set is stopped at on every call, until it
      is removed or set again, and has its end breakpoint as asked. */
  lemma SetAlwaysStops(s: Sys, a: int, flag: int, haveMemory: bool, es: seq<Event>, p: Program)
    requires Inv(s, p) && Enabled(s, Set(a, flag, haveMemory), p) && SetBreakpoint(s.w, a, flag, haveMemory).1 == 0
    requires RunOk(Next(s, Set(a, flag, haveMemory)), es, p) && forall k | 0 <= k < |es| :: !Names(es[k], a)
    ensures var m := Run(Next(s, Set(a, flag, haveMemory)), es, p);
            && Listed(m.w.dbg.bps, a) && EndFlag(m.w.dbg.bps, a) == flag && m.sh.frames != []
            && (m.sh.phase == AtEntry && Last(m.sh.frames).entry == a ==> Traps(m.w))
  {
    var t := Next(s, Set(a, flag, haveMemory));
    SetKeepsInv(s, a, flag, haveMemory, p);
    assert Listed(t.w.dbg.bps, a) && EndFlag(t.w.dbg.bps, a) == flag by {
      if Listed(s.w.dbg.bps, a) {
        SetAgainExactly(s, a, flag, haveMemory, p);
        hide Inv, SetBreakpoint, EndFlag;
        assert t.w.dbg.bps[Find(s.w.dbg.bps, a)].addr == a;
      } else {
        SetNewExactly(s, a, flag, haveMemory, p);
      }
    }
    hide SetBreakpoint, Listed, EndFlag, Enabled, StackOk, TopOk, ListOk, CodeOk, BooksOk;
    UnnamedStays(t, es, a, p);
    StopsExactly(Run(t, es, p), p);
  }
}
