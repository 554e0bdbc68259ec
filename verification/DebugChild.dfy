/** The child as one program: its next instruction is a function of its registers
    and its stack.  Debugged or alone, the same program makes the same run. */
module DebugChild {
  import opened DebugSpec
  import opened DebugSystem
  import opened DebugInvariant
  import opened DebugTransparency

  /** What the program does next, given everything it could look at. */
  type Child = (Regs, map<int, int>) -> Insn

  /** The general registers still needed at an instruction address, the others masked. */
  type Needed = (int, General) -> General

  /** Every register needed everywhere. */
  function All(rip: int, g: General): General { g }

  // ---------------------------------------------------------------- the program alone

  /** (r, m) differs from the program's own state at most in registers no longer
      needed, in return slots, and in words it has not written or has released. */
  ghost predicate LooksLike(u: Plain, r: Regs, m: map<int, int>, needed: Needed) {
    && r.rip == u.regs.rip && r.rsp == u.regs.rsp && r.rbp == u.regs.rbp
    && needed(r.rip, r.general) == needed(r.rip, u.regs.general)
    && Agree(u.sh.frames, u.live, m, u.mem)
  }

  /** The same instruction, up to the general registers a computation leaves. */
  predicate SameInsn(i: Insn, j: Insn) {
    if i.Work? && j.Work? then
      && i.after.rip == j.after.rip && i.after.rsp == j.after.rsp && i.after.rbp == j.after.rbp
      && i.writes == j.writes
    else i == j
  }

  /** The general registers after an instruction. */
  function GeneralAfter(r: Regs, i: Insn): General {
    if i.Work? then i.after.general else r.general
  }

  /** What the program does from its state `u` on depends on nothing it may not
      look at: no return slot, no word that is not live, no register not needed. */
  ghost predicate Insensitive(child: Child, u: Plain, needed: Needed) {
    forall r, m {:trigger LooksLike(u, r, m, needed)} | LooksLike(u, r, m, needed) ::
      var i, j := child(u.regs, u.mem), child(r, m);
      var next := ExecRegs(u.regs, u.mem, i).rip;
      SameInsn(i, j) && needed(next, GeneralAfter(r, j)) == needed(next, GeneralAfter(u.regs, i))
  }

  /** Running alone, the program obeys the calling convention and is insensitive
      for its next `n` instructions. */
  ghost predicate Behaves(child: Child, u: Plain, n: nat, needed: Needed, p: Program)
    decreases n
  {
    n == 0 ||
    (&& u.sh.frames != [] && Obeys(u.sh, u.regs, child(u.regs, u.mem), p)
     && Insensitive(child, u, needed)
     && Behaves(child, PlainNext(u, child(u.regs, u.mem)), n - 1, needed, p))
  }

  /** The program after `n` instructions of its own. */
  function Alone(child: Child, u: Plain, n: nat): Plain
    decreases n
  {
    if n == 0 || u.sh.frames == [] then u else Alone(child, PlainNext(u, child(u.regs, u.mem)), n - 1)
  }

  /** Those instructions. */
  function Trace(child: Child, u: Plain, n: nat): seq<Insn>
    decreases n
  {
    if n == 0 || u.sh.frames == [] then []
    else [child(u.regs, u.mem)] + Trace(child, PlainNext(u, child(u.regs, u.mem)), n - 1)
  }

  // ---------------------------------------------------------------- the program under the debugger

  /** Who decides the next event: outside a visit the program, inside one the body
      of end_handler and what it calls, between stops the debugger. */
  predicate Decided(s: Sys, ev: Event, child: Child, p: Program) {
    match ev
    case Step(i) =>
      Active(s.w.childState)
      && if Visiting(s.sh, p.endHandler) then Obeys(s.sh, s.w.regs, i, p) else i == child(s.w.regs, s.w.mem)
    case _ => Enabled(s, ev, p)
  }

  /** The general registers when the current visit began. */
  function Remembered(s: Sys, t: Sys, saved: General, p: Program): General {
    if Visiting(s.sh, p.endHandler) then saved else t.w.regs.general
  }

  /** A visit that ends has restored the registers the program still needs. */
  predicate Restored(s: Sys, t: Sys, saved: General, needed: Needed, p: Program) {
    Visiting(s.sh, p.endHandler) && !Visiting(t.sh, p.endHandler) ==>
      needed(t.w.regs.rip, t.w.regs.general) == needed(t.w.regs.rip, saved)
  }

  /** A debugged run of the program.  That its steps can be carried out is not assumed. */
  predicate Follows(s: Sys, es: seq<Event>, saved: General, child: Child, needed: Needed, p: Program)
    decreases |es|
  {
    es == [] ||
    (Decided(s, es[0], child, p) &&
     (Steppable(s, es[0]) ==>
        var t := Next(s, es[0]);
        Restored(s, t, saved, needed, p) && Follows(t, es[1..], Remembered(s, t, saved, p), child, needed, p)))
  }

  /** How many of the events are steps of the program itself. */
  function OwnSteps(s: Sys, es: seq<Event>, p: Program): nat
    decreases |es|
  {
    if es == [] then 0
    else |ErasedStep(s, es[0], p)| + if Steppable(s, es[0]) then OwnSteps(Next(s, es[0]), es[1..], p) else 0
  }

  /** The needed general registers are the same, or were when the visit began. */
  predicate SameNeeded(s: Sys, u: Plain, saved: General, needed: Needed, p: Program) {
    var general := if Visiting(s.sh, p.endHandler) then saved else s.w.regs.general;
    needed(u.regs.rip, general) == needed(u.regs.rip, u.regs.general)
  }

  // ---------------------------------------------------------------- one step

  lemma LooksTheSame(s: Sys, u: Plain, saved: General, needed: Needed, p: Program)
    requires Inv(s, p) && Related(s, u, p) && SameNeeded(s, u, saved, needed, p) && !Visiting(s.sh, p.endHandler)
    ensures LooksLike(u, s.w.regs, s.w.mem, needed)
  {
    hide Inv, Agree, LinkageLive, SameFrames;
  }

  /** The calling convention does not look at patched marks or general registers. */
  lemma ObeysSame(sh: Shadow, regs: Regs, ush: Shadow, uregs: Regs, i: Insn, j: Insn, p: Program)
    requires Obeys(ush, uregs, i, p) && SameInsn(i, j)
    requires SameFrames(sh.frames, ush.frames) && |ush.frames| == |sh.frames| && ush.phase == sh.phase
    requires uregs.rip == regs.rip && uregs.rsp == regs.rsp && uregs.rbp == regs.rbp
    requires sh.phase != AtEnd && forall k | 0 <= k < |sh.frames| :: sh.frames[k].entry != p.endHandler
    ensures Obeys(sh, regs, j, p) && Obeys(ush, uregs, j, p)
  {
    NoHandlerAmong(sh.frames, ush.frames, p.endHandler);
    FirstHandlerIs(sh.frames, p.endHandler, |sh.frames|);
    hide FirstHandler;
    if j.Work? {
      SlotsSame(sh.frames, ush.frames);
      hide SameFrames;
      assert SparesLinkage(sh.frames, j.writes);
    }
  }

  lemma SlotsSame(fs: seq<Frame>, us: seq<Frame>)
    requires SameFrames(fs, us)
    ensures forall k | 0 <= k < |us| :: us[k].slot == fs[k].slot
  {
  }

  /** What the program may do alone it may do under the debugger. */
  lemma DebuggedStepObeys(s: Sys, u: Plain, i: Insn, j: Insn, p: Program)
    requires Inv(s, p) && Related(s, u, p) && !Visiting(s.sh, p.endHandler)
    requires Obeys(u.sh, u.regs, i, p) && SameInsn(i, j)
    ensures Obeys(s.sh, s.w.regs, j, p) && Obeys(u.sh, u.regs, j, p)
  {
    hide Inv, Related, Agree, LinkageLive, TopOk, FirstHandler, Obeys, SameFrames, SameInsn;
    OutsideFacts(s, u, p);
    ObeysSame(s.sh, s.w.regs, u.sh, u.regs, i, j, p);
  }

  lemma SameEffect(s: Sys, u: Plain, i: Insn, j: Insn, p: Program)
    requires u.sh.frames != [] && SameInsn(i, j) && Related(s, PlainNext(u, j), p)
    ensures Related(s, PlainNext(u, i), p)
  {
    hide Agree, LinkageLive, SameFrames, SamePlace;
    var v, v' := PlainNext(u, j), PlainNext(u, i);
    assert v'.sh == v.sh && v'.mem == v.mem && v'.live == v.live;
    assert v'.regs.rip == v.regs.rip && v'.regs.rsp == v.regs.rsp && v'.regs.rbp == v.regs.rbp;
    assert SamePlace(s, v', p) by { PlaceOf(s, v, v', p); }
  }

  lemma PlaceOf(s: Sys, v: Plain, v': Plain, p: Program)
    requires Base(s.sh, p.endHandler) > 0 && SamePlace(s, v, p) && v'.sh == v.sh
    requires v'.regs.rip == v.regs.rip && v'.regs.rsp == v.regs.rsp && v'.regs.rbp == v.regs.rbp
    ensures SamePlace(s, v', p)
  {
  }

  /** Neither stop touches a general register of the child. */
  lemma StopsKeepGeneral(s: Sys, i: Insn, p: Program)
    requires Inv(s, p) && Enabled(s, Step(i), p) && Steppable(s, Step(i))
    ensures Next(s, Step(i)).w.regs.general == GeneralAfter(s.w.regs, i)
  {
    hide StackOk, BooksOk, ListOk, FramesOk, EntryTrace, EndTrace, EndFlag;
    if Traps(s.w) && s.sh.phase != AtEntry && s.sh.phase != AtEnd {
      NoTrapInside(s, p);
    }
  }

  /** The program's own step under the debugger is its own step alone. */
  lemma OwnStepSame(s: Sys, u: Plain, saved: General, child: Child, needed: Needed, p: Program)
    requires Inv(s, p) && Related(s, u, p) && SameNeeded(s, u, saved, needed, p) && !Visiting(s.sh, p.endHandler)
    requires u.sh.frames != [] && Obeys(u.sh, u.regs, child(u.regs, u.mem), p) && Insensitive(child, u, needed)
    requires Active(s.w.childState)
    ensures var i, j := child(s.w.regs, s.w.mem), child(u.regs, u.mem);
            && Enabled(s, Step(i), p) && Steppable(s, Step(i)) && SameInsn(j, i)
            && var t := Next(s, Step(i));
               && Inv(t, p) && Related(t, PlainNext(u, j), p)
               && SameNeeded(t, PlainNext(u, j), t.w.regs.general, needed, p)
  {
    var i, j := child(s.w.regs, s.w.mem), child(u.regs, u.mem);
    LooksTheSame(s, u, saved, needed, p);
    assert SameInsn(j, i);
    DebuggedStepObeys(s, u, j, i, p);
    StepKeepsInv(s, Step(i), p);
    StepIsTransparent(s, u, Step(i), p);
    StopsKeepGeneral(s, i, p);
    hide Inv, Related, Visiting, Steppable, Next, Obeys, Agree;
    SameEffect(Next(s, Step(i)), u, j, i, p);
  }

  // ---------------------------------------------------------------- whole runs

  lemma OneOwnStep(child: Child, u: Plain, n: nat, needed: Needed, p: Program)
    requires n > 0 && Behaves(child, u, n, needed, p)
    ensures u.sh.frames != [] && Obeys(u.sh, u.regs, child(u.regs, u.mem), p) && Insensitive(child, u, needed)
    ensures Behaves(child, PlainNext(u, child(u.regs, u.mem)), n - 1, needed, p)
  {
  }

  /** Instruction by instruction the same, up to general registers. */
  predicate SameInsns(own: seq<Insn>, alone: seq<Insn>) {
    |own| == |alone| && forall k | 0 <= k < |own| :: SameInsn(alone[k], own[k])
  }

  lemma ConsSame(i: Insn, own: seq<Insn>, j: Insn, alone: seq<Insn>)
    requires SameInsns(own, alone) && SameInsn(j, i)
    ensures SameInsns([i] + own, [j] + alone)
  {
  }

  lemma BackWhereItWas(t: Sys, u: Plain, p: Program)
    requires Related(t, u, p)
    ensures !Visiting(t.sh, p.endHandler) ==> t.w.regs.rip == u.regs.rip
  {
    hide Agree, LinkageLive, SameFrames;
  }

  /** A step that is not the program's own: a request, or part of a visit. */
  lemma OtherStepSame(s: Sys, u: Plain, ev: Event, saved: General, child: Child, needed: Needed, p: Program)
    requires Inv(s, p) && Related(s, u, p) && SameNeeded(s, u, saved, needed, p)
    requires Decided(s, ev, child, p) && ErasedStep(s, ev, p) == []
    ensures Enabled(s, ev, p) && Steppable(s, ev)
    ensures var t := Next(s, ev);
            && Inv(t, p) && Related(t, u, p)
            && (Restored(s, t, saved, needed, p) ==> SameNeeded(t, u, Remembered(s, t, saved, p), needed, p))
  {
    hide Inv, Related, Next, Steppable, Obeys, Visiting;
    StepKeepsInv(s, ev, p);
    StepIsTransparent(s, u, ev, p);
    BackWhereItWas(Next(s, ev), u, p);
    if !ev.Step? {
      RequestSparesChild(s, ev);
    }
  }

  /** The same program makes the same run.  Take any debugged run of the program
      in which every visit to end_handler restores the registers the program still
      needs.  Then every step of it can be carried out; erasing visits and requests
      leaves, instruction by instruction, the run the program makes alone; and the
      two end at the same rip, rsp, rbp, call stack, live words and needed registers. */
  lemma {:induction false} SameProgram(s: Sys, u: Plain, es: seq<Event>, saved: General,
                                       child: Child, needed: Needed, p: Program)
      returns (saved': General)
    requires Inv(s, p) && Related(s, u, p) && SameNeeded(s, u, saved, needed, p)
    requires Follows(s, es, saved, child, needed, p) && Behaves(child, u, OwnSteps(s, es, p), needed, p)
    ensures RunOk(s, es, p) && Inv(Run(s, es, p), p)
    ensures SameInsns(Erased(s, es, p), Trace(child, u, OwnSteps(s, es, p)))
    ensures Related(Run(s, es, p), Alone(child, u, OwnSteps(s, es, p)), p)
    ensures SameNeeded(Run(s, es, p), Alone(child, u, OwnSteps(s, es, p)), saved', needed, p)
    decreases |es|
  {
    hide Inv, Related, Enabled, Steppable, Next, SameNeeded, Obeys, Insensitive, Visiting, Restored, SameInsn;
    saved' := saved;
    if es != [] {
      var n := OwnSteps(s, es, p);
      if ErasedStep(s, es[0], p) == [] {
        OtherStepSame(s, u, es[0], saved, child, needed, p);
        var t := Next(s, es[0]);
        saved' := SameProgram(t, u, es[1..], Remembered(s, t, saved, p), child, needed, p);
        assert Erased(s, es, p) == Erased(t, es[1..], p);
      } else {
        var j := child(u.regs, u.mem);
        OneOwnStep(child, u, n, needed, p);
        OwnStepSame(s, u, saved, child, needed, p);
        var t := Next(s, es[0]);
        saved' := SameProgram(t, PlainNext(u, j), es[1..], Remembered(s, t, saved, p), child, needed, p);
        ConsSame(es[0].insn, Erased(t, es[1..], p), j, Trace(child, PlainNext(u, j), n - 1));
      }
    }
  }

  /** When nothing is masked, outside visits all registers are the same: in runs
      without visits, and in runs whose visits restore every register. */
  lemma SameRegisters(s: Sys, u: Plain, es: seq<Event>, child: Child, p: Program)
    requires Inv(s, p) && Related(s, u, p) && !Visiting(s.sh, p.endHandler) && s.w.regs.general == u.regs.general
    requires Follows(s, es, s.w.regs.general, child, All, p)
    requires Behaves(child, u, OwnSteps(s, es, p), All, p)
    ensures RunOk(s, es, p)
    ensures !Visiting(Run(s, es, p).sh, p.endHandler) ==>
              Alone(child, u, OwnSteps(s, es, p)).regs == Run(s, es, p).w.regs
  {
    var saved' := SameProgram(s, u, es, s.w.regs.general, child, All, p);
    var t, v := Run(s, es, p), Alone(child, u, OwnSteps(s, es, p));
    hide Inv, Agree, LinkageLive, SameFrames, Follows, Behaves, Run, Alone, OwnSteps, RunOk;
    if !Visiting(t.sh, p.endHandler) {
      assert v.regs.rip == t.w.regs.rip && v.regs.rsp == t.w.regs.rsp && v.regs.rbp == t.w.regs.rbp;
    }
  }

  /** Why return slots must not be looked at: in the body of a patched activation
      the slot holds end_handler under the debugger and the true return address alone. */
  lemma ReturnSlotDiffers(s: Sys, u: Plain, p: Program)
    requires Inv(s, p) && Related(s, u, p) && !Visiting(s.sh, p.endHandler)
    requires Last(s.sh.frames).patched
    ensures var slot := Last(s.sh.frames).slot;
            && Load(s.w.mem, slot) == p.endHandler && Load(u.mem, slot) == Last(s.sh.frames).ret
            && Load(s.w.mem, slot) != Load(u.mem, slot)
  {
    OutsideFacts(s, u, p);
    var k := |s.sh.frames| - 1;
    hide Agree, TopOk, Related;
    assert Load(s.w.mem, s.sh.frames[k].slot) == Shown(s.sh.frames[k], p.endHandler);
    assert u.sh.frames[k] == s.sh.frames[k].(patched := false);
    assert Load(u.mem, u.sh.frames[k].slot) == u.sh.frames[k].ret;
  }
}
