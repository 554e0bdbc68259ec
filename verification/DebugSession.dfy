/** One debugging session from start to an end stop, so that the results about
    all sessions are about something: main sets an end breakpoint on a function
    and continues, the child calls it, and the function returns into end_handler. */
module DebugSession {
  import opened DebugSpec
  import opened ProcessState
  import opened DebugSystem
  import opened DebugInvariant
  import opened DebugTransparency
  import opened DebugChild
  import opened DebugResults

  const THE_PROGRAM := Program({100, 200, 300}, 200)
  const NO_GENERAL := General(0, 0, 0, 0, 0, 0, 0, 0, 0, 0, 0, 0, 0, 0, 0, 0, 0)
  const VISITOR := Frame(984, 315, 200, false)      // the visit to end_handler
  const OUTERMOST := Frame(1000, END_ADDR, 300, false)

  function AfterBecoming(): World {
    World(Regs(NO_GENERAL, 310, 992, 992), map[1000 := END_ADDR], Ready, Running, 0,
          map[100 := PUSHRBP_OPCODE, 200 := PUSHRBP_OPCODE, 300 := PUSHRBP_OPCODE],
          Dbg([], 0, 0, [], [], [], Regs(NO_GENERAL, 0, 0, 0)))
  }

  function Start(): Sys {
    Sys(BecomeDebugger(AfterBecoming(), 200, Regs(NO_GENERAL, 0, 0, 0)), Shadow([OUTERMOST], Body))
  }

  function PlainStart(): Plain {
    Plain(Start().w.regs, Start().w.mem, Start().sh, {1000})
  }

  lemma StartIsGood()
    ensures Inv(Start(), THE_PROGRAM) && Related(Start(), PlainStart(), THE_PROGRAM)
  {
    var w, sh := AfterBecoming(), Shadow([OUTERMOST], Body);
    assert PlainCode(w.code, THE_PROGRAM);
    assert sh.frames[0].slot == 1000;
    StartIsRelated(w, sh, {1000}, Regs(NO_GENERAL, 0, 0, 0), THE_PROGRAM);
  }

  /** What the rest of the session depends on. */
  predicate At(s: Sys, regs: Regs, childRuns: bool, frames: seq<Frame>, phase: Phase) {
    && s.w.regs == regs && s.sh == Shadow(frames, phase)
    && Active(s.w.childState) == childRuns && Active(s.w.parentState) == !childRuns
    && s.w.dbg.endHandler == 200 && s.w.dbg.bps == [Bp(1, 100, 1)]
    && s.w.code == map[100 := INT3_OPCODE, 200 := INT3_OPCODE, 300 := PUSHRBP_OPCODE]
  }

  function R(rip: int, rsp: int, rbp: int): Regs { Regs(NO_GENERAL, rip, rsp, rbp) }

  function Callee(patched: bool): Frame { Frame(984, 315, 100, patched) }

  lemma WasSet() returns (s: Sys)
    ensures Enabled(Start(), Set(100, 1, true), THE_PROGRAM) && s == Next(Start(), Set(100, 1, true))
    ensures At(s, R(310, 992, 992), false, [OUTERMOST], Body) && !Visiting(Start().sh, 200)
  {
    s := Next(Start(), Set(100, 1, true));
    FirstHandlerIs([OUTERMOST], 200, 1);
  }

  lemma Called(s: Sys)
    requires Inv(s, THE_PROGRAM) && At(s, R(310, 992, 992), true, [OUTERMOST], Body)
    ensures Enabled(s, Step(Call(100, 315)), THE_PROGRAM) && Steppable(s, Step(Call(100, 315)))
    ensures At(Next(s, Step(Call(100, 315))), R(100, 984, 992), true, [OUTERMOST, Callee(false)], AtEntry)
  {
    StepKeepsInv(s, Step(Call(100, 315)), THE_PROGRAM);
  }

  lemma Entered(s: Sys)
    requires Inv(s, THE_PROGRAM) && At(s, R(100, 984, 992), true, [OUTERMOST, Callee(false)], AtEntry)
    ensures Enabled(s, Step(PushRbp), THE_PROGRAM) && Steppable(s, Step(PushRbp))
    ensures At(Next(s, Step(PushRbp)), R(101, 976, 992), false, [OUTERMOST, Callee(true)], Pushed)
  {
    StepKeepsInv(s, Step(PushRbp), THE_PROGRAM);
    hide Inv, Walkable, StackWords, Resolve;
    assert DropLast(s.sh.frames) == [OUTERMOST];
  }

  lemma Resumed(s: Sys, regs: Regs, frames: seq<Frame>, phase: Phase)
    requires At(s, regs, false, frames, phase)
    ensures Enabled(s, Resume, THE_PROGRAM) && Steppable(s, Resume)
    ensures At(Next(s, Resume), regs, true, frames, phase)
  {
  }

  lemma Moved(s: Sys)
    requires Inv(s, THE_PROGRAM) && At(s, R(101, 976, 992), true, [OUTERMOST, Callee(true)], Pushed)
    ensures Enabled(s, Step(MovRbp), THE_PROGRAM) && Steppable(s, Step(MovRbp))
    ensures At(Next(s, Step(MovRbp)), R(104, 976, 976), true, [OUTERMOST, Callee(true)], Body)
  {
    StepKeepsInv(s, Step(MovRbp), THE_PROGRAM);
  }

  lemma HasLeft(s: Sys)
    requires Inv(s, THE_PROGRAM) && At(s, R(104, 976, 976), true, [OUTERMOST, Callee(true)], Body)
    ensures Enabled(s, Step(Leave), THE_PROGRAM) && Steppable(s, Step(Leave))
    ensures At(Next(s, Step(Leave)), R(105, 984, 992), true, [OUTERMOST, Callee(true)], Left)
  {
    StepKeepsInv(s, Step(Leave), THE_PROGRAM);
    assert SavedBp(s.sh.frames, s.w.mem, 1);
  }

  lemma Returned(s: Sys)
    requires Inv(s, THE_PROGRAM) && At(s, R(105, 984, 992), true, [OUTERMOST, Callee(true)], Left)
    ensures Enabled(s, Step(Ret), THE_PROGRAM) && Steppable(s, Step(Ret))
    ensures At(Next(s, Step(Ret)), R(200, 992, 992), true, [OUTERMOST, Callee(true)], AtEnd)
  {
    StepKeepsInv(s, Step(Ret), THE_PROGRAM);
    assert Load(s.w.mem, s.sh.frames[1].slot) == 200;
  }

  lemma Stopped(s: Sys)
    requires Inv(s, THE_PROGRAM) && At(s, R(200, 992, 992), true, [OUTERMOST, Callee(true)], AtEnd)
    ensures Enabled(s, Step(PushRbp), THE_PROGRAM) && Steppable(s, Step(PushRbp))
    ensures var t := Next(s, Step(PushRbp));
            && At(t, R(201, 976, 992), false, [OUTERMOST, VISITOR], Pushed)
            && t.w.dbg.trace == [315] && Load(t.w.mem, 984) == 315
  {
    hide Inv, Walkable, StackWords, Resolve, EndTrace, RetsDown;
    StepKeepsInv(s, Step(PushRbp), THE_PROGRAM);
    EndTraceIsTrue(s, THE_PROGRAM);
    EndStopKeepsInv(s, EndTrace(Trapped(s.w)), THE_PROGRAM);
    assert DropLast(s.sh.frames) == [OUTERMOST];
    OneReturn();
  }

  lemma VisitMoved(s: Sys)
    requires Inv(s, THE_PROGRAM) && At(s, R(201, 976, 992), true, [OUTERMOST, VISITOR], Pushed)
    ensures Enabled(s, Step(MovRbp), THE_PROGRAM) && Steppable(s, Step(MovRbp))
    ensures At(Next(s, Step(MovRbp)), R(204, 976, 976), true, [OUTERMOST, VISITOR], Body)
  {
    StepKeepsInv(s, Step(MovRbp), THE_PROGRAM);
  }

  lemma VisitHasLeft(s: Sys)
    requires Inv(s, THE_PROGRAM) && At(s, R(204, 976, 976), true, [OUTERMOST, VISITOR], Body)
    ensures Enabled(s, Step(Leave), THE_PROGRAM) && Steppable(s, Step(Leave))
    ensures At(Next(s, Step(Leave)), R(205, 984, 992), true, [OUTERMOST, VISITOR], Left)
  {
    StepKeepsInv(s, Step(Leave), THE_PROGRAM);
    assert SavedBp(s.sh.frames, s.w.mem, 1);
  }

  lemma VisitReturned(s: Sys)
    requires Inv(s, THE_PROGRAM) && At(s, R(205, 984, 992), true, [OUTERMOST, VISITOR], Left)
    ensures Enabled(s, Step(Ret), THE_PROGRAM) && Steppable(s, Step(Ret))
    ensures At(Next(s, Step(Ret)), R(315, 992, 992), true, [OUTERMOST], Body)
  {
    StepKeepsInv(s, Step(Ret), THE_PROGRAM);
    assert Load(s.w.mem, s.sh.frames[1].slot) == 315;
    assert DropLast([OUTERMOST, VISITOR]) == [OUTERMOST];
  }

  lemma OneReturn()
    ensures RetsDown([OUTERMOST, Callee(true)]) == [315]
  {
    assert DropLast([OUTERMOST, Callee(true)]) == [OUTERMOST];
  }

  // ---------------------------------------------------------------- the program

  /** main calls the function; the function sets up its frame and returns. */
  function TheChild(r: Regs, m: map<int, int>): Insn {
    if r.rip == 310 then Call(100, 315)
    else if r.rip == 100 then PushRbp
    else if r.rip == 101 then MovRbp
    else if r.rip == 104 then Leave
    else if r.rip == 105 then Ret
    else Work(r, map[])
  }

  lemma ChildIsInsensitive(u: Plain)
    ensures Insensitive(TheChild, u, All)
  {
  }

  lemma BehavesOn(u: Plain, v: Plain, n: nat)
    requires u.sh.frames != [] && Obeys(u.sh, u.regs, TheChild(u.regs, u.mem), THE_PROGRAM)
    requires v == PlainNext(u, TheChild(u.regs, u.mem)) && Behaves(TheChild, v, n, All, THE_PROGRAM)
    ensures Behaves(TheChild, u, n + 1, All, THE_PROGRAM)
  {
    ChildIsInsensitive(u);
    hide Insensitive, Obeys, PlainNext;
  }

  /** What the program alone depends on. */
  predicate AloneAt(u: Plain, regs: Regs, frames: seq<Frame>, phase: Phase) {
    u.regs == regs && u.sh == Shadow(frames, phase)
  }

  lemma AloneCalls(u: Plain) returns (v: Plain)
    requires AloneAt(u, R(310, 992, 992), [OUTERMOST], Body)
    ensures Obeys(u.sh, u.regs, TheChild(u.regs, u.mem), THE_PROGRAM) && v == PlainNext(u, TheChild(u.regs, u.mem))
    ensures AloneAt(v, R(100, 984, 992), [OUTERMOST, Callee(false)], AtEntry) && Load(v.mem, 984) == 315
  {
    v := PlainNext(u, Call(100, 315));
  }

  lemma AloneEnters(u: Plain) returns (v: Plain)
    requires AloneAt(u, R(100, 984, 992), [OUTERMOST, Callee(false)], AtEntry) && Load(u.mem, 984) == 315
    ensures Obeys(u.sh, u.regs, TheChild(u.regs, u.mem), THE_PROGRAM) && v == PlainNext(u, TheChild(u.regs, u.mem))
    ensures AloneAt(v, R(101, 976, 992), [OUTERMOST, Callee(false)], Pushed)
    ensures Load(v.mem, 984) == 315 && Load(v.mem, 976) == 992
  {
    v := PlainNext(u, PushRbp);
  }

  lemma AloneMoves(u: Plain) returns (v: Plain)
    requires AloneAt(u, R(101, 976, 992), [OUTERMOST, Callee(false)], Pushed)
    requires Load(u.mem, 984) == 315 && Load(u.mem, 976) == 992
    ensures Obeys(u.sh, u.regs, TheChild(u.regs, u.mem), THE_PROGRAM) && v == PlainNext(u, TheChild(u.regs, u.mem))
    ensures AloneAt(v, R(104, 976, 976), [OUTERMOST, Callee(false)], Body)
    ensures Load(v.mem, 984) == 315 && Load(v.mem, 976) == 992
  {
    v := PlainNext(u, MovRbp);
  }

  lemma AloneLeaves(u: Plain) returns (v: Plain)
    requires AloneAt(u, R(104, 976, 976), [OUTERMOST, Callee(false)], Body)
    requires Load(u.mem, 984) == 315 && Load(u.mem, 976) == 992
    ensures Obeys(u.sh, u.regs, TheChild(u.regs, u.mem), THE_PROGRAM) && v == PlainNext(u, TheChild(u.regs, u.mem))
    ensures AloneAt(v, R(105, 984, 992), [OUTERMOST, Callee(false)], Left) && Load(v.mem, 984) == 315
  {
    v := PlainNext(u, Leave);
  }

  lemma AloneReturns(u: Plain) returns (v: Plain)
    requires AloneAt(u, R(105, 984, 992), [OUTERMOST, Callee(false)], Left) && Load(u.mem, 984) == 315
    ensures Obeys(u.sh, u.regs, TheChild(u.regs, u.mem), THE_PROGRAM) && v == PlainNext(u, TheChild(u.regs, u.mem))
    ensures AloneAt(v, R(315, 992, 992), [OUTERMOST], Body)
  {
    v := PlainNext(u, Ret);
    assert DropLast([OUTERMOST, Callee(false)]) == [OUTERMOST];
  }

  /** The program alone, up to its return from the function. */
  lemma ChildBehaves(n: nat)
    requires n == 5
    ensures Behaves(TheChild, PlainStart(), n, All, THE_PROGRAM)
  {
    hide Behaves, Insensitive, Obeys, PlainNext, TheChild;
    var u0 := PlainStart();
    var u1 := AloneCalls(u0);
    var u2 := AloneEnters(u1);
    var u3 := AloneMoves(u2);
    var u4 := AloneLeaves(u3);
    var u5 := AloneReturns(u4);
    NoSteps(u5, n - 5);
    BehavesOn(u4, u5, n - 5);
    BehavesOn(u3, u4, n - 4);
    BehavesOn(u2, u3, n - 3);
    BehavesOn(u1, u2, n - 2);
    BehavesOn(u0, u1, n - 1);
  }

  lemma NoSteps(u: Plain, n: nat)
    requires n == 0
    ensures Behaves(TheChild, u, n, All, THE_PROGRAM)
  {
  }

  // ---------------------------------------------------------------- the session

  /** From `s` the events are a debugged run of the program, `n` of them its own
      steps, that can be carried out and ends in `z`. */
  ghost predicate Goes(s: Sys, es: seq<Event>, n: nat, z: Sys) {
    && RunOk(s, es, THE_PROGRAM) && Run(s, es, THE_PROGRAM) == z
    && Follows(s, es, NO_GENERAL, TheChild, All, THE_PROGRAM) && OwnSteps(s, es, THE_PROGRAM) == n
  }

  /** One event, `c` steps of the program. */
  ghost predicate Link(s: Sys, ev: Event, t: Sys, c: nat) {
    && Enabled(s, ev, THE_PROGRAM) && Steppable(s, ev) && t == Next(s, ev)
    && Decided(s, ev, TheChild, THE_PROGRAM) && t.w.regs.general == NO_GENERAL
    && |ErasedStep(s, ev, THE_PROGRAM)| == c
  }

  lemma Prepend(s: Sys, ev: Event, c: nat, t: Sys, es: seq<Event>, n: nat, z: Sys)
    requires Link(s, ev, t, c) && Goes(t, es, n, z)
    ensures Goes(s, [ev] + es, n + c, z)
  {
    hide Enabled, Decided, Steppable, Next, Visiting, ErasedStep;
    assert ([ev] + es)[1..] == es;
  }

  /** The state after an event that the program or the debugger decides. */
  lemma After(s: Sys, regs: Regs, frames: seq<Frame>, phase: Phase, ev: Event) returns (t: Sys)
    requires Inv(s, THE_PROGRAM) && At(s, regs, ev.Step?, frames, phase) && Enabled(s, ev, THE_PROGRAM)
    requires ev.Step? && phase != AtEnd ==> ev.insn == TheChild(regs, s.w.mem)
    requires frames == [OUTERMOST] || (|frames| == 2 && frames[0] == OUTERMOST && frames[1].entry == 100)
    requires Steppable(s, ev) && Next(s, ev).w.regs.general == NO_GENERAL
    requires phase == AtEnd ==> |frames| == 2
    ensures t == Next(s, ev) && Inv(t, THE_PROGRAM)
    ensures Link(s, ev, t, if ev.Step? && phase != AtEnd then 1 else 0)
  {
    hide Inv, Next, Steppable;
    StepKeepsInv(s, ev, THE_PROGRAM);
    IsDecided(s, regs, frames, phase, ev);
    t := Next(s, ev);
  }

  /** Outside visits the next event is what the program or the debugger decides. */
  lemma IsDecided(s: Sys, regs: Regs, frames: seq<Frame>, phase: Phase, ev: Event)
    requires At(s, regs, ev.Step?, frames, phase) && Enabled(s, ev, THE_PROGRAM)
    requires ev.Step? && phase != AtEnd ==> ev.insn == TheChild(regs, s.w.mem)
    requires phase == AtEnd ==> |frames| == 2
    requires frames == [OUTERMOST] || (|frames| == 2 && frames[0] == OUTERMOST && frames[1].entry == 100)
    ensures Decided(s, ev, TheChild, THE_PROGRAM) && (Visiting(s.sh, 200) <==> phase == AtEnd)
    ensures |ErasedStep(s, ev, THE_PROGRAM)| == if ev.Step? && phase != AtEnd then 1 else 0
  {
    FirstHandlerIs(frames, 200, |frames|);
  }

  /** The state after an event of the visit. */
  lemma AfterVisit(s: Sys, regs: Regs, phase: Phase, ev: Event) returns (t: Sys)
    requires Inv(s, THE_PROGRAM) && At(s, regs, ev.Step?, [OUTERMOST, VISITOR], phase) && Enabled(s, ev, THE_PROGRAM)
    requires Steppable(s, ev) && Next(s, ev).w.regs.general == NO_GENERAL
    ensures t == Next(s, ev) && Inv(t, THE_PROGRAM) && Link(s, ev, t, 0)
  {
    hide Inv, Next, Steppable;
    StepKeepsInv(s, ev, THE_PROGRAM);
    FirstHandlerIs([OUTERMOST, VISITOR], 200, 1);
    t := Next(s, ev);
  }

  lemma Nothing(s: Sys)
    ensures Goes(s, [], 0, s)
  {
  }

  /** From the start to the stop in end_handler, and on. */
  lemma Linked(s0: Sys, s1: Sys, s2: Sys, s3: Sys, s4: Sys, s5: Sys, s6: Sys, s7: Sys, s8: Sys, s9: Sys,
               rest: seq<Event>, z: Sys)
      returns (es: seq<Event>)
    requires Link(s0, Set(100, 1, true), s1, 0) && Link(s1, Resume, s2, 0)
    requires Link(s2, Step(Call(100, 315)), s3, 1) && Link(s3, Step(PushRbp), s4, 1) && Link(s4, Resume, s5, 0)
    requires Link(s5, Step(MovRbp), s6, 1) && Link(s6, Step(Leave), s7, 1) && Link(s7, Step(Ret), s8, 1)
    requires Link(s8, Step(PushRbp), s9, 0) && Goes(s9, rest, 0, z)
    ensures Goes(s0, es, 5, z)
  {
    hide Link, Goes;
    Prepend(s8, Step(PushRbp), 0, s9, rest, 0, z);
    es := [Step(PushRbp)] + rest;
    Prepend(s7, Step(Ret), 1, s8, es, 0, z);
    es := [Step(Ret)] + es;
    Prepend(s6, Step(Leave), 1, s7, es, 1, z);
    es := [Step(Leave)] + es;
    Prepend(s5, Step(MovRbp), 1, s6, es, 2, z);
    es := [Step(MovRbp)] + es;
    Prepend(s4, Resume, 0, s5, es, 3, z);
    es := [Resume] + es;
    Prepend(s3, Step(PushRbp), 1, s4, es, 3, z);
    es := [Step(PushRbp)] + es;
    Prepend(s2, Step(Call(100, 315)), 1, s3, es, 4, z);
    es := [Step(Call(100, 315))] + es;
    Prepend(s1, Resume, 0, s2, es, 5, z);
    es := [Resume] + es;
    Prepend(s0, Set(100, 1, true), 0, s1, es, 5, z);
    es := [Set(100, 1, true)] + es;
  }

  /** From the stop in end_handler to the end of the visit. */
  lemma LinkedVisit(s9: Sys, s10: Sys, s11: Sys, s12: Sys, z: Sys) returns (es: seq<Event>)
    requires Link(s9, Resume, s10, 0) && Link(s10, Step(MovRbp), s11, 0)
    requires Link(s11, Step(Leave), s12, 0) && Link(s12, Step(Ret), z, 0)
    ensures Goes(s9, es, 0, z)
  {
    hide Link, Goes;
    Nothing(z);
    es := [];
    Prepend(s12, Step(Ret), 0, z, es, 0, z);
    es := [Step(Ret)] + es;
    Prepend(s11, Step(Leave), 0, s12, es, 0, z);
    es := [Step(Leave)] + es;
    Prepend(s10, Step(MovRbp), 0, s11, es, 0, z);
    es := [Step(MovRbp)] + es;
    Prepend(s9, Resume, 0, s10, es, 0, z);
    es := [Resume] + es;
  }

  lemma SetIsDecided(t: Sys)
    requires Enabled(Start(), Set(100, 1, true), THE_PROGRAM) && t == Next(Start(), Set(100, 1, true))
    requires t.w.regs.general == NO_GENERAL
    ensures Link(Start(), Set(100, 1, true), t, 0)
  {
  }

  lemma IsVisiting(s: Sys)
    requires s.sh == Shadow([OUTERMOST, VISITOR], Pushed)
    ensures Visiting(s.sh, 200)
  {
    FirstHandlerIs(s.sh.frames, 200, 1);
  }

  lemma IsBack(s: Sys)
    requires s.sh == Shadow([OUTERMOST], Body)
    ensures !Visiting(s.sh, 200)
  {
    FirstHandlerIs(s.sh.frames, 200, 1);
  }

  /** The visit can be carried on to its end. */
  lemma VisitEndsThere(s9: Sys) returns (rest: seq<Event>, z: Sys)
    requires Inv(s9, THE_PROGRAM) && At(s9, R(201, 976, 992), false, [OUTERMOST, VISITOR], Pushed)
    ensures Goes(s9, rest, 0, z) && At(z, R(315, 992, 992), true, [OUTERMOST], Body)
  {
    hide Inv, Next, Enabled, Steppable, Link, Goes;
    Resumed(s9, R(201, 976, 992), [OUTERMOST, VISITOR], Pushed);
    var s10 := AfterVisit(s9, R(201, 976, 992), Pushed, Resume);
    VisitMoved(s10);
    var s11 := AfterVisit(s10, R(201, 976, 992), Pushed, Step(MovRbp));
    VisitHasLeft(s11);
    var s12 := AfterVisit(s11, R(204, 976, 976), Body, Step(Leave));
    VisitReturned(s12);
    z := AfterVisit(s12, R(205, 984, 992), Left, Step(Ret));
    rest := LinkedVisit(s9, s10, s11, s12, z);
  }

  ghost predicate GoodStart() {
    && Inv(Start(), THE_PROGRAM) && Related(Start(), PlainStart(), THE_PROGRAM)
    && Start().w.regs.general == PlainStart().regs.general
  }

  /** The program behaves well alone for as many steps as are its own among `es`. */
  ghost predicate BehavesFor(es: seq<Event>) {
    Behaves(TheChild, PlainStart(), OwnSteps(Start(), es, THE_PROGRAM), All, THE_PROGRAM)
  }

  lemma StartMeets()
    ensures GoodStart()
  {
    StartIsGood();
  }

  lemma FiveStepsBehave(es: seq<Event>, z: Sys)
    requires Goes(Start(), es, 5, z)
    ensures BehavesFor(es)
  {
    hide Start, Behaves, Follows, RunOk, Run;
    ChildBehaves(OwnSteps(Start(), es, THE_PROGRAM));
  }

  /** The session exists: it is a debugged run of a program that behaves well alone.
      It stops in end_handler with the true return address in the trace and back on
      the stack; continued, the visit ends and the program goes on after its call. */
  lemma Session() returns (toStop: seq<Event>, stop: Sys, es: seq<Event>, z: Sys)
    ensures GoodStart() && Goes(Start(), toStop, 5, stop)
    ensures Visiting(stop.sh, 200) && stop.w.dbg.trace == [315] && Load(stop.w.mem, 984) == 315
    ensures Goes(Start(), es, 5, z) && BehavesFor(es)
    ensures z.w.regs == R(315, 992, 992) && z.sh == Shadow([OUTERMOST], Body) && !Visiting(z.sh, 200)
  {
    hide Inv, Related, Next, Enabled, Steppable, Start, PlainStart, Decided, Visiting, Obeys, Link, Goes, BehavesFor;
    StartIsGood();
    StartMeets();
    var s0 := Start();
    var s1 := WasSet();
    StepKeepsInv(s0, Set(100, 1, true), THE_PROGRAM);
    SetIsDecided(s1);
    Resumed(s1, R(310, 992, 992), [OUTERMOST], Body);
    var s2 := After(s1, R(310, 992, 992), [OUTERMOST], Body, Resume);
    Called(s2);
    var s3 := After(s2, R(310, 992, 992), [OUTERMOST], Body, Step(Call(100, 315)));
    Entered(s3);
    var s4 := After(s3, R(100, 984, 992), [OUTERMOST, Callee(false)], AtEntry, Step(PushRbp));
    Resumed(s4, R(101, 976, 992), [OUTERMOST, Callee(true)], Pushed);
    var s5 := After(s4, R(101, 976, 992), [OUTERMOST, Callee(true)], Pushed, Resume);
    Moved(s5);
    var s6 := After(s5, R(101, 976, 992), [OUTERMOST, Callee(true)], Pushed, Step(MovRbp));
    HasLeft(s6);
    var s7 := After(s6, R(104, 976, 976), [OUTERMOST, Callee(true)], Body, Step(Leave));
    Returned(s7);
    var s8 := After(s7, R(105, 984, 992), [OUTERMOST, Callee(true)], Left, Step(Ret));
    Stopped(s8);
    stop := After(s8, R(200, 992, 992), [OUTERMOST, Callee(true)], AtEnd, Step(PushRbp));
    IsVisiting(stop);
    Nothing(stop);
    toStop := Linked(s0, s1, s2, s3, s4, s5, s6, s7, s8, stop, [], stop);
    var rest;
    rest, z := VisitEndsThere(stop);
    IsBack(z);
    es := Linked(s0, s1, s2, s3, s4, s5, s6, s7, s8, stop, rest, z);
    FiveStepsBehave(es, z);
  }
}
