/** Whole runs of a debugged child: the calling convention it obeys, the shadow
    call stack that explains its memory, and the invariant every step keeps. */
module DebugSystem {
  import opened DebugSpec

  /** One activation.  `slot` is the address of its return-address word; while
      the activation is patched that word holds end_handler instead of `ret`. */
  datatype Frame = Frame(slot: int, ret: int, entry: int, patched: bool)

  /** Where the topmost activation is: about to execute `push %rbp`, just after
      it, in its body, after `leave`, or returned into end_handler (not yet
      trapped there). */
  datatype Phase = AtEntry | Pushed | Body | Left | AtEnd

  /** Activations outermost first. */
  datatype Shadow = Shadow(frames: seq<Frame>, phase: Phase)

  /** The first bytes of all functions, end_handler's included. */
  datatype Program = Program(entries: set<int>, endHandler: int)

  /** Function entries are more than four bytes apart: `push %rbp; mov %rsp,%rbp` is four bytes. */
  predicate GoodProgram(p: Program) {
    && p.endHandler in p.entries && END_ADDR !in p.entries
    && forall e | e in p.entries :: e + 1 !in p.entries && e + 4 !in p.entries
  }

  datatype Sys = Sys(w: World, sh: Shadow)

  datatype Event =
    | Step(insn: Insn)                                    // the child executes its next instruction
    | Set(addr: int, flag: int, haveMemory: bool)         // the debugger's requests
    | Remove(addr: int)
    | Resume

  // ---------------------------------------------------------------- the calling convention

  /** The child writes no live return address and no live saved frame pointer. */
  predicate SparesLinkage(frames: seq<Frame>, writes: map<int, int>) {
    forall i | 0 <= i < |frames| :: frames[i].slot !in writes && frames[i].slot - 8 !in writes
  }

  /** Number of activations below the outermost one of end_handler. */
  function FirstHandler(frames: seq<Frame>, endHandler: int): (k: nat)
    ensures k <= |frames|
    ensures k < |frames| ==> frames[k].entry == endHandler
    ensures forall i | 0 <= i < k :: frames[i].entry != endHandler
  {
    if frames == [] || frames[0].entry == endHandler then 0
    else 1 + FirstHandler(frames[1..], endHandler)
  }

  /** Number of activations the undebugged program has: everything from the
      outermost visit to end_handler upwards exists only under the debugger. */
  function Base(sh: Shadow, endHandler: int): (k: nat)
    ensures k <= |sh.frames|
  {
    var k := FirstHandler(sh.frames, endHandler);
    if sh.phase == AtEnd && k == |sh.frames| > 0 then k - 1 else k
  }

  predicate Visiting(sh: Shadow, endHandler: int) {
    Base(sh, endHandler) < |sh.frames|
  }

  /** Instruction `i` is one a well-nested program may execute now. */
  predicate Obeys(sh: Shadow, regs: Regs, i: Insn, p: Program) {
    && sh.frames != []
    && match i
       case Call(target, ret) =>
         && sh.phase == Body && |sh.frames| < MAX_BACKTRACE
         && target in p.entries && target != p.endHandler
         && ret !in p.entries && ret != END_ADDR
       case PushRbp => sh.phase == AtEntry || sh.phase == AtEnd
       case MovRbp => sh.phase == Pushed
       case Work(after, writes) =>
         && sh.phase == Body
         && after.rbp == regs.rbp && after.rsp <= regs.rbp && after.rip !in p.entries
         && SparesLinkage(sh.frames, writes)
         && (Visiting(sh, p.endHandler) ==>
               forall a | a in writes :: a < sh.frames[Base(sh, p.endHandler)].slot)
       case Leave => sh.phase == Body && |sh.frames| > 1 && regs.rip + 1 !in p.entries
       case Ret => sh.phase == Left
  }

  /** The shadow of executing `i` for real. */
  function ShadowExec(sh: Shadow, regs: Regs, i: Insn): Shadow
    requires sh.frames != []
  {
    match i
    case Call(target, ret) => Shadow(sh.frames + [Frame(regs.rsp - 8, ret, target, false)], AtEntry)
    case PushRbp => sh.(phase := Pushed)
    case MovRbp => sh.(phase := Body)
    case Work(_, _) => sh
    case Leave => sh.(phase := Left)
    case Ret => if Last(sh.frames).patched then sh.(phase := AtEnd) else Shadow(DropLast(sh.frames), Body)
  }

  /** The shadow of a trap: an end stop turns the activation that returned into
      one of end_handler, an entry stop may patch the one being entered. */
  function ShadowTrap(sh: Shadow, w: World): Shadow
    requires sh.frames != []
  {
    if w.regs.rip == w.dbg.endHandler then
      Shadow(DropLast(sh.frames) + [Last(sh.frames).(entry := w.dbg.endHandler, patched := false)], Pushed)
    else ShadowEntry(sh, EndFlag(w.dbg.bps, w.regs.rip) != 0)
  }

  function ShadowEntry(sh: Shadow, patch: bool): Shadow
    requires sh.frames != []
  {
    Shadow(DropLast(sh.frames) + [Last(sh.frames).(patched := patch)], Pushed)
  }

  predicate Traps(w: World) {
    Byte(w.code, w.regs.rip) == INT3_OPCODE
  }

  // ---------------------------------------------------------------- steps and runs

  predicate Enabled(s: Sys, ev: Event, p: Program) {
    match ev
    case Step(i) => Active(s.w.childState) && Obeys(s.sh, s.w.regs, i, p)
    case Set(a, flag, _) =>
      Active(s.w.parentState) && a in p.entries && a != p.endHandler && (flag == 0 || flag == 1)
    case Remove(a) => Active(s.w.parentState)
    case Resume => Active(s.w.parentState)
  }

  function Executed(s: Sys, i: Insn): Sys
    requires s.sh.frames != []
  {
    Sys(s.w.(regs := ExecRegs(s.w.regs, s.w.mem, i), mem := ExecMem(s.w.regs, s.w.mem, i)),
        ShadowExec(s.sh, s.w.regs, i))
  }

  /** The handler, if it runs, stays inside its arrays. */
  predicate Steppable(s: Sys, ev: Event) {
    ev.Step? ==> s.sh.frames != [] && (Traps(s.w) ==> Int3Ready(Trapped(s.w)))
  }

  function Next(s: Sys, ev: Event): Sys
    requires Steppable(s, ev)
  {
    match ev
    case Step(i) =>
      if Traps(s.w) then Sys(Int3(Trapped(s.w)), ShadowTrap(s.sh, s.w)) else Executed(s, i)
    case Set(a, flag, haveMemory) => s.(w := SetBreakpoint(s.w, a, flag, haveMemory).0)
    case Remove(a) => s.(w := RemoveBreakpoint(s.w, a).0)
    case Resume => s.(w := Continue(s.w))
  }

  // ---------------------------------------------------------------- the invariant

  predicate FramesOk(frames: seq<Frame>, p: Program) {
    && 1 <= |frames| <= MAX_BACKTRACE
    && frames[0].ret == END_ADDR && !frames[0].patched && frames[0].entry != p.endHandler
    && (forall i | 1 <= i < |frames| :: frames[i].ret !in p.entries && frames[i].ret != END_ADDR)
    && (forall i | 0 <= i < |frames| :: frames[i].patched ==> frames[i].entry != p.endHandler)
    && (forall i, j | 0 <= i < j < |frames| :: frames[j].slot + 16 <= frames[i].slot)
  }

  function Shown(f: Frame, endHandler: int): int {
    if f.patched then endHandler else f.ret
  }

  /** Activation `i` has saved its caller's frame pointer below its return address. */
  predicate SavedBp(frames: seq<Frame>, mem: map<int, int>, i: nat)
    requires 1 <= i < |frames|
  {
    Load(mem, frames[i].slot - 8) == frames[i - 1].slot - 8
  }

  /** The child's stack holds what the shadow says: return addresses (patched or
      not) and the chain of saved frame pointers. */
  predicate StackOk(sh: Shadow, mem: map<int, int>, endHandler: int) {
    && (forall i | 0 <= i < |sh.frames| :: Load(mem, sh.frames[i].slot) == Shown(sh.frames[i], endHandler))
    && (forall i | 1 <= i < |sh.frames| ::
          (i < |sh.frames| - 1 || sh.phase == Pushed || sh.phase == Body) ==> SavedBp(sh.frames, mem, i))
  }

  predicate TopOk(sh: Shadow, regs: Regs, p: Program)
    requires sh.frames != []
  {
    var top := Last(sh.frames);
    && (sh.phase != Body ==> |sh.frames| > 1)
    && match sh.phase
       case AtEntry =>
         && regs.rip == top.entry && top.entry in p.entries && top.entry != p.endHandler && !top.patched
         && regs.rsp == top.slot && regs.rbp == sh.frames[|sh.frames| - 2].slot - 8
       case Pushed =>
         && regs.rip - 1 in p.entries
         && regs.rsp == top.slot - 8 && regs.rbp == sh.frames[|sh.frames| - 2].slot - 8
       case Body =>
         regs.rip !in p.entries && regs.rbp == top.slot - 8 && regs.rsp <= regs.rbp
       case Left =>
         && regs.rip !in p.entries
         && regs.rsp == top.slot && regs.rbp == sh.frames[|sh.frames| - 2].slot - 8
       case AtEnd =>
         && regs.rip == p.endHandler && top.patched
         && regs.rsp == top.slot + 8 && regs.rbp == sh.frames[|sh.frames| - 2].slot - 8
  }

  function PatchedRets(frames: seq<Frame>): (r: seq<int>)
    ensures |r| <= |frames|
  {
    if frames == [] then []
    else PatchedRets(DropLast(frames)) + if Last(frames).patched then [Last(frames).ret] else []
  }

  function PatchedEntries(frames: seq<Frame>): (r: seq<int>)
    ensures |r| == |PatchedRets(frames)|
  {
    if frames == [] then []
    else PatchedEntries(DropLast(frames)) + if Last(frames).patched then [Last(frames).entry] else []
  }

  /** Distinct addresses, at most MAX_BREAKPOINTS of them, strictly increasing
      numbers that are never handed out again. */
  predicate ListOk(bps: seq<Bp>, breakpointNum: int, p: Program) {
    && |bps| <= MAX_BREAKPOINTS
    && (forall i, j | 0 <= i < j < |bps| :: bps[i].addr != bps[j].addr && bps[i].num < bps[j].num)
    && (forall i | 0 <= i < |bps| ::
          && bps[i].num <= breakpointNum
          && bps[i].addr in p.entries && bps[i].addr != p.endHandler
          && (bps[i].endEnable == 0 || bps[i].endEnable == 1))
  }

  /** A function entry holds 0xCC exactly when it is listed (or is end_handler's)
      and 0x55 otherwise; no other byte is 0xCC. */
  predicate CodeOk(code: map<int, int>, bps: seq<Bp>, p: Program) {
    && (forall a | a in p.entries ::
          Byte(code, a) == if a == p.endHandler || Listed(bps, a) then INT3_OPCODE else PUSHRBP_OPCODE)
    && (forall a | a in code :: Byte(code, a) == INT3_OPCODE ==> a in p.entries)
  }

  /** The bookkeeping mirrors the patched activations, outermost first, and
      every patched function is still listed with its end breakpoint enabled. */
  predicate BooksOk(dbg: Dbg, frames: seq<Frame>) {
    && dbg.rets == PatchedRets(frames)
    && dbg.stack == PatchedEntries(frames)
    && (forall i | 0 <= i < |frames| :: frames[i].patched ==> EndFlag(dbg.bps, frames[i].entry) == 1)
  }

  predicate Inv(s: Sys, p: Program) {
    && GoodProgram(p) && s.w.dbg.endHandler == p.endHandler
    && FramesOk(s.sh.frames, p)
    && StackOk(s.sh, s.w.mem, p.endHandler)
    && TopOk(s.sh, s.w.regs, p)
    && ListOk(s.w.dbg.bps, s.w.dbg.breakpointNum, p)
    && CodeOk(s.w.code, s.w.dbg.bps, p)
    && BooksOk(s.w.dbg, s.sh.frames)
  }
}
