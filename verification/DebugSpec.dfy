/** The debugger protocol of Assignment 3 on values: what a trap, a breakpoint
    request and a continue do to the debugged child, to the debugger's
    bookkeeping and to the program text.  The class in DebugKernel.dfy carries
    the same operations out in place and is proved equal to these functions. */
module DebugSpec {
  import opened ProcessState

  const END_ADDR: int := 0x10000003B
  const INT3_OPCODE: int := 0xCC
  const PUSHRBP_OPCODE: int := 0x55
  const MAX_BACKTRACE: nat := 64
  const MAX_BREAKPOINTS: nat := 8

  /** The registers the debugger never interprets. */
  datatype General = General(r15: int, r14: int, r13: int, r12: int, r11: int, r10: int, r9: int, r8: int,
                             rdi: int, rsi: int, rdx: int, rcx: int, rbx: int, rax: int,
                             cs: int, rflags: int, ss: int)

  datatype Regs = Regs(general: General, rip: int, rsp: int, rbp: int)

  predicate Active(p: ProcState) {
    p == Ready || p == Running
  }

  datatype Bp = Bp(num: int, addr: int, endEnable: int)

  /** The debugger's bookkeeping.  `rets` and `stack` are the used parts of the
      arrays return_addr and stack, outermost activation first. */
  datatype Dbg = Dbg(bps: seq<Bp>, breakpointNum: int, endHandler: int,
                     trace: seq<int>, stack: seq<int>, rets: seq<int>, regs: Regs)

  /** `mem` is the child's stack by 8-byte word, `code` the program text by byte;
      `parentRax` is what the debugger's wait_and_continue returns. */
  datatype World = World(regs: Regs, mem: map<int, int>, childState: ProcState,
                         parentState: ProcState, parentRax: int,
                         code: map<int, int>, dbg: Dbg)

  function Load(m: map<int, int>, a: int): int {
    if a in m then m[a] else 0
  }

  function DropLast<T>(s: seq<T>): seq<T>
    requires |s| > 0
  {
    s[..|s| - 1]
  }

  function Last<T>(s: seq<T>): T
    requires |s| > 0
  {
    s[|s| - 1]
  }

  // ---------------------------------------------------------------- the stack walk

  /** The return-address words met by walking saved frame pointers from `it`
      down to END_ADDR, at most `fuel` of them. */
  function StackWords(mem: map<int, int>, it: int, bp: int, fuel: nat): seq<int>
    decreases mem, fuel
  {
    if fuel == 0 || Load(mem, it) == END_ADDR then []
    else [Load(mem, it)] + StackWords(mem, bp + 8, Load(mem, bp), fuel - 1)
  }

  /** The walk meets END_ADDR after at most `fuel` words. */
  predicate ReachesEnd(mem: map<int, int>, it: int, bp: int, fuel: nat)
    decreases mem, fuel
  {
    Load(mem, it) == END_ADDR || (fuel > 0 && ReachesEnd(mem, bp + 8, Load(mem, bp), fuel - 1))
  }

  function Patches(words: seq<int>, endHandler: int): nat {
    if words == [] then 0
    else (if words[0] == endHandler then 1 else 0) + Patches(words[1..], endHandler)
  }

  /** Each word equal to end_handler stands for the latest unused saved return address. */
  function Resolve(words: seq<int>, endHandler: int, rets: seq<int>): seq<int>
    requires Patches(words, endHandler) <= |rets|
  {
    if words == [] then []
    else if words[0] == endHandler then [Last(rets)] + Resolve(words[1..], endHandler, DropLast(rets))
    else [words[0]] + Resolve(words[1..], endHandler, rets)
  }

  /** What a stack walk started at (it, bp) needs of the state to stay inside its arrays. */
  predicate Walkable(mem: map<int, int>, it: int, bp: int, fuel: nat, endHandler: int, rets: seq<int>) {
    && ReachesEnd(mem, it, bp, fuel)
    && Patches(StackWords(mem, it, bp, fuel), endHandler) <= |rets|
  }

  /** One turn of the walk. */
  lemma WalkStep(mem: map<int, int>, it: int, bp: int, fuel: nat, endHandler: int, rets: seq<int>)
    requires Walkable(mem, it, bp, fuel, endHandler, rets) && Load(mem, it) != END_ADDR
    ensures fuel > 0 && (Load(mem, it) == endHandler ==> rets != [])
    ensures var patched := Load(mem, it) == endHandler;
            var rest := if patched then DropLast(rets) else rets;
            && Walkable(mem, bp + 8, Load(mem, bp), fuel - 1, endHandler, rest)
            && Resolve(StackWords(mem, it, bp, fuel), endHandler, rets)
               == [if patched then Last(rets) else Load(mem, it)]
                  + Resolve(StackWords(mem, bp + 8, Load(mem, bp), fuel - 1), endHandler, rest)
  {
    assert StackWords(mem, it, bp, fuel)[1..] == StackWords(mem, bp + 8, Load(mem, bp), fuel - 1);
  }

  lemma WalkEnd(mem: map<int, int>, it: int, bp: int, fuel: nat, endHandler: int, rets: seq<int>)
    requires Walkable(mem, it, bp, fuel, endHandler, rets) && Load(mem, it) == END_ADDR
    ensures Resolve(StackWords(mem, it, bp, fuel), endHandler, rets) == []
  {
  }

  // ---------------------------------------------------------------- the breakpoint list

  function Find(bps: seq<Bp>, addr: int): (k: nat)
    ensures k <= |bps|
    ensures k < |bps| ==> bps[k].addr == addr
    ensures forall i | 0 <= i < k :: bps[i].addr != addr
  {
    if bps == [] || bps[0].addr == addr then 0
    else 1 + Find(bps[1..], addr)
  }

  predicate Listed(bps: seq<Bp>, addr: int) {
    Find(bps, addr) < |bps|
  }

  function EndFlag(bps: seq<Bp>, addr: int): int {
    if Listed(bps, addr) then bps[Find(bps, addr)].endEnable else 0
  }

  function SetBreakpoint(w: World, addr: int, flag: int, haveMemory: bool): (World, int) {
    var k := Find(w.dbg.bps, addr);
    if k < |w.dbg.bps| then
      if addr in w.dbg.stack && w.dbg.bps[k].endEnable == 1 && flag == 0 then (w, -1)
      else (w.(dbg := w.dbg.(bps := w.dbg.bps[k := w.dbg.bps[k].(endEnable := flag)])), 0)
    else if |w.dbg.bps| >= MAX_BREAKPOINTS || !haveMemory then (w, -1)
    else
      var num := w.dbg.breakpointNum + 1;
      (w.(dbg := w.dbg.(bps := w.dbg.bps + [Bp(num, addr, flag)], breakpointNum := num),
          code := w.code[addr := INT3_OPCODE]), 0)
  }

  function RemoveBreakpoint(w: World, addr: int): (World, int) {
    var k := Find(w.dbg.bps, addr);
    if k == |w.dbg.bps| then (w, -1)
    else if addr in w.dbg.stack && w.dbg.bps[k].endEnable != 0 then (w, -1)
    else
      (w.(dbg := w.dbg.(bps := w.dbg.bps[..k] + w.dbg.bps[k + 1..]),
          code := w.code[addr := PUSHRBP_OPCODE]), 0)
  }

  // ---------------------------------------------------------------- traps and continue

  /** The handler's stops put the child to sleep and hand the processor to the debugger. */
  function HandOver(w: World, rax: int): World {
    w.(childState := Waiting, parentState := Running, parentRax := rax)
  }

  predicate EndStopReady(w: World) {
    && w.dbg.rets != [] && w.dbg.stack != []
    && Walkable(w.mem[w.regs.rsp - 8 := Last(w.dbg.rets)], w.regs.rsp - 8, w.regs.rbp, MAX_BACKTRACE,
                w.dbg.endHandler, DropLast(w.dbg.rets))
  }

  /** A function has returned into end_handler: restore the return address,
      store the trace, emulate end_handler's own push. */
  function EndStopStoring(w: World, trace: seq<int>): World
    requires w.dbg.rets != [] && w.dbg.stack != []
  {
    var sp := w.regs.rsp - 8;
    var mem := w.mem[sp := Last(w.dbg.rets)];
    var dbg := w.dbg.(stack := DropLast(w.dbg.stack), rets := DropLast(w.dbg.rets), trace := trace,
                      regs := w.regs.(rip := w.regs.rip - 1, rsp := sp));
    HandOver(w.(regs := w.regs.(rsp := sp - 8), mem := mem[sp - 8 := w.regs.rbp], dbg := dbg), w.regs.rip - 1)
  }

  /** The walk behind an end stop sees the restored return address. */
  function EndTrace(w: World): seq<int>
    requires EndStopReady(w)
  {
    Resolve(StackWords(w.mem[w.regs.rsp - 8 := Last(w.dbg.rets)], w.regs.rsp - 8, w.regs.rbp, MAX_BACKTRACE),
            w.dbg.endHandler, DropLast(w.dbg.rets))
  }

  predicate EntryStopReady(w: World) {
    && Walkable(w.mem, w.regs.rsp, w.regs.rbp, MAX_BACKTRACE - 1, w.dbg.endHandler, w.dbg.rets)
    && |w.dbg.rets| < MAX_BACKTRACE && |w.dbg.stack| < MAX_BACKTRACE
  }

  /** A breakpointed function is entered: store the trace, patch the return
      address when the end breakpoint is enabled, emulate the push. */
  function EntryStopStoring(w: World, trace: seq<int>, patch: bool): World {
    var addr := w.regs.rip - 1;
    var sp := w.regs.rsp;
    var seen := w.dbg.(trace := trace, regs := w.regs.(rip := addr));
    var dbg := if patch then seen.(stack := seen.stack + [addr], rets := seen.rets + [Load(w.mem, sp)]) else seen;
    var mem := if patch then w.mem[sp := w.dbg.endHandler] else w.mem;
    HandOver(w.(regs := w.regs.(rsp := sp - 8), mem := mem[sp - 8 := w.regs.rbp], dbg := dbg), addr)
  }

  function EntryTrace(w: World): seq<int>
    requires EntryStopReady(w)
  {
    [w.regs.rip - 1]
    + Resolve(StackWords(w.mem, w.regs.rsp, w.regs.rbp, MAX_BACKTRACE - 1), w.dbg.endHandler, w.dbg.rets)
  }

  predicate Int3Ready(w: World) {
    if w.regs.rip - 1 == w.dbg.endHandler then EndStopReady(w) else EntryStopReady(w)
  }

  function Int3(w: World): World
    requires Int3Ready(w)
  {
    if w.regs.rip - 1 == w.dbg.endHandler then EndStopStoring(w, EndTrace(w))
    else EntryStopStoring(w, EntryTrace(w), EndFlag(w.dbg.bps, w.regs.rip - 1) != 0)
  }

  function Continue(w: World): World {
    w.(parentState := Waiting, childState := Running)
  }

  function Byte(code: map<int, int>, a: int): int {
    if a in code then code[a] else 0
  }

  /** Fetching the byte 0xCC leaves rip one past it and enters the handler. */
  function Trapped(w: World): World {
    w.(regs := w.regs.(rip := w.regs.rip + 1))
  }

  // ---------------------------------------------------------------- the child's instructions

  datatype Insn =
    | Call(target: int, ret: int)
    | PushRbp
    | MovRbp
    | Work(after: Regs, writes: map<int, int>)   // any computation inside one activation
    | Leave
    | Ret

  function ExecRegs(r: Regs, mem: map<int, int>, i: Insn): Regs {
    match i
    case Call(target, ret) => r.(rsp := r.rsp - 8, rip := target)
    case PushRbp => r.(rsp := r.rsp - 8, rip := r.rip + 1)
    case MovRbp => r.(rbp := r.rsp, rip := r.rip + 3)
    case Work(after, writes) => after
    case Leave => r.(rsp := r.rbp + 8, rbp := Load(mem, r.rbp), rip := r.rip + 1)
    case Ret => r.(rip := Load(mem, r.rsp), rsp := r.rsp + 8)
  }

  function ExecMem(r: Regs, mem: map<int, int>, i: Insn): map<int, int> {
    match i
    case Call(target, ret) => mem[r.rsp - 8 := ret]
    case PushRbp => mem[r.rsp - 8 := r.rbp]
    case Work(after, writes) => mem + writes
    case _ => mem
  }
}
