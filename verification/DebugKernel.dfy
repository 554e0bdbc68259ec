/** The debugger as the kernel keeps it: a linked list of breakpoints, three
    fixed-size arrays and the contexts of the debugger and its child, changed in
    place.  Every operation is proved to have the effect DebugSpec states. */
module DebugKernel {
  import opened DebugSpec
  import opened ProcessState

  /** A node of the breakpoint list. */
  class BreakpointInfo {
    var num: int
    var addr: int
    var endEnable: int
    var next: BreakpointInfo?

    constructor (num: int, addr: int, endEnable: int)
      ensures this.num == num && this.addr == addr && this.endEnable == endEnable && next == null
    {
      this.num, this.addr, this.endEnable, this.next := num, addr, endEnable, null;
    }

    ghost function AsBp(): Bp
      reads this
    {
      Bp(num, addr, endEnable)
    }
  }

  /** The part of an execution context the debugger touches. */
  class ExecContext {
    var regs: Regs
    var state: ProcState

    constructor (regs: Regs, state: ProcState)
      ensures this.regs == regs && this.state == state
    {
      this.regs, this.state := regs, state;
    }
  }

  ghost function AsBps(nodes: seq<BreakpointInfo>): (bps: seq<Bp>)
    reads nodes
    ensures |bps| == |nodes|
    ensures forall i | 0 <= i < |nodes| :: bps[i] == nodes[i].AsBp()
  {
    seq(|nodes|, i requires 0 <= i < |nodes| reads nodes => nodes[i].AsBp())
  }

  /** `nodes` are the nodes met from `head` on, in order. */
  ghost predicate IsList(head: BreakpointInfo?, nodes: seq<BreakpointInfo>)
    reads nodes
  {
    && head == (if nodes == [] then null else nodes[0])
    && (forall i {:trigger nodes[i].next} | 0 <= i < |nodes| ::
          nodes[i].next == if i + 1 < |nodes| then nodes[i + 1] else null)
    && (forall i, j | 0 <= i < j < |nodes| :: nodes[i] != nodes[j])
  }

  lemma Shift(a: seq<int>, x: int, b: seq<int>)
    ensures a + ([x] + b) == (a + [x]) + b
  {
  }

  class Debugger {
    const parent: ExecContext
    const child: ExecContext
    var mem: map<int, int>          // the child's stack
    var code: map<int, int>         // the program text both processes execute
    var endHandler: int
    var head: BreakpointInfo?
    var breakpointNum: int
    var breakpointCount: int
    var regs: Regs
    const trace: array<int>
    var traceSize: int
    const stack: array<int>
    var stackSize: int
    const returnAddr: array<int>
    var retSize: int

    ghost var nodes: seq<BreakpointInfo>

    ghost predicate ArraysOk()
      reads this`traceSize, this`stackSize, this`retSize
    {
      && parent != child
      && trace.Length == stack.Length == returnAddr.Length == MAX_BACKTRACE
      && trace != stack && trace != returnAddr && stack != returnAddr
      && 0 <= traceSize <= MAX_BACKTRACE && 0 <= stackSize <= MAX_BACKTRACE && 0 <= retSize <= MAX_BACKTRACE
    }

    ghost predicate ListOk()
      reads this`breakpointCount, this`head, this`nodes, nodes
    {
      breakpointCount == |nodes| && IsList(head, nodes)
    }

    ghost predicate Valid()
      reads this, nodes
    {
      ArraysOk() && ListOk()
    }

    ghost function Books(): Dbg
      requires Valid()
      reads this, nodes, trace, stack, returnAddr
    {
      Dbg(AsBps(nodes), breakpointNum, endHandler, trace[..traceSize], stack[..stackSize], returnAddr[..retSize], regs)
    }

    ghost function View(): World
      requires Valid()
      reads this, nodes, trace, stack, returnAddr, parent, child
    {
      World(child.regs, mem, child.state, parent.state, parent.regs.general.rax, code, Books())
    }

    /** become_debugger in a process about to fork `child`. */
    constructor (parent: ExecContext, child: ExecContext, mem: map<int, int>, code: map<int, int>,
                 endHandler: int, blank: Regs)
      requires parent != child
      ensures Valid() && this.parent == parent && this.child == child
      ensures fresh(trace) && fresh(stack) && fresh(returnAddr) && nodes == []
      ensures View() == World(child.regs, mem, child.state, parent.state, parent.regs.general.rax,
                              code[endHandler := INT3_OPCODE], Dbg([], 0, endHandler, [], [], [], blank))
    {
      this.parent, this.child, this.mem := parent, child, mem;
      this.code := code[endHandler := INT3_OPCODE];
      this.endHandler, head, breakpointNum, breakpointCount := endHandler, null, 0, 0;
      regs := blank;
      trace, stack, returnAddr := new int[MAX_BACKTRACE], new int[MAX_BACKTRACE], new int[MAX_BACKTRACE];
      traceSize, stackSize, retSize := 0, 0, 0;
      nodes := [];
    }

    /** copy_stack: walk the saved frame pointers, undoing patched return addresses. */
    method CopyStack(hitFromEnd: bool, ghost fuel: nat)
      requires ArraysOk()
      requires fuel == if hitFromEnd then MAX_BACKTRACE else MAX_BACKTRACE - 1
      requires Walkable(mem, child.regs.rsp, child.regs.rbp, fuel, endHandler, returnAddr[..retSize])
      modifies this`traceSize, trace
      ensures ArraysOk()
      ensures trace[..traceSize] ==
                (if hitFromEnd then [] else [child.regs.rip - 1])
                + Resolve(StackWords(mem, child.regs.rsp, child.regs.rbp, fuel), endHandler, returnAddr[..retSize])
    {
      hide Patches, ReachesEnd, StackWords, Resolve;
      var cnt := 0;
      if !hitFromEnd {
        trace[0] := child.regs.rip - 1;
        cnt := 1;
      }
      var idx := retSize - 1;
      var bp, it := child.regs.rbp, child.regs.rsp;
      ghost var left := fuel;
      ghost var first := trace[..cnt];
      ghost var all := Resolve(StackWords(mem, it, bp, left), endHandler, returnAddr[..idx + 1]);
      assert first + all == trace[..cnt] + all;
      while Load(mem, it) != END_ADDR
        invariant 0 <= cnt <= MAX_BACKTRACE && left == MAX_BACKTRACE - cnt
        invariant -1 <= idx < retSize
        invariant Walkable(mem, it, bp, left, endHandler, returnAddr[..idx + 1])
        invariant first + all
               == trace[..cnt] + Resolve(StackWords(mem, it, bp, left), endHandler, returnAddr[..idx + 1])
        decreases left
      {
        ghost var done, rest := trace[..cnt], Resolve(StackWords(mem, it, bp, left), endHandler, returnAddr[..idx + 1]);
        WalkStep(mem, it, bp, left, endHandler, returnAddr[..idx + 1]);
        if Load(mem, it) == endHandler {
          trace[cnt] := returnAddr[idx];
          assert returnAddr[..idx] == DropLast(returnAddr[..idx + 1]);
          idx := idx - 1;
        } else {
          trace[cnt] := Load(mem, it);
        }
        assert trace[..cnt + 1] == done + [trace[cnt]];
        Shift(done, trace[cnt], rest[1..]);
        cnt := cnt + 1;
        left := left - 1;
        it := bp + 8;
        bp := Load(mem, bp);
      }
      WalkEnd(mem, it, bp, left, endHandler, returnAddr[..idx + 1]);
      assert trace[..cnt] + [] == trace[..cnt];
      traceSize := cnt;
    }

    /** Whether `addr` is on the stack array. */
    method OnStack(addr: int) returns (found: bool)
      requires Valid()
      ensures found == (addr in stack[..stackSize])
    {
      found := false;
      var i := 0;
      while i < stackSize
        invariant 0 <= i <= stackSize
        invariant addr !in stack[..i]
      {
        if stack[i] == addr {
          return true;
        }
        i := i + 1;
      }
    }

    /** The first node for `addr`, or null. */
    method Lookup(addr: int) returns (it: BreakpointInfo?, ghost k: nat)
      requires Valid()
      ensures k == Find(AsBps(nodes), addr)
      ensures var f := Find(AsBps(nodes), addr); it == if f < |nodes| then nodes[f] else null
    {
      it, k := head, 0;
      while it != null
        invariant k <= |nodes| && it == (if k < |nodes| then nodes[k] else null)
        invariant forall i | 0 <= i < k :: nodes[i].addr != addr
        decreases |nodes| - k
      {
        if it.addr == addr {
          break;
        }
        assert nodes[k].next == it.next;
        it, k := it.next, k + 1;
      }
    }

    /** int3_handler, entered with the child's rip one past the byte 0xCC. */
    method Int3Handler()
      requires Valid() && Int3Ready(View())
      modifies `regs, `mem, `traceSize, `stackSize, `retSize, trace, stack, returnAddr, parent, child
      ensures Valid()
      ensures View() == Int3(old(View()))
    {
      hide StackWords, Resolve, ReachesEnd, Patches, Find, EndFlag, IsList, AsBps, EntryTrace, EndTrace;
      var addr := child.regs.rip - 1;
      ghost var was := View();
      if endHandler == addr {
        StopAtEnd(was);
        assert Books() == EndStopStoring(was, EndTrace(was)).dbg;
        HandOver(addr);
      } else {
        var flag := FlagOf(addr);
        StopAtEntry(addr, flag, was);
        assert Books() == EntryStopStoring(was, EntryTrace(was), flag != 0).dbg;
        HandOver(addr);
      }
    }

    /** The stop's last act: the child waits, the debugger runs with the stop's
        address as the result of its wait_and_continue. */
    method HandOver(rax: int)
      requires Valid()
      modifies parent, child`state
      ensures View() == DebugSpec.HandOver(old(View()), rax)
    {
      parent.regs := parent.regs.(general := parent.regs.general.(rax := rax));
      child.state := Waiting;
      parent.state := Running;      // made READY and scheduled
    }

    /** The handler's first branch: a function returned into end_handler. */
    method StopAtEnd(ghost was: World)
      requires Valid() && was == View() && EndStopReady(was)
      modifies `regs, `mem, `traceSize, `stackSize, `retSize, trace, stack, returnAddr, child
      ensures ArraysOk()
      ensures var stop := EndStopStoring(was, EndTrace(was));
              && child.regs == stop.regs && mem == stop.mem && child.state == was.childState
              && regs == stop.dbg.regs && trace[..traceSize] == stop.dbg.trace
              && stack[..stackSize] == stop.dbg.stack && returnAddr[..retSize] == stop.dbg.rets
    {
      hide IsList, Find, EndFlag, AsBps;
      regs := child.regs.(rip := child.regs.rip - 1, rsp := child.regs.rsp - 8);
      RestoreReturn(was.dbg);
      CopyStack(true, MAX_BACKTRACE);
      assert trace[..traceSize] == EndTrace(was);
      hide StackWords, Resolve, ReachesEnd, Patches, IsList, EntryTrace, EndTrace;
      EmulatePush();
    }

    /** Take the latest patched activation off the arrays and put its true
        return address back below the stack pointer. */
    method RestoreReturn(ghost books: Dbg)
      requires ArraysOk() && stackSize > 0 && retSize > 0
      requires stack[..stackSize] == books.stack && returnAddr[..retSize] == books.rets
      modifies this`mem, this`stackSize, this`retSize, stack, returnAddr, child
      ensures ArraysOk()
      ensures stack[..stackSize] == DropLast(books.stack) && returnAddr[..retSize] == DropLast(books.rets)
      ensures child.regs == old(child.regs.(rsp := child.regs.rsp - 8)) && child.state == old(child.state)
      ensures mem == old(mem[child.regs.rsp - 8 := Last(books.rets)])
    {
      stackSize := stackSize - 1;
      stack[stackSize] := 0;
      child.regs := child.regs.(rsp := child.regs.rsp - 8);
      retSize := retSize - 1;
      mem := mem[child.regs.rsp := returnAddr[retSize]];
      returnAddr[retSize] := 0;
    }

    /** Carry out the `push %rbp` the byte 0xCC stands for. */
    method EmulatePush()
      modifies this`mem, child
      ensures child.regs == old(child.regs.(rsp := child.regs.rsp - 8)) && child.state == old(child.state)
      ensures mem == old(mem[child.regs.rsp - 8 := child.regs.rbp])
    {
      child.regs := child.regs.(rsp := child.regs.rsp - 8);
      mem := mem[child.regs.rsp := child.regs.rbp];
    }

    /** Whether the end breakpoint of the function at `addr` is enabled. */
    method FlagOf(addr: int) returns (flag: int)
      requires Valid()
      ensures flag == EndFlag(AsBps(nodes), addr)
    {
      var it, k := Lookup(addr);
      flag := if it != null then it.endEnable else 0;
    }

    /** The handler's second branch: a breakpointed function is entered. */
    method StopAtEntry(addr: int, flag: int, ghost was: World)
      requires Valid() && was == View() && EntryStopReady(was) && addr == child.regs.rip - 1
      modifies `regs, `mem, `traceSize, `stackSize, `retSize, trace, stack, returnAddr, child
      ensures ArraysOk()
      ensures var stop := EntryStopStoring(was, EntryTrace(was), flag != 0);
              && child.regs == stop.regs && mem == stop.mem && child.state == was.childState
              && regs == stop.dbg.regs && trace[..traceSize] == stop.dbg.trace
              && stack[..stackSize] == stop.dbg.stack && returnAddr[..retSize] == stop.dbg.rets
    {
      hide IsList, Find, EndFlag, AsBps;
      regs := child.regs.(rip := child.regs.rip - 1);
      CopyStack(false, MAX_BACKTRACE - 1);
      assert trace[..traceSize] == EntryTrace(was);
      hide StackWords, Resolve, ReachesEnd, Patches, IsList, EntryTrace, EndTrace;
      PatchReturn(addr, flag, was.dbg);
      EmulatePush();
    }

    /** If its end breakpoint is enabled, record the activation being entered
        and make it return into end_handler. */
    method PatchReturn(addr: int, flag: int, ghost books: Dbg)
      requires ArraysOk() && stackSize < MAX_BACKTRACE && retSize < MAX_BACKTRACE
      requires stack[..stackSize] == books.stack && returnAddr[..retSize] == books.rets
      modifies `mem, `stackSize, `retSize, stack, returnAddr
      ensures ArraysOk()
      ensures stack[..stackSize] == books.stack + if flag != 0 then [addr] else []
      ensures returnAddr[..retSize] == books.rets + if flag != 0 then [Load(old(mem), child.regs.rsp)] else []
      ensures mem == if flag != 0 then old(mem)[child.regs.rsp := endHandler] else old(mem)
    {
      if flag != 0 {
        stack[stackSize] := addr;
        stackSize := stackSize + 1;
        returnAddr[retSize] := Load(mem, child.regs.rsp);
        retSize := retSize + 1;
        mem := mem[child.regs.rsp := endHandler];
      }
    }

    /** do_set_breakpoint; `haveMemory` says whether a node can be allocated. */
    method SetBreakpoint(addr: int, flag: int, haveMemory: bool) returns (r: int)
      requires Valid()
      modifies `head, `nodes, `breakpointNum, `breakpointCount, `code, nodes
      ensures Valid() && forall n | n in nodes && n !in old(nodes) :: fresh(n)
      ensures (View(), r) == DebugSpec.SetBreakpoint(old(View()), addr, flag, haveMemory)
    {
      hide Find, IsList, AsBps;
      var onStack := OnStack(addr);
      var it, k := Lookup(addr);
      if it != null {
        r := ChangeFlag(it, k, onStack, flag);
      } else if breakpointCount >= MAX_BREAKPOINTS || !haveMemory {
        r := -1;
      } else {
        AddBreakpoint(addr, flag);
        r := 0;
      }
    }

    /** The address already has a breakpoint: change its flag, unless that would
        disable an end breakpoint still awaited. */
    method ChangeFlag(it: BreakpointInfo, ghost k: nat, onStack: bool, flag: int) returns (r: int)
      requires Valid() && k < |nodes| && it == nodes[k]
      modifies it`endEnable
      ensures Valid()
      ensures var w, bp := old(View()), old(AsBps(nodes)[k]);
              if onStack && bp.endEnable == 1 && flag == 0 then r == -1 && View() == w
              else r == 0 && View() == w.(dbg := w.dbg.(bps := w.dbg.bps[k := bp.(endEnable := flag)]))
    {
      if onStack {
        if it.endEnable == 1 && flag == 0 {
          return -1;
        }
      }
      it.endEnable := flag;
      return 0;
    }

    /** The address has no breakpoint yet: number it, write INT3 and list it. */
    method AddBreakpoint(addr: int, flag: int)
      requires Valid()
      modifies this`breakpointNum, this`breakpointCount, this`code, this`head, this`nodes, nodes
      ensures Valid() && forall n | n in nodes && n !in old(nodes) :: fresh(n)
      ensures var w, num := old(View()), old(breakpointNum) + 1;
              View() == w.(dbg := w.dbg.(bps := w.dbg.bps + [Bp(num, addr, flag)], breakpointNum := num),
                           code := w.code[addr := INT3_OPCODE])
    {
      hide IsList, AsBps;
      breakpointNum := breakpointNum + 1;
      breakpointCount := breakpointCount + 1;
      code := code[addr := INT3_OPCODE];
      NewNode(breakpointNum, addr, flag);
    }

    /** A new node becomes the last of the list. */
    method NewNode(num: int, addr: int, flag: int)
      requires IsList(head, nodes)
      modifies this`head, this`nodes, nodes
      ensures IsList(head, nodes) && forall n | n in nodes && n !in old(nodes) :: fresh(n)
      ensures AsBps(nodes) == old(AsBps(nodes)) + [Bp(num, addr, flag)]
    {
      hide IsList, AsBps;
      var curr := new BreakpointInfo(num, addr, flag);
      AppendNode(curr);
    }

    /** Hang `curr` behind the last node. */
    method AppendNode(curr: BreakpointInfo)
      requires IsList(head, nodes) && curr !in nodes && curr.next == null
      modifies this`head, this`nodes, nodes
      ensures nodes == old(nodes) + [curr] && IsList(head, nodes)
      ensures AsBps(nodes) == old(AsBps(nodes)) + [old(curr.AsBp())]
    {
      if head == null {
        head := curr;
      } else {
        var it := head;
        ghost var i := 0;
        while it.next != null
          invariant 0 <= i < |nodes| && it == nodes[i]
          decreases |nodes| - i
        {
          assert nodes[i].next == it.next;
          it, i := it.next, i + 1;
        }
        assert i == |nodes| - 1 by { assert nodes[i].next == null; }
        it.next := curr;
      }
      nodes := nodes + [curr];
    }

    /** do_remove_breakpoint */
    method RemoveBreakpoint(addr: int) returns (r: int)
      requires Valid()
      modifies `head, `nodes, `breakpointCount, `code, nodes
      ensures Valid()
      ensures (View(), r) == DebugSpec.RemoveBreakpoint(old(View()), addr)
    {
      hide Find, IsList, AsBps;
      var it, k := Lookup(addr);
      if it == null {
        return -1;
      }
      var onStack := OnStack(addr);
      if onStack {
        if it.endEnable != 0 {
          return -1;
        }
      }
      DropBreakpoint(addr, it, k);
      return 0;
    }

    method DropBreakpoint(addr: int, it: BreakpointInfo, ghost k: nat)
      requires Valid() && k < |nodes| && it == nodes[k]
      modifies this`breakpointCount, this`code, this`head, this`nodes, nodes
      ensures Valid()
      ensures code == old(code)[addr := PUSHRBP_OPCODE]
      ensures AsBps(nodes) == old(AsBps(nodes)[..k] + AsBps(nodes)[k + 1..])
    {
      hide IsList, AsBps;
      code := code[addr := PUSHRBP_OPCODE];
      breakpointCount := breakpointCount - 1;
      UnlinkNode(it, k);
    }

    /** Take the k-th node out of the list. */
    method UnlinkNode(it: BreakpointInfo, ghost k: nat)
      requires IsList(head, nodes) && k < |nodes| && it == nodes[k]
      modifies this`head, this`nodes, nodes
      ensures nodes == old(nodes)[..k] + old(nodes)[k + 1..] && IsList(head, nodes)
      ensures AsBps(nodes) == old(AsBps(nodes)[..k] + AsBps(nodes)[k + 1..])
    {
      assert nodes[k].next == it.next;
      if it == head {
        head := it.next;
        it.next := null;
      } else {
        var it2 := head;
        ghost var i := 0;
        while it2.next != it
          invariant 0 <= i < k && it2 == nodes[i]
          decreases k - i
        {
          assert nodes[i].next == it2.next;
          it2, i := it2.next, i + 1;
        }
        assert i == k - 1 by { assert nodes[i].next == nodes[i + 1]; }
        it2.next := it.next;
        it.next := null;
      }
      nodes := nodes[..k] + nodes[k + 1..];
    }

    /** do_info_breakpoints: the whole list, in order. */
    method InfoBreakpoints(ubp: array<Bp>) returns (cnt: nat)
      requires Valid() && ubp.Length >= |nodes|
      modifies ubp
      ensures cnt == |View().dbg.bps| && ubp[..cnt] == View().dbg.bps
      ensures ubp[cnt..] == old(ubp[cnt..])
    {
      cnt := 0;
      var it := head;
      while it != null
        invariant cnt <= |nodes| && it == (if cnt < |nodes| then nodes[cnt] else null)
        invariant forall i | 0 <= i < cnt :: ubp[i] == nodes[i].AsBp()
        invariant forall i | cnt <= i < ubp.Length :: ubp[i] == old(ubp[i])
        decreases |nodes| - cnt
      {
        ubp[cnt] := Bp(it.num, it.addr, it.endEnable);
        assert nodes[cnt].next == it.next;
        it, cnt := it.next, cnt + 1;
      }
    }

    /** do_backtrace */
    method Backtrace(buf: array<int>) returns (n: int)
      requires Valid() && buf.Length >= traceSize && buf != trace && buf != stack && buf != returnAddr
      modifies buf
      ensures n == |View().dbg.trace| && buf[..n] == View().dbg.trace && buf[n..] == old(buf[n..])
    {
      var i := 0;
      while i < traceSize
        invariant 0 <= i <= traceSize
        invariant buf[..i] == trace[..i] && buf[i..] == old(buf[i..])
      {
        buf[i] := trace[i];
        i := i + 1;
      }
      return traceSize;
    }

    /** do_wait_and_continue once the child has been found. */
    method WaitAndContinue()
      requires Valid()
      modifies parent`state, child`state
      ensures Valid() && View() == Continue(old(View()))
    {
      parent.state := Waiting;
      child.state := Running;       // made READY and scheduled
    }

    /** debugger_on_exit of the debugger: every node is unlinked and released,
        each exactly once, in list order. */
    method ReleaseAll() returns (ghost released: seq<BreakpointInfo>)
      requires Valid()
      modifies nodes
      ensures released == nodes && forall i | 0 <= i < |nodes| :: nodes[i].next == null
    {
      hide BreakpointInfo.AsBp;
      var curr := head;
      ghost var k := 0;
      while curr != null
        invariant k <= |nodes| && curr == if k < |nodes| then nodes[k] else null
        invariant forall i {:trigger nodes[i].next} | 0 <= i < k :: nodes[i].next == null
        invariant forall i {:trigger nodes[i].next} | k <= i < |nodes| ::
                    nodes[i].next == if i + 1 < |nodes| then nodes[i + 1] else null
        decreases |nodes| - k
      {
        assert nodes[k].next == curr.next;
        var next := curr.next;
        curr.next := null;
        curr, k := next, k + 1;
      }
      released := nodes[..k];
    }
  }
}
