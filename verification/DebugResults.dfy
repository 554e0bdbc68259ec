/** What a user of the debugger relies on, stated over the states a debugged run
    can reach: it starts well, never gets stuck, shows true backtraces, refuses
    exactly the requests it must, and never reuses a breakpoint number. */
module DebugResults {
  import opened DebugSpec
  import opened ProcessState
  import opened DebugSystem
  import opened DebugInvariant
  import opened DebugTransparency

  // ---------------------------------------------------------------- the start

  /** become_debugger followed by fork: end_handler's first byte becomes 0xCC,
      the books are empty, the child sleeps until it is continued. */
  function BecomeDebugger(w: World, endHandler: int, blank: Regs): World {
    w.(code := w.code[endHandler := INT3_OPCODE], childState := Waiting,
       dbg := Dbg([], 0, endHandler, [], [], [], blank))
  }

  /** The program text as compiled: every function starts with `push %rbp`, no byte is 0xCC. */
  predicate PlainCode(code: map<int, int>, p: Program) {
    && (forall a | a in p.entries :: Byte(code, a) == PUSHRBP_OPCODE)
    && (forall a | a in code :: Byte(code, a) != INT3_OPCODE)
  }

  lemma {:induction false} NothingPatched(frames: seq<Frame>)
    requires forall i | 0 <= i < |frames| :: !frames[i].patched
    ensures PatchedRets(frames) == [] && PatchedEntries(frames) == []
  {
    if frames != [] {
      NothingPatched(DropLast(frames));
    }
  }

  /** A child forked by a new debugger is related to the same program running alone. */
  lemma StartIsRelated(w: World, sh: Shadow, live: set<int>, blank: Regs, p: Program)
    requires GoodProgram(p) && PlainCode(w.code, p) && FramesOk(sh.frames, p) && StackOk(sh, w.mem, p.endHandler)
    requires sh.phase == Body && TopOk(sh, w.regs, p)
    requires forall i | 0 <= i < |sh.frames| :: !sh.frames[i].patched && sh.frames[i].entry != p.endHandler
    requires LinkageLive(sh.frames, Body, w.mem, live) && forall a | a in live :: a >= w.regs.rsp
    ensures Inv(Sys(BecomeDebugger(w, p.endHandler, blank), sh), p)
    ensures Related(Sys(BecomeDebugger(w, p.endHandler, blank), sh), Plain(w.regs, w.mem, sh, live), p)
  {
    NothingPatched(sh.frames);
    FirstHandlerIs(sh.frames, p.endHandler, |sh.frames|);
  }

  // ---------------------------------------------------------------- runs do not get stuck

  /** Whatever the child and the debugger may do after a run, the handler can
      carry it out: the run extends by that step. */
  lemma {:induction false} NeverStuck(s: Sys, es: seq<Event>, ev: Event, p: Program)
    requires Inv(s, p) && RunOk(s, es, p) && Enabled(Run(s, es, p), ev, p)
    ensures RunOk(s, es + [ev], p) && Steppable(Run(s, es, p), ev)
    ensures Run(s, es + [ev], p) == Next(Run(s, es, p), ev)
    decreases |es|
  {
    hide Inv, Enabled, Next, Steppable;
    if es == [] {
      StepKeepsInv(s, ev, p);
      assert ([] + [ev])[1..] == [];
    } else {
      StepKeepsInv(s, es[0], p);
      NeverStuck(Next(s, es[0]), es[1..], ev, p);
      assert (es + [ev])[1..] == es[1..] + [ev];
    }
  }

  // ---------------------------------------------------------------- backtraces

  /** The stack as it would be had no return address ever been patched. */
  function TrueStack(frames: seq<Frame>, mem: map<int, int>): map<int, int> {
    if frames == [] then mem
    else TrueStack(DropLast(frames), mem)[Last(frames).slot := Last(frames).ret]
  }

  function Unpatched(frames: seq<Frame>): (r: seq<Frame>)
    ensures |r| == |frames|
  {
    seq(|frames|, i requires 0 <= i < |frames| => frames[i].(patched := false))
  }

  lemma {:induction false} TrueStackAt(frames: seq<Frame>, mem: map<int, int>, a: int)
    requires forall i, j | 0 <= i < j < |frames| :: frames[j].slot + 16 <= frames[i].slot
    ensures forall i | 0 <= i < |frames| :: Load(TrueStack(frames, mem), frames[i].slot) == frames[i].ret
    ensures (forall i | 0 <= i < |frames| :: frames[i].slot != a) ==> Load(TrueStack(frames, mem), a) == Load(mem, a)
  {
    if frames != [] {
      TrueStackAt(DropLast(frames), mem, a);
      forall i | 0 <= i < |frames| - 1 ensures Load(TrueStack(frames, mem), frames[i].slot) == frames[i].ret {
        assert DropLast(frames)[i] == frames[i];
        assert frames[|frames| - 1].slot + 16 <= frames[i].slot;
      }
    }
  }

  lemma TrueStackChained(frames: seq<Frame>, mem: map<int, int>, p: Program)
    requires FramesOk(frames, p) && forall k | 1 <= k < |frames| - 1 :: SavedBp(frames, mem, k)
    ensures Chained(Unpatched(frames), TrueStack(frames, mem), p.endHandler)
  {
    var us := Unpatched(frames);
    TrueStackAt(frames, mem, 0);
    forall k | 0 <= k < |frames| - 1
      ensures Load(TrueStack(frames, mem), frames[k].slot - 8) == Load(mem, frames[k].slot - 8)
    {
      forall i | 0 <= i < |frames| ensures frames[i].slot != frames[k].slot - 8 {
        assert i < k ==> frames[k].slot + 16 <= frames[i].slot;
        assert k < i ==> frames[i].slot + 16 <= frames[k].slot;
      }
      TrueStackAt(frames, mem, frames[k].slot - 8);
    }
    forall i | 0 <= i < |us|
      ensures Load(TrueStack(frames, mem), us[i].slot) == Shown(us[i], p.endHandler)
    {
      assert us[i] == frames[i].(patched := false);
    }
    SavedCarryOver(frames, us, mem, TrueStack(frames, mem), if |frames| > 0 then |frames| - 1 else 0);
  }

  lemma {:induction false} UnpatchedShowsRets(frames: seq<Frame>, endHandler: int)
    ensures ShownDown(Unpatched(frames), endHandler) == RetsDown(frames)
    decreases |frames|
  {
    if |frames| > 1 {
      assert DropLast(Unpatched(frames)) == Unpatched(DropLast(frames));
      UnpatchedShowsRets(DropLast(frames), endHandler);
    }
  }

  /** Walking the never-patched stack meets the true return addresses. */
  lemma TrueWalk(frames: seq<Frame>, mem: map<int, int>, bp: int, fuel: nat, p: Program)
    requires GoodProgram(p) && FramesOk(frames, p) && forall k | 1 <= k < |frames| - 1 :: SavedBp(frames, mem, k)
    requires |frames| > 1 ==> bp == frames[|frames| - 2].slot - 8
    requires fuel >= |frames| - 1
    ensures StackWords(TrueStack(frames, mem), Last(frames).slot, bp, fuel) == RetsDown(frames)
  {
    var us := Unpatched(frames);
    TrueStackChained(frames, mem, p);
    assert FramesOk(us, p) by {
      forall i | 0 <= i < |us| ensures us[i] == frames[i].(patched := false) {}
      forall i, j | 0 <= i < j < |us| ensures us[j].slot + 16 <= us[i].slot {
        assert frames[j].slot + 16 <= frames[i].slot;
      }
    }
    WalkMeetsFrames(us, TrueStack(frames, mem), bp, fuel, p);
    UnpatchedShowsRets(frames, p.endHandler);
  }

  /** At every stop, entry or end, nested in a visit or not, the stored trace is
      the backtrace of the same call stack with no return address ever patched. */
  lemma TraceAsIfUnpatched(s: Sys, i: Insn, fuel: nat, p: Program)
    requires Inv(s, p) && Enabled(s, Step(i), p) && Traps(s.w) && fuel >= MAX_BACKTRACE
    ensures Steppable(s, Step(i))
    ensures var fs := s.sh.frames;
            Next(s, Step(i)).w.dbg.trace ==
              (if s.sh.phase == AtEntry then [s.w.regs.rip] else [])
              + StackWords(TrueStack(fs, s.w.mem), Last(fs).slot, s.w.regs.rbp, fuel)
  {
    var fs := s.sh.frames;
    if s.sh.phase == AtEntry {
      EntryTraceIsTrue(s, p);
    } else if s.sh.phase == AtEnd {
      EndTraceIsTrue(s, p);
    } else {
      NoTrapInside(s, p);
    }
    TrueWalk(fs, s.w.mem, s.w.regs.rbp, fuel, p);
  }

  // ---------------------------------------------------------------- refused requests

  /** An activation of the function at `a` whose end stop is still to come. */
  predicate AwaitsEnd(frames: seq<Frame>, a: int) {
    exists i | 0 <= i < |frames| :: frames[i].patched && frames[i].entry == a
  }

  /** Removing a breakpoint is refused exactly when there is none or when an
      activation of the function still awaits its end stop. */
  lemma RemoveRefusedExactly(s: Sys, a: int, p: Program)
    requires Inv(s, p)
    ensures RemoveBreakpoint(s.w, a).1 == -1 <==> !Listed(s.w.dbg.bps, a) || AwaitsEnd(s.sh.frames, a)
  {
    OnStackIsPatched(s.sh.frames, a);
    if AwaitsEnd(s.sh.frames, a) {
      var i :| 0 <= i < |s.sh.frames| && s.sh.frames[i].patched && s.sh.frames[i].entry == a;
      assert EndFlag(s.w.dbg.bps, a) == 1;
    }
  }

  /** Disabling the end breakpoint of a listed function is refused exactly
      while an activation of it awaits its end stop. */
  lemma DisableRefusedExactly(s: Sys, a: int, haveMemory: bool, p: Program)
    requires Inv(s, p) && Listed(s.w.dbg.bps, a)
    ensures SetBreakpoint(s.w, a, 0, haveMemory).1 == -1 <==> AwaitsEnd(s.sh.frames, a)
    ensures SetBreakpoint(s.w, a, 1, haveMemory).1 == 0
  {
    OnStackIsPatched(s.sh.frames, a);
    if AwaitsEnd(s.sh.frames, a) {
      var i :| 0 <= i < |s.sh.frames| && s.sh.frames[i].patched && s.sh.frames[i].entry == a;
      assert EndFlag(s.w.dbg.bps, a) == 1;
    }
  }

  /** At the end stop of the last such activation removal and disabling are allowed again. */
  lemma AllowedAtLastEndStop(s: Sys, i: Insn, haveMemory: bool, p: Program)
    requires Inv(s, p) && s.sh.phase == AtEnd && Enabled(s, Step(i), p)
    requires !AwaitsEnd(DropLast(s.sh.frames), Last(s.sh.frames).entry)
    ensures Steppable(s, Step(i))
    ensures var a, t := Last(s.sh.frames).entry, Next(s, Step(i));
            RemoveBreakpoint(t.w, a).1 == 0 && SetBreakpoint(t.w, a, 0, haveMemory).1 == 0
  {
    StepKeepsInv(s, Step(i), p);
    EndTraceIsTrue(s, p);
    var a, t := Last(s.sh.frames).entry, Next(s, Step(i));
    assert EndFlag(s.w.dbg.bps, a) == 1;
    assert t.w.dbg.bps == s.w.dbg.bps;
    assert forall k | 0 <= k < |t.sh.frames| - 1 :: t.sh.frames[k] == DropLast(s.sh.frames)[k];
    RemoveRefusedExactly(t, a, p);
    DisableRefusedExactly(t, a, haveMemory, p);
  }

  // ---------------------------------------------------------------- breakpoint numbers

  predicate Has(bps: seq<Bp>, num: int, addr: int) {
    exists j | 0 <= j < |bps| :: bps[j].num == num && bps[j].addr == addr
  }

  /** Every number of `later` that is not above `issued` was in `earlier` for the same address. */
  predicate NumbersKept(earlier: seq<Bp>, issued: int, later: seq<Bp>) {
    forall i | 0 <= i < |later| && later[i].num <= issued :: Has(earlier, later[i].num, later[i].addr)
  }

  lemma NumbersKeptOn(a: seq<Bp>, m: int, b: seq<Bp>, n: int, c: seq<Bp>)
    requires NumbersKept(a, m, b) && NumbersKept(b, n, c) && m <= n
    ensures NumbersKept(a, m, c)
  {
    forall i | 0 <= i < |c| && c[i].num <= m ensures Has(a, c[i].num, c[i].addr) {
      var j :| 0 <= j < |b| && b[j].num == c[i].num && b[j].addr == c[i].addr;
    }
  }

  lemma RequestKeepsNumbers(w: World, t: World, a: int, flag: int, haveMemory: bool)
    requires t == SetBreakpoint(w, a, flag, haveMemory).0 || t == RemoveBreakpoint(w, a).0
    requires forall i | 0 <= i < |w.dbg.bps| :: w.dbg.bps[i].num <= w.dbg.breakpointNum
    ensures t.dbg.breakpointNum >= w.dbg.breakpointNum
    ensures NumbersKept(w.dbg.bps, w.dbg.breakpointNum, t.dbg.bps)
  {
    var bps, bps' := w.dbg.bps, t.dbg.bps;
    forall i | 0 <= i < |bps'| && bps'[i].num <= w.dbg.breakpointNum
      ensures Has(bps, bps'[i].num, bps'[i].addr)
    {
      var j := if |bps'| < |bps| && i >= Find(bps, a) then i + 1 else i;
      assert bps[j].num == bps'[i].num && bps[j].addr == bps'[i].addr;
    }
  }

  lemma StepKeepsNumbers(s: Sys, ev: Event, p: Program)
    requires Inv(s, p) && Steppable(s, ev)
    ensures Next(s, ev).w.dbg.breakpointNum >= s.w.dbg.breakpointNum
    ensures NumbersKept(s.w.dbg.bps, s.w.dbg.breakpointNum, Next(s, ev).w.dbg.bps)
  {
    assert forall i | 0 <= i < |s.w.dbg.bps| :: s.w.dbg.bps[i].num <= s.w.dbg.breakpointNum;
    hide Inv, NumbersKept, Steppable, SetBreakpoint, RemoveBreakpoint;
    match ev
    case Set(a, flag, haveMemory) => RequestKeepsNumbers(s.w, Next(s, ev).w, a, flag, haveMemory);
    case Remove(a) => RequestKeepsNumbers(s.w, Next(s, ev).w, a, 0, false);
    case Step(_) =>
      assert Next(s, ev).w.dbg.bps == s.w.dbg.bps;
      AllKept(s.w.dbg.bps, s.w.dbg.breakpointNum);
    case Resume => AllKept(s.w.dbg.bps, s.w.dbg.breakpointNum);
  }

  lemma AllKept(bps: seq<Bp>, n: int)
    ensures NumbersKept(bps, n, bps)
  {
    forall i | 0 <= i < |bps| ensures Has(bps, bps[i].num, bps[i].addr) {
      assert bps[i].num == bps[i].num && bps[i].addr == bps[i].addr;
    }
  }

  /** A number handed out before a run is never given to another breakpoint in it. */
  lemma {:induction false} NumbersNeverReused(s: Sys, es: seq<Event>, p: Program)
    requires Inv(s, p) && RunOk(s, es, p)
    ensures Run(s, es, p).w.dbg.breakpointNum >= s.w.dbg.breakpointNum
    ensures NumbersKept(s.w.dbg.bps, s.w.dbg.breakpointNum, Run(s, es, p).w.dbg.bps)
    decreases |es|
  {
    if es != [] {
      var m := Next(s, es[0]);
      StepKeepsInv(s, es[0], p);
      StepKeepsNumbers(s, es[0], p);
      NumbersNeverReused(m, es[1..], p);
      NumbersKeptOn(s.w.dbg.bps, s.w.dbg.breakpointNum, m.w.dbg.bps, m.w.dbg.breakpointNum,
                    Run(m, es[1..], p).w.dbg.bps);
    }
  }
}
