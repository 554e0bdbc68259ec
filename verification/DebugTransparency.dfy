/** Debugging is transparent: erase the visits to end_handler and the
    debugger's own requests from any debugged run and what is left is a run of
    the same program without a debugger, with the same rip, rsp, rbp and live
    stack words after every step. */
module DebugTransparency {
  import opened DebugSpec
  import opened DebugSystem
  import opened DebugInvariant

  /** The program running alone.  `live` is the set of stack words it has
      written and not released since. */
  datatype Plain = Plain(regs: Regs, mem: map<int, int>, sh: Shadow, live: set<int>)

  function Written(r: Regs, i: Insn): set<int> {
    match i
    case Call(_, _) => {r.rsp - 8}
    case PushRbp => {r.rsp - 8}
    case Work(_, writes) => writes.Keys
    case _ => {}
  }

  function AtLeast(words: set<int>, rsp: int): set<int> {
    set a | a in words && a >= rsp
  }

  function PlainNext(u: Plain, i: Insn): Plain
    requires u.sh.frames != []
  {
    var regs := ExecRegs(u.regs, u.mem, i);
    Plain(regs, ExecMem(u.regs, u.mem, i), ShadowExec(u.sh, u.regs, i),
          AtLeast(u.live + Written(u.regs, i), regs.rsp))
  }

  // ---------------------------------------------------------------- the relation

  predicate SameFrames(fs: seq<Frame>, us: seq<Frame>) {
    && |us| <= |fs|
    && forall i | 0 <= i < |us| :: us[i] == fs[i].(patched := false)
  }

  predicate IsSlot(us: seq<Frame>, a: int) {
    exists i | 0 <= i < |us| :: us[i].slot == a
  }

  /** Linkage words are live and hold the true return addresses. */
  predicate LinkageLive(us: seq<Frame>, phase: Phase, mem: map<int, int>, live: set<int>) {
    && (forall i | 0 <= i < |us| :: us[i].slot in live && Load(mem, us[i].slot) == us[i].ret)
    && (forall i | 1 <= i < |us| :: (i < |us| - 1 || phase == Pushed || phase == Body) ==> us[i].slot - 8 in live)
  }

  /** Every live word but a return address is the same with and without the debugger. */
  predicate Agree(us: seq<Frame>, live: set<int>, mem: map<int, int>, plain: map<int, int>) {
    forall a | a in live :: IsSlot(us, a) || Load(mem, a) == Load(plain, a)
  }

  /** Where the program would be: at the same place, or, during a visit to
      end_handler, already back at the true return address. */
  predicate SamePlace(s: Sys, u: Plain, p: Program)
    requires Base(s.sh, p.endHandler) > 0
  {
    var n := Base(s.sh, p.endHandler);
    if n == |s.sh.frames| then
      && u.regs.rip == s.w.regs.rip && u.regs.rsp == s.w.regs.rsp && u.regs.rbp == s.w.regs.rbp
      && u.sh.phase == s.sh.phase
    else
      && u.regs.rip == s.sh.frames[n].ret && u.regs.rsp == s.sh.frames[n].slot + 8
      && u.regs.rbp == s.sh.frames[n - 1].slot - 8
      && u.sh.phase == Body
  }

  predicate Related(s: Sys, u: Plain, p: Program) {
    && |u.sh.frames| == Base(s.sh, p.endHandler) > 0
    && SameFrames(s.sh.frames, u.sh.frames)
    && SamePlace(s, u, p)
    && (forall a | a in u.live :: a >= u.regs.rsp)
    && LinkageLive(u.sh.frames, u.sh.phase, u.mem, u.live)
    && Agree(u.sh.frames, u.live, s.w.mem, u.mem)
  }

  /** What the program executes for itself in a step of the debugged run. */
  function ErasedStep(s: Sys, ev: Event, p: Program): seq<Insn> {
    if ev.Step? && !Visiting(s.sh, p.endHandler) then [ev.insn] else []
  }

  // ---------------------------------------------------------------- where the visit starts

  lemma FirstHandlerIs(fs: seq<Frame>, endHandler: int, k: nat)
    requires k <= |fs| && (k < |fs| ==> fs[k].entry == endHandler)
    requires forall i | 0 <= i < k :: fs[i].entry != endHandler
    ensures FirstHandler(fs, endHandler) == k
  {
  }

  // ---------------------------------------------------------------- outside a visit: the stack words

  /** Return slots are at least 16 bytes apart, innermost lowest. */
  predicate Ordered(us: seq<Frame>) {
    forall i, j | 0 <= i < j < |us| :: us[j].slot + 16 <= us[i].slot
  }

  lemma CallWords(us: seq<Frame>, f: Frame, live: set<int>, mem: map<int, int>, plain: map<int, int>)
    requires us != [] && Agree(us, live, mem, plain) && LinkageLive(us, Body, plain, live)
    requires forall a | a in live :: a > f.slot
    ensures Agree(us + [f], live + {f.slot}, mem[f.slot := f.ret], plain[f.slot := f.ret])
    ensures LinkageLive(us + [f], AtEntry, plain[f.slot := f.ret], live + {f.slot})
  {
    forall b | b in live + {f.slot}
      ensures IsSlot(us + [f], b) || Load(mem[f.slot := f.ret], b) == Load(plain[f.slot := f.ret], b)
    {
      if b != f.slot && IsSlot(us, b) {
        var k :| 0 <= k < |us| && us[k].slot == b;
        assert (us + [f])[k].slot == b;
      }
    }
  }

  /** The write `push %rbp` makes, with or without patching the return address. */
  lemma PushWords(us: seq<Frame>, live: set<int>, mem: map<int, int>, mem': map<int, int>, plain: map<int, int>,
                  bp: int)
    requires us != [] && Agree(us, live, mem, plain) && LinkageLive(us, AtEntry, plain, live)
    requires forall a | a in live :: a >= Last(us).slot
    requires forall b | b != Last(us).slot :: Load(mem', b) == Load(mem[Last(us).slot - 8 := bp], b)
    ensures Agree(us, live + {Last(us).slot - 8}, mem', plain[Last(us).slot - 8 := bp])
    ensures LinkageLive(us, Pushed, plain[Last(us).slot - 8 := bp], live + {Last(us).slot - 8})
  {
    var a := Last(us).slot - 8;
    forall b | b in live + {a} ensures IsSlot(us, b) || Load(mem', b) == Load(plain[a := bp], b) {
      if b == Last(us).slot {
        assert us[|us| - 1].slot == b;
      }
    }
  }

  lemma SlotsAbove(us: seq<Frame>, k: nat)
    requires us != [] && Ordered(us) && k < |us|
    ensures us[k].slot >= Last(us).slot && (k < |us| - 1 ==> us[k].slot >= Last(us).slot + 16)
  {
  }

  lemma WorkWords(us: seq<Frame>, live: set<int>, mem: map<int, int>, plain: map<int, int>,
                  writes: map<int, int>, rsp: int)
    requires us != [] && Ordered(us) && Agree(us, live, mem, plain) && LinkageLive(us, Body, plain, live)
    requires SparesLinkage(us, writes) && rsp <= Last(us).slot - 8
    ensures var live' := AtLeast(live + writes.Keys, rsp);
            Agree(us, live', mem + writes, plain + writes) && LinkageLive(us, Body, plain + writes, live')
  {
    var live' := AtLeast(live + writes.Keys, rsp);
    assert Agree(us, live', mem + writes, plain + writes);
    hide Agree, Ordered;
    forall k | 0 <= k < |us| ensures us[k].slot - 8 >= rsp {
      SlotsAbove(us, k);
    }
  }

  /** The word `leave` pops is the same with and without the debugger. */
  lemma LeaveWords(us: seq<Frame>, live: set<int>, mem: map<int, int>, plain: map<int, int>)
    requires |us| > 1 && Ordered(us) && Agree(us, live, mem, plain) && LinkageLive(us, Body, plain, live)
    ensures Load(mem, Last(us).slot - 8) == Load(plain, Last(us).slot - 8)
    ensures var live' := AtLeast(live, Last(us).slot);
            Agree(us, live', mem, plain) && LinkageLive(us, Left, plain, live')
  {
    var top := |us| - 1;
    forall k | 0 <= k < |us|
      ensures us[k].slot != us[top].slot - 8
      ensures us[k].slot >= us[top].slot && (k < top ==> us[k].slot - 8 >= us[top].slot)
    {
      assert k < top ==> us[top].slot + 16 <= us[k].slot;
    }
    assert us[top].slot - 8 in live && !IsSlot(us, us[top].slot - 8);
  }

  lemma RetLinkage(us: seq<Frame>, live: set<int>, plain: map<int, int>)
    requires |us| > 1 && Ordered(us) && LinkageLive(us, Left, plain, live)
    ensures LinkageLive(DropLast(us), Body, plain, AtLeast(live, Last(us).slot + 8))
  {
    var top := |us| - 1;
    forall k | 0 <= k < top ensures us[k].slot - 8 >= us[top].slot + 8 {
      SlotsAbove(us, k);
    }
  }

  lemma RetAgree(us: seq<Frame>, live: set<int>, mem: map<int, int>, plain: map<int, int>)
    requires us != [] && Agree(us, live, mem, plain)
    ensures Agree(DropLast(us), AtLeast(live, Last(us).slot + 8), mem, plain)
  {
    forall a | a in live && a >= Last(us).slot + 8 ensures IsSlot(DropLast(us), a) || Load(mem, a) == Load(plain, a) {
      if IsSlot(us, a) {
        var k :| 0 <= k < |us| && us[k].slot == a;
        assert DropLast(us)[k].slot == a;
      }
    }
  }

  lemma RetWords(us: seq<Frame>, live: set<int>, mem: map<int, int>, plain: map<int, int>)
    requires |us| > 1 && Ordered(us) && Agree(us, live, mem, plain) && LinkageLive(us, Left, plain, live)
    ensures Load(plain, Last(us).slot) == Last(us).ret
    ensures Agree(DropLast(us), AtLeast(live, Last(us).slot + 8), mem, plain)
    ensures LinkageLive(DropLast(us), Body, plain, AtLeast(live, Last(us).slot + 8))
  {
    assert Load(plain, us[|us| - 1].slot) == us[|us| - 1].ret;
    hide Agree, LinkageLive, Ordered;
    RetLinkage(us, live, plain);
    RetAgree(us, live, mem, plain);
  }

  lemma NothingReleased(words: set<int>, rsp: int)
    requires forall a | a in words :: a >= rsp
    ensures AtLeast(words, rsp) == words
  {
  }

  // ---------------------------------------------------------------- outside a visit: the steps

  /** Outside a visit the two programs are at the same place with the same
      activations, up to the patched marks. */
  predicate Outside(s: Sys, u: Plain, p: Program) {
    && |u.sh.frames| == |s.sh.frames| > 0 && SameFrames(s.sh.frames, u.sh.frames)
    && Last(u.sh.frames) == Last(s.sh.frames).(patched := false)
    && Ordered(u.sh.frames)
    && s.sh.phase != AtEnd && u.sh.phase == s.sh.phase
    && u.regs.rip == s.w.regs.rip && u.regs.rsp == s.w.regs.rsp && u.regs.rbp == s.w.regs.rbp
    && (forall i | 0 <= i < |s.sh.frames| :: s.sh.frames[i].entry != p.endHandler)
    && TopOk(s.sh, s.w.regs, p)
    && (forall a | a in u.live :: a >= u.regs.rsp)
    && LinkageLive(u.sh.frames, u.sh.phase, u.mem, u.live)
    && Agree(u.sh.frames, u.live, s.w.mem, u.mem)
  }

  lemma OutsideFacts(s: Sys, u: Plain, p: Program)
    requires Inv(s, p) && Related(s, u, p) && !Visiting(s.sh, p.endHandler)
    ensures Outside(s, u, p)
  {
    var fs, us := s.sh.frames, u.sh.frames;
    forall i, j | 0 <= i < j < |us| ensures us[j].slot + 16 <= us[i].slot {
      assert us[i] == fs[i].(patched := false) && us[j] == fs[j].(patched := false);
    }
  }

  lemma SameFramesSnoc(fs: seq<Frame>, g: Frame, us: seq<Frame>, h: Frame)
    requires SameFrames(fs, us) && |us| == |fs| && h == g.(patched := false)
    ensures SameFrames(fs + [g], us + [h])
  {
  }

  lemma SameFramesDrop(fs: seq<Frame>, us: seq<Frame>)
    requires fs != [] && SameFrames(fs, us) && |us| == |fs|
    ensures SameFrames(DropLast(fs), DropLast(us)) && SameFrames(fs, DropLast(us))
  {
  }

  lemma CallAgrees(s: Sys, u: Plain, i: Insn, p: Program)
    requires Outside(s, u, p) && Obeys(s.sh, s.w.regs, i, p) && i.Call?
    ensures Related(Executed(s, i), PlainNext(u, i), p)
  {
    hide Agree, LinkageLive, Ordered, SameFrames, FirstHandler;
    var t, v := Executed(s, i), PlainNext(u, i);
    var f := Frame(u.regs.rsp - 8, i.ret, i.target, false);
    FirstHandlerIs(t.sh.frames, p.endHandler, |t.sh.frames|);
    SameFramesSnoc(s.sh.frames, f, u.sh.frames, f);
    CallWords(u.sh.frames, f, u.live, s.w.mem, u.mem);
    NothingReleased(u.live + {f.slot}, f.slot);
    assert v.live == u.live + {f.slot};
  }

  lemma PushIsPush(s: Sys, u: Plain, p: Program)
    requires Outside(s, u, p) && s.sh.phase == AtEntry
    ensures Related(Executed(s, PushRbp), PlainNext(u, PushRbp), p)
  {
    hide Agree, LinkageLive, Ordered;
    PushWords(u.sh.frames, u.live, s.w.mem, s.w.mem[u.regs.rsp - 8 := u.regs.rbp], u.mem, u.regs.rbp);
    NothingReleased(u.live + {u.regs.rsp - 8}, u.regs.rsp - 8);
  }

  /** What an entry stop writes into the child's stack besides the emulated push. */
  lemma TrapWrites(w: World, trace: seq<int>, patch: bool, b: int)
    requires b != w.regs.rsp
    ensures Load(EntryStopStoring(w, trace, patch).mem, b) == Load(w.mem[w.regs.rsp - 8 := w.regs.rbp], b)
  {
  }

  /** An entry stop is, for the child, the `push %rbp` it replaces. */
  lemma EntryStopIsPush(s: Sys, u: Plain, trace: seq<int>, patch: bool, p: Program)
    requires Outside(s, u, p) && s.sh.phase == AtEntry
    ensures Related(Sys(EntryStopStoring(Trapped(s.w), trace, patch), ShadowEntry(s.sh, patch)),
                    PlainNext(u, PushRbp), p)
  {
    hide FirstHandler, Agree, LinkageLive, SameFrames, Ordered;
    var t := Sys(EntryStopStoring(Trapped(s.w), trace, patch), ShadowEntry(s.sh, patch));
    var us, rsp, bp := u.sh.frames, u.regs.rsp, u.regs.rbp;
    SameFramesDrop(s.sh.frames, us);
    SameFramesSnoc(DropLast(s.sh.frames), Last(t.sh.frames), DropLast(us), Last(us));
    SplitLast(us);
    FirstHandlerIs(t.sh.frames, p.endHandler, |t.sh.frames|);
    forall b | b != rsp ensures Load(t.w.mem, b) == Load(s.w.mem[rsp - 8 := bp], b) {
      TrapWrites(Trapped(s.w), trace, patch, b);
    }
    PushWords(us, u.live, s.w.mem, t.w.mem, u.mem, bp);
    NothingReleased(u.live + {rsp - 8}, rsp - 8);
  }

  lemma WorkAgrees(s: Sys, u: Plain, i: Insn, p: Program)
    requires Outside(s, u, p) && Obeys(s.sh, s.w.regs, i, p) && i.Work?
    ensures Related(Executed(s, i), PlainNext(u, i), p)
  {
    hide Agree, LinkageLive, Ordered;
    SparesSame(s.sh.frames, u.sh.frames, i.writes);
    WorkWords(u.sh.frames, u.live, s.w.mem, u.mem, i.writes, i.after.rsp);
  }

  lemma MovLinkage(us: seq<Frame>, mem: map<int, int>, live: set<int>)
    requires LinkageLive(us, Pushed, mem, live)
    ensures LinkageLive(us, Body, mem, live)
  {
  }

  lemma MovAgrees(s: Sys, u: Plain, p: Program)
    requires Outside(s, u, p) && Obeys(s.sh, s.w.regs, MovRbp, p)
    ensures Related(Executed(s, MovRbp), PlainNext(u, MovRbp), p)
  {
    hide Agree, LinkageLive;
    MovLinkage(u.sh.frames, u.mem, u.live);
    assert u.live + {} == u.live;
    NothingReleased(u.live, u.regs.rsp);
  }

  lemma LeaveAgrees(s: Sys, u: Plain, p: Program)
    requires Outside(s, u, p) && Obeys(s.sh, s.w.regs, Leave, p)
    ensures Related(Executed(s, Leave), PlainNext(u, Leave), p)
  {
    hide Agree, LinkageLive, Ordered;
    LeaveWords(u.sh.frames, u.live, s.w.mem, u.mem);
    assert u.live + {} == u.live;
  }

  /** `ret` either returns in both programs or, from a patched activation,
      returns in the plain program and starts a visit in the debugged one. */
  lemma RetAgrees(s: Sys, u: Plain, p: Program)
    requires Outside(s, u, p) && s.sh.phase == Left
    requires Load(s.w.mem, Last(s.sh.frames).slot) == Shown(Last(s.sh.frames), p.endHandler)
    ensures Related(Executed(s, Ret), PlainNext(u, Ret), p)
  {
    hide Agree, LinkageLive, Ordered, SameFrames, FirstHandler;
    var fs, us, t := s.sh.frames, u.sh.frames, Executed(s, Ret);
    RetWords(us, u.live, s.w.mem, u.mem);
    SameFramesDrop(fs, us);
    FirstHandlerIs(t.sh.frames, p.endHandler, |t.sh.frames|);
    assert Base(t.sh, p.endHandler) == |fs| - 1;
    assert u.live + {} == u.live;
    assert PlainNext(u, Ret).sh == Shadow(DropLast(us), Body) by {
      assert !Last(us).patched;
    }
  }

  // ---------------------------------------------------------------- inside a visit

  /** A step whose writes stay at or below the visited return slot is invisible. */
  lemma HiddenWrites(us: seq<Frame>, live: set<int>, limit: int,
                     mem: map<int, int>, mem': map<int, int>, plain: map<int, int>)
    requires Agree(us, live, mem, plain)
    requires forall a | a in live :: a > limit
    requires forall a | a > limit :: Load(mem', a) == Load(mem, a)
    ensures Agree(us, live, mem', plain)
  {
  }

  /** The visit, as long as it lasts, leaves the program's activations and every
      stack word above the visited return slot alone. */
  lemma VisitWritesLow(s: Sys, i: Insn, p: Program)
    requires Inv(s, p) && Enabled(s, Step(i), p) && Steppable(s, Step(i)) && Visiting(s.sh, p.endHandler)
    ensures forall a | a > s.sh.frames[Base(s.sh, p.endHandler)].slot ::
              Load(Next(s, Step(i)).w.mem, a) == Load(s.w.mem, a)
  {
    hide ListOk, CodeOk, BooksOk, StackOk, EntryTrace, EndTrace, Walkable, EndFlag, FirstHandler;
    var fs := s.sh.frames;
    var n := Base(s.sh, p.endHandler);
    assert n < |fs| - 1 ==> fs[|fs| - 1].slot + 16 <= fs[n].slot;
    if s.sh.phase != AtEntry && s.sh.phase != AtEnd {
      NoTrapInside(s, p);
    }
  }

  /** `t` has the same lowest `n` activations as `s`, and the same linkage in the next one if there is one. */
  predicate SameBottom(fs: seq<Frame>, gs: seq<Frame>, n: nat) {
    && n < |fs| && n <= |gs|
    && (forall k | 0 <= k < n :: gs[k] == fs[k])
    && (n < |gs| ==> gs[n].ret == fs[n].ret && gs[n].slot == fs[n].slot)
  }

  lemma ExecKeepsBottom(sh: Shadow, regs: Regs, i: Insn, n: nat)
    requires n < |sh.frames|
    ensures SameBottom(sh.frames, ShadowExec(sh, regs, i).frames, n)
    ensures n < |ShadowExec(sh, regs, i).frames| ==> ShadowExec(sh, regs, i).frames[n] == sh.frames[n]
  {
  }

  lemma BottomKeepsBase(t: Shadow, fs: seq<Frame>, n: nat, endHandler: int)
    requires SameBottom(fs, t.frames, n) && forall k | 0 <= k < n :: fs[k].entry != endHandler
    requires n < |t.frames| ==> t.frames[n].entry == endHandler || (t.phase == AtEnd && n == |t.frames| - 1)
    requires n == |t.frames| ==> t.phase != AtEnd
    ensures Base(t, endHandler) == n
  {
    if n < |t.frames| && t.frames[n].entry == endHandler {
      FirstHandlerIs(t.frames, endHandler, n);
    } else {
      FirstHandlerIs(t.frames, endHandler, |t.frames|);
    }
  }

  lemma BaseFacts(sh: Shadow, endHandler: int)
    requires Visiting(sh, endHandler)
    ensures var n := Base(sh, endHandler);
            && (forall k | 0 <= k < n :: sh.frames[k].entry != endHandler)
            && (sh.frames[n].entry == endHandler || (sh.phase == AtEnd && n == |sh.frames| - 1))
  {
  }

  lemma VisitKeepsBase(s: Sys, i: Insn, p: Program)
    requires Inv(s, p) && Enabled(s, Step(i), p) && Steppable(s, Step(i)) && Visiting(s.sh, p.endHandler)
    ensures var n, t := Base(s.sh, p.endHandler), Next(s, Step(i));
            Base(t.sh, p.endHandler) == n && SameBottom(s.sh.frames, t.sh.frames, n)
  {
    hide FirstHandler, StackOk, BooksOk, ListOk, Base, Steppable, Int3;
    var fs, n := s.sh.frames, Base(s.sh, p.endHandler);
    var t := Next(s, Step(i));
    BaseFacts(s.sh, p.endHandler);
    if s.sh.phase == AtEntry || s.sh.phase == AtEnd {
      if Traps(s.w) {
        assert |t.sh.frames| == |fs|;
      } else {
        ExecKeepsBottom(s.sh, s.w.regs, i, n);
      }
    } else {
      NoTrapInside(s, p);
      ExecKeepsBottom(s.sh, s.w.regs, i, n);
    }
    BottomKeepsBase(t.sh, fs, n, p.endHandler);
  }

  /** A visit ends where the program already is. */
  lemma VisitEnds(s: Sys, i: Insn, p: Program)
    requires Inv(s, p) && Enabled(s, Step(i), p) && Steppable(s, Step(i)) && Visiting(s.sh, p.endHandler)
    requires |Next(s, Step(i)).sh.frames| == Base(s.sh, p.endHandler) > 0
    ensures var n, t := Base(s.sh, p.endHandler), Next(s, Step(i));
            && t.w.regs.rip == s.sh.frames[n].ret && t.w.regs.rsp == s.sh.frames[n].slot + 8
            && t.w.regs.rbp == s.sh.frames[n - 1].slot - 8 && t.sh.phase == Body
  {
    if s.sh.phase != AtEntry && s.sh.phase != AtEnd {
      NoTrapInside(s, p);
    }
    assert i == Ret && !Last(s.sh.frames).patched;
  }

  lemma VisitIsHidden(s: Sys, u: Plain, i: Insn, p: Program)
    requires Inv(s, p) && Enabled(s, Step(i), p) && Steppable(s, Step(i))
    requires Related(s, u, p) && Visiting(s.sh, p.endHandler)
    ensures Related(Next(s, Step(i)), u, p)
  {
    hide Inv, LinkageLive, Agree;
    var n, t := Base(s.sh, p.endHandler), Next(s, Step(i));
    VisitKeepsBase(s, i, p);
    VisitWritesLow(s, i, p);
    HiddenWrites(u.sh.frames, u.live, s.sh.frames[n].slot, s.w.mem, t.w.mem, u.mem);
    if |t.sh.frames| == n {
      VisitEnds(s, i, p);
    }
  }

  // ---------------------------------------------------------------- every step, every run

  lemma SparesSame(fs: seq<Frame>, us: seq<Frame>, writes: map<int, int>)
    requires SameFrames(fs, us) && SparesLinkage(fs, writes)
    ensures SparesLinkage(us, writes)
  {
    forall k | 0 <= k < |us| ensures us[k].slot == fs[k].slot {
      assert us[k] == fs[k].(patched := false);
    }
  }

  lemma NoHandlerAmong(fs: seq<Frame>, us: seq<Frame>, endHandler: int)
    requires SameFrames(fs, us) && forall k | 0 <= k < |fs| :: fs[k].entry != endHandler
    ensures FirstHandler(us, endHandler) == |us|
  {
    forall k | 0 <= k < |us| ensures us[k].entry != endHandler {
      assert us[k] == fs[k].(patched := false);
    }
    FirstHandlerIs(us, endHandler, |us|);
  }

  lemma OwnStepObeys(sh: Shadow, regs: Regs, u: Plain, i: Insn, p: Program)
    requires Obeys(sh, regs, i, p) && SameFrames(sh.frames, u.sh.frames) && |u.sh.frames| == |sh.frames|
    requires forall k | 0 <= k < |sh.frames| :: sh.frames[k].entry != p.endHandler
    requires u.sh.phase == sh.phase && u.regs.rip == regs.rip && u.regs.rsp == regs.rsp && u.regs.rbp == regs.rbp
    ensures Obeys(u.sh, u.regs, i, p)
  {
    NoHandlerAmong(sh.frames, u.sh.frames, p.endHandler);
    if i.Work? {
      SparesSame(sh.frames, u.sh.frames, i.writes);
    }
  }

  lemma OwnStep(s: Sys, u: Plain, i: Insn, p: Program)
    requires Inv(s, p) && Related(s, u, p) && Enabled(s, Step(i), p) && !Visiting(s.sh, p.endHandler)
    requires Steppable(s, Step(i))
    ensures Related(Next(s, Step(i)), PlainNext(u, i), p)
  {
    hide LinkageLive, Agree, SameFrames, BooksOk, CodeOk, ListOk, Related, PlainNext, EndFlag;
    OutsideFacts(s, u, p);
    if s.sh.phase == AtEntry {
      if Traps(s.w) {
        EntryStopIsPush(s, u, EntryTrace(Trapped(s.w)), EndFlag(s.w.dbg.bps, s.w.regs.rip) != 0, p);
      } else {
        PushIsPush(s, u, p);
      }
    } else {
      NoTrapInside(s, p);
      match i
      case Call(_, _) => CallAgrees(s, u, i, p);
      case MovRbp => MovAgrees(s, u, p);
      case Work(_, _) => WorkAgrees(s, u, i, p);
      case Leave => LeaveAgrees(s, u, p);
      case Ret =>
        assert Load(s.w.mem, Last(s.sh.frames).slot) == Shown(Last(s.sh.frames), p.endHandler);
        RetAgrees(s, u, p);
    }
  }

  lemma RequestIsHidden(s: Sys, u: Plain, ev: Event, p: Program)
    requires Related(s, u, p) && !ev.Step?
    ensures Related(Next(s, ev), u, p)
  {
    RequestSparesChild(s, ev);
    hide Next, Agree, LinkageLive, SameFrames;
  }

  lemma RequestSparesChild(s: Sys, ev: Event)
    requires !ev.Step?
    ensures Steppable(s, ev)
    ensures var t := Next(s, ev); t.sh == s.sh && t.w.regs == s.w.regs && t.w.mem == s.w.mem
  {
  }

  /** One debugged step is at most one step of the program, and one the program may take. */
  lemma StepIsTransparent(s: Sys, u: Plain, ev: Event, p: Program)
    requires Inv(s, p) && Related(s, u, p) && Enabled(s, ev, p) && Steppable(s, ev)
    ensures var own := ErasedStep(s, ev, p);
            if own == [] then Related(Next(s, ev), u, p)
            else Obeys(u.sh, u.regs, own[0], p) && Related(Next(s, ev), PlainNext(u, own[0]), p)
  {
    if ev.Step? {
      if Visiting(s.sh, p.endHandler) {
        VisitIsHidden(s, u, ev.insn, p);
      } else {
        OutsideFacts(s, u, p);
        OwnStepObeys(s.sh, s.w.regs, u, ev.insn, p);
        OwnStep(s, u, ev.insn, p);
      }
    } else {
      RequestIsHidden(s, u, ev, p);
    }
  }

  /** A run the child and the debugger can produce together. */
  predicate RunOk(s: Sys, es: seq<Event>, p: Program)
    decreases |es|
  {
    es == [] || (Enabled(s, es[0], p) && Steppable(s, es[0]) && RunOk(Next(s, es[0]), es[1..], p))
  }

  function Run(s: Sys, es: seq<Event>, p: Program): Sys
    requires RunOk(s, es, p)
    decreases |es|
  {
    if es == [] then s else Run(Next(s, es[0]), es[1..], p)
  }

  /** The run without the debugger's requests and without the visits to end_handler. */
  function Erased(s: Sys, es: seq<Event>, p: Program): seq<Insn>
    requires RunOk(s, es, p)
    decreases |es|
  {
    if es == [] then [] else ErasedStep(s, es[0], p) + Erased(Next(s, es[0]), es[1..], p)
  }

  predicate PlainRunOk(u: Plain, own: seq<Insn>, p: Program)
    decreases |own|
  {
    own == [] || (Obeys(u.sh, u.regs, own[0], p) && PlainRunOk(PlainNext(u, own[0]), own[1..], p))
  }

  function PlainRun(u: Plain, own: seq<Insn>, p: Program): Plain
    requires PlainRunOk(u, own, p)
    decreases |own|
  {
    if own == [] then u else PlainRun(PlainNext(u, own[0]), own[1..], p)
  }

  /** Every debugged run, with its visits and requests erased, is a run of the
      undebugged program that ends in the related state. */
  lemma {:induction false} Transparency(s: Sys, u: Plain, es: seq<Event>, p: Program)
    requires Inv(s, p) && Related(s, u, p) && RunOk(s, es, p)
    ensures Inv(Run(s, es, p), p)
    ensures PlainRunOk(u, Erased(s, es, p), p)
    ensures Related(Run(s, es, p), PlainRun(u, Erased(s, es, p), p), p)
    decreases |es|
  {
    if es != [] {
      StepKeepsInv(s, es[0], p);
      StepIsTransparent(s, u, es[0], p);
      var own := ErasedStep(s, es[0], p);
      var rest := Erased(Next(s, es[0]), es[1..], p);
      if own == [] {
        Transparency(Next(s, es[0]), u, es[1..], p);
        assert Erased(s, es, p) == rest;
      } else {
        Transparency(Next(s, es[0]), PlainNext(u, own[0]), es[1..], p);
        assert Erased(s, es, p)[1..] == rest;
      }
    }
  }
}
