/** Every step of a debugged run keeps the invariant, never makes the handler
    leave its arrays, and stores a true backtrace. */
module DebugInvariant {
  import opened DebugSpec
  import opened DebugSystem

  // ---------------------------------------------------------------- the stack walk

  /** The true return addresses of all activations but the outermost, innermost first. */
  function RetsDown(frames: seq<Frame>): seq<int> {
    if |frames| <= 1 then [] else [Last(frames).ret] + RetsDown(DropLast(frames))
  }

  function ShownDown(frames: seq<Frame>, endHandler: int): seq<int> {
    if |frames| <= 1 then [] else [Shown(Last(frames), endHandler)] + ShownDown(DropLast(frames), endHandler)
  }

  predicate Chained(frames: seq<Frame>, mem: map<int, int>, endHandler: int) {
    && (forall i | 0 <= i < |frames| :: Load(mem, frames[i].slot) == Shown(frames[i], endHandler))
    && (forall i | 1 <= i < |frames| - 1 :: SavedBp(frames, mem, i))
  }

  /** The walk from the innermost return slot meets exactly the shown return
      addresses and stops at the outermost activation. */
  lemma {:induction false} WalkMeetsFrames(frames: seq<Frame>, mem: map<int, int>, bp: int, fuel: nat, p: Program)
    requires GoodProgram(p) && FramesOk(frames, p) && Chained(frames, mem, p.endHandler)
    requires |frames| > 1 ==> bp == frames[|frames| - 2].slot - 8
    requires fuel >= |frames| - 1
    ensures ReachesEnd(mem, Last(frames).slot, bp, fuel)
    ensures StackWords(mem, Last(frames).slot, bp, fuel) == ShownDown(frames, p.endHandler)
    decreases |frames|
  {
    if |frames| > 1 {
      var rest := DropLast(frames);
      assert Load(mem, Last(frames).slot) == Shown(Last(frames), p.endHandler) != END_ADDR;
      if |rest| > 1 {
        assert SavedBp(frames, mem, |rest| - 1);
      }
      forall i | 1 <= i < |rest| - 1 ensures SavedBp(rest, mem, i) {
        assert SavedBp(frames, mem, i);
      }
      WalkMeetsFrames(rest, mem, Load(mem, bp), fuel - 1, p);
    }
  }

  /** Resolving the shown addresses against the saved ones gives the true ones. */
  lemma {:induction false} ResolveShown(frames: seq<Frame>, p: Program)
    requires GoodProgram(p) && FramesOk(frames, p)
    ensures Patches(ShownDown(frames, p.endHandler), p.endHandler) == |PatchedRets(frames)|
    ensures Resolve(ShownDown(frames, p.endHandler), p.endHandler, PatchedRets(frames)) == RetsDown(frames)
    decreases |frames|
  {
    if |frames| > 1 {
      var words := ShownDown(frames, p.endHandler);
      ResolveShown(DropLast(frames), p);
      assert words[1..] == ShownDown(DropLast(frames), p.endHandler);
      if Last(frames).patched {
        assert DropLast(PatchedRets(frames)) == PatchedRets(DropLast(frames));
      } else {
        assert PatchedRets(frames) == PatchedRets(DropLast(frames));
      }
    } else {
      assert DropLast(frames) == [];
    }
  }

  /** Walking a well-formed stack records its true backtrace, patched or not. */
  lemma WalkIsTrue(frames: seq<Frame>, mem: map<int, int>, bp: int, fuel: nat, p: Program)
    requires GoodProgram(p) && FramesOk(frames, p) && Chained(frames, mem, p.endHandler)
    requires |frames| > 1 ==> bp == frames[|frames| - 2].slot - 8
    requires fuel >= |frames| - 1
    ensures Walkable(mem, Last(frames).slot, bp, fuel, p.endHandler, PatchedRets(frames))
    ensures Resolve(StackWords(mem, Last(frames).slot, bp, fuel), p.endHandler, PatchedRets(frames)) == RetsDown(frames)
  {
    WalkMeetsFrames(frames, mem, bp, fuel, p);
    ResolveShown(frames, p);
  }

  // ---------------------------------------------------------------- small facts about frames

  lemma PatchedSnoc(frames: seq<Frame>, f: Frame)
    ensures PatchedRets(frames + [f]) == PatchedRets(frames) + if f.patched then [f.ret] else []
    ensures PatchedEntries(frames + [f]) == PatchedEntries(frames) + if f.patched then [f.entry] else []
  {
    assert DropLast(frames + [f]) == frames;
  }

  lemma SplitLast<T>(s: seq<T>)
    requires s != []
    ensures s == DropLast(s) + [Last(s)]
  {
  }

  /** A patched activation is on the debugger's stack and nothing else is. */
  lemma {:induction false} OnStackIsPatched(frames: seq<Frame>, a: int)
    ensures a in PatchedEntries(frames) <==> exists i :: 0 <= i < |frames| && frames[i].patched && frames[i].entry == a
  {
    if frames != [] {
      var rest := DropLast(frames);
      OnStackIsPatched(rest, a);
      if a in PatchedEntries(frames) {
        if a in PatchedEntries(rest) {
          var i :| 0 <= i < |rest| && rest[i].patched && rest[i].entry == a;
          assert frames[i] == rest[i];
        } else {
          assert frames[|frames| - 1].patched && frames[|frames| - 1].entry == a;
        }
      } else {
        forall i | 0 <= i < |frames| ensures !(frames[i].patched && frames[i].entry == a) {
          assert i < |rest| ==> rest[i] == frames[i];
        }
      }
    }
  }

  /** The outermost activation is never patched, so a patched one leaves room in the arrays. */
  lemma {:induction false} PatchedFit(frames: seq<Frame>, p: Program)
    requires FramesOk(frames, p)
    ensures |PatchedRets(frames)| <= |frames| - 1
  {
    if |frames| == 1 {
      assert DropLast(frames) == [];
    } else {
      PatchedFit(DropLast(frames), p);
    }
  }

  lemma FramesSnoc(frames: seq<Frame>, f: Frame, p: Program)
    requires FramesOk(frames, p) && |frames| < MAX_BACKTRACE
    requires f.ret !in p.entries && f.ret != END_ADDR && !f.patched && f.slot + 16 <= Last(frames).slot
    ensures FramesOk(frames + [f], p)
  {
    forall i | 0 <= i < |frames|
      ensures f.slot + 16 <= frames[i].slot
    {
      assert i < |frames| - 1 ==> frames[|frames| - 1].slot + 16 <= frames[i].slot;
    }
  }

  lemma FramesRelabel(frames: seq<Frame>, g: Frame, p: Program)
    requires FramesOk(frames, p) && |frames| > 1
    requires g.ret == Last(frames).ret && g.slot == Last(frames).slot && (g.patched ==> g.entry != p.endHandler)
    ensures FramesOk(DropLast(frames) + [g], p)
  {
  }

  /** A word pushed below every live linkage word changes none of them. */
  lemma PushBelow(frames: seq<Frame>, mem: map<int, int>, a: int, v: int, p: Program)
    requires FramesOk(frames, p) && a < Last(frames).slot
    ensures forall k | 0 <= k < |frames| :: Load(mem[a := v], frames[k].slot) == Load(mem, frames[k].slot)
    ensures forall k | 0 <= k < |frames| - 1 :: Load(mem[a := v], frames[k].slot - 8) == Load(mem, frames[k].slot - 8)
    ensures a < Last(frames).slot - 8 ==> Load(mem[a := v], Last(frames).slot - 8) == Load(mem, Last(frames).slot - 8)
  {
    forall k | 0 <= k < |frames| - 1
      ensures a < frames[k].slot - 8
    {
      assert frames[|frames| - 1].slot + 16 <= frames[k].slot;
    }
  }

  /** Saved frame pointers carry over to a stack that shows the same words and slots. */
  lemma SavedCarryOver(fs: seq<Frame>, gs: seq<Frame>, mem: map<int, int>, mem': map<int, int>, n: nat)
    requires n <= |fs| && n <= |gs|
    requires forall k | 1 <= k < n :: SavedBp(fs, mem, k)
    requires forall k | 0 <= k < n :: fs[k].slot == gs[k].slot
    requires forall k | 0 <= k < n :: Load(mem', fs[k].slot - 8) == Load(mem, fs[k].slot - 8)
    ensures forall k | 1 <= k < n :: SavedBp(gs, mem', k)
  {
    forall k | 1 <= k < n ensures SavedBp(gs, mem', k) {
      assert SavedBp(fs, mem, k);
      assert fs[k - 1].slot == gs[k - 1].slot;
    }
  }

  // ---------------------------------------------------------------- the child's own steps

  lemma NoTrapInside(s: Sys, p: Program)
    requires Inv(s, p) && s.sh.phase != AtEntry && s.sh.phase != AtEnd
    ensures !Traps(s.w)
  {
    assert s.w.regs.rip !in p.entries by {
      if s.sh.phase == Pushed {
        assert (s.w.regs.rip - 1) + 1 !in p.entries;
      }
    }
    assert s.w.regs.rip in s.w.code ==> Byte(s.w.code, s.w.regs.rip) != INT3_OPCODE;
  }

  lemma CallKeepsInv(s: Sys, i: Insn, p: Program)
    requires Inv(s, p) && Enabled(s, Step(i), p) && i.Call? && !Traps(s.w)
    ensures Inv(Next(s, Step(i)), p)
  {
    hide CodeOk, ListOk, BooksOk, FramesOk, StackOk, Int3, Int3Ready;
    var fs := s.sh.frames;
    var f := Frame(s.w.regs.rsp - 8, i.ret, i.target, false);
    FramesSnoc(fs, f, p);
    CallKeepsStack(fs, f, s.sh.phase, s.w.mem, p);
    CallKeepsBooks(s.w.dbg, fs, f);
    CallKeepsTop(s.sh, s.w.regs, i, p);
    hide TopOk;
  }

  lemma CallKeepsTop(sh: Shadow, regs: Regs, i: Insn, p: Program)
    requires sh.frames != [] && i.Call? && Obeys(sh, regs, i, p) && TopOk(sh, regs, p)
    ensures TopOk(ShadowExec(sh, regs, i), ExecRegs(regs, map[], i), p)
  {
  }

  lemma CallKeepsStack(fs: seq<Frame>, f: Frame, phase: Phase, mem: map<int, int>, p: Program)
    requires FramesOk(fs, p) && phase == Body && StackOk(Shadow(fs, phase), mem, p.endHandler)
    requires !f.patched && f.slot + 8 <= Last(fs).slot - 8
    ensures StackOk(Shadow(fs + [f], AtEntry), mem[f.slot := f.ret], p.endHandler)
  {
    PushBelow(fs, mem, f.slot, f.ret, p);
    SavedCarryOver(fs, fs + [f], mem, mem[f.slot := f.ret], |fs|);
  }

  lemma CallKeepsBooks(dbg: Dbg, fs: seq<Frame>, f: Frame)
    requires BooksOk(dbg, fs) && !f.patched
    ensures BooksOk(dbg, fs + [f])
  {
    PatchedSnoc(fs, f);
  }

  lemma PushKeepsInv(s: Sys, p: Program)
    requires Inv(s, p) && Enabled(s, Step(PushRbp), p) && !Traps(s.w)
    ensures s.sh.phase == AtEntry && Inv(Next(s, Step(PushRbp)), p)
  {
    hide ListOk, BooksOk;
    var t := Next(s, Step(PushRbp));
    var fs := s.sh.frames;
    PushBelow(fs, s.w.mem, s.w.regs.rsp - 8, s.w.regs.rbp, p);
    SavedCarryOver(fs, fs, s.w.mem, t.w.mem, |fs| - 1);
    assert SavedBp(fs, t.w.mem, |fs| - 1);
    assert StackOk(t.sh, t.w.mem, p.endHandler);
  }

  lemma WorkKeepsInv(s: Sys, i: Insn, p: Program)
    requires Inv(s, p) && Enabled(s, Step(i), p) && i.Work? && !Traps(s.w)
    ensures Inv(Next(s, Step(i)), p)
  {
    var t := Next(s, Step(i));
    var fs := s.sh.frames;
    forall k | 0 <= k < |fs|
      ensures Load(t.w.mem, fs[k].slot) == Load(s.w.mem, fs[k].slot)
      ensures Load(t.w.mem, fs[k].slot - 8) == Load(s.w.mem, fs[k].slot - 8)
    {
    }
    SavedCarryOver(fs, fs, s.w.mem, t.w.mem, |fs|);
  }

  lemma MovKeepsInv(s: Sys, p: Program)
    requires Inv(s, p) && Enabled(s, Step(MovRbp), p) && !Traps(s.w)
    ensures Inv(Next(s, Step(MovRbp)), p)
  {
    var t := Next(s, Step(MovRbp));
    assert t.w.regs.rip == (s.w.regs.rip - 1) + 4;
    assert StackOk(t.sh, t.w.mem, p.endHandler);
  }

  lemma LeaveKeepsInv(s: Sys, p: Program)
    requires Inv(s, p) && Enabled(s, Step(Leave), p) && !Traps(s.w)
    ensures Inv(Next(s, Step(Leave)), p)
  {
    var t := Next(s, Step(Leave));
    var fs := s.sh.frames;
    assert SavedBp(fs, s.w.mem, |fs| - 1);
    assert StackOk(t.sh, t.w.mem, p.endHandler);
  }

  lemma FramesDrop(fs: seq<Frame>, p: Program)
    requires FramesOk(fs, p) && |fs| > 1
    ensures FramesOk(DropLast(fs), p)
    ensures Last(DropLast(fs)) == fs[|fs| - 2] && Last(fs).slot + 16 <= fs[|fs| - 2].slot
    ensures |fs| > 2 ==> Last(DropLast(fs)).ret !in p.entries
    ensures Last(fs).ret !in p.entries
  {
  }

  lemma RetKeepsStack(fs: seq<Frame>, mem: map<int, int>, p: Program)
    requires |fs| > 1 && StackOk(Shadow(fs, Left), mem, p.endHandler)
    ensures StackOk(Shadow(DropLast(fs), Body), mem, p.endHandler)
    ensures StackOk(Shadow(fs, AtEnd), mem, p.endHandler)
    ensures Load(mem, Last(fs).slot) == Shown(Last(fs), p.endHandler)
  {
    SavedCarryOver(fs, DropLast(fs), mem, mem, |fs| - 1);
  }

  lemma RetKeepsBooks(dbg: Dbg, fs: seq<Frame>)
    requires fs != [] && BooksOk(dbg, fs) && !Last(fs).patched
    ensures BooksOk(dbg, DropLast(fs))
  {
    assert PatchedRets(fs) == PatchedRets(DropLast(fs)) && PatchedEntries(fs) == PatchedEntries(DropLast(fs));
  }

  lemma RetKeepsInv(s: Sys, p: Program)
    requires Inv(s, p) && Enabled(s, Step(Ret), p) && !Traps(s.w)
    ensures Inv(Next(s, Step(Ret)), p)
  {
    hide CodeOk, ListOk, FramesOk, StackOk, BooksOk;
    var fs := s.sh.frames;
    FramesDrop(fs, p);
    RetKeepsStack(fs, s.w.mem, p);
    if !Last(fs).patched {
      RetKeepsBooks(s.w.dbg, fs);
    }
  }

  // ---------------------------------------------------------------- the two stops

  /** Relabelling the topmost activation and emulating its push keeps the stack well formed. */
  lemma StopKeepsStack(fs: seq<Frame>, g: Frame, mem: map<int, int>, p: Program)
    requires FramesOk(fs, p) && |fs| > 1 && g.slot == Last(fs).slot
    requires forall k | 0 <= k < |fs| - 1 :: Load(mem, fs[k].slot) == Shown(fs[k], p.endHandler)
    requires forall k | 1 <= k < |fs| - 1 :: SavedBp(fs, mem, k)
    ensures StackOk(Shadow(DropLast(fs) + [g], Pushed),
                    mem[g.slot := Shown(g, p.endHandler)][g.slot - 8 := fs[|fs| - 2].slot - 8], p.endHandler)
  {
    var gs := DropLast(fs) + [g];
    var v, bp := Shown(g, p.endHandler), fs[|fs| - 2].slot - 8;
    PushBelow(DropLast(fs), mem, g.slot, v, p);
    PushBelow(fs, mem[g.slot := v], g.slot - 8, bp, p);
    SavedCarryOver(fs, gs, mem, mem[g.slot := v][g.slot - 8 := bp], |gs| - 1);
    assert SavedBp(gs, mem[g.slot := v][g.slot - 8 := bp], |gs| - 1);
  }

  lemma StopKeepsFlags(fs: seq<Frame>, g: Frame, bps: seq<Bp>)
    requires fs != []
    requires forall i | 0 <= i < |fs| :: fs[i].patched ==> EndFlag(bps, fs[i].entry) == 1
    requires g.patched ==> EndFlag(bps, g.entry) == 1
    ensures forall i | 0 <= i < |fs| ::
              (DropLast(fs) + [g])[i].patched ==> EndFlag(bps, (DropLast(fs) + [g])[i].entry) == 1
  {
  }

  /** At an entry stop the handler stays inside its arrays and the trace is the
      entry address followed by the true return addresses. */
  lemma EntryTraceIsTrue(s: Sys, p: Program)
    requires Inv(s, p) && s.sh.phase == AtEntry
    ensures EntryStopReady(Trapped(s.w))
    ensures EntryTrace(Trapped(s.w)) == [s.w.regs.rip] + RetsDown(s.sh.frames)
  {
    hide StackWords, Resolve, ReachesEnd, Patches, Walkable, PatchedRets, RetsDown;
    PatchedFit(s.sh.frames, p);
    WalkIsTrue(s.sh.frames, s.w.mem, s.w.regs.rbp, MAX_BACKTRACE - 1, p);
  }

  lemma EntryStopKeepsStack(fs: seq<Frame>, g: Frame, mem: map<int, int>, p: Program)
    requires FramesOk(fs, p) && |fs| > 1 && StackOk(Shadow(fs, AtEntry), mem, p.endHandler)
    requires !Last(fs).patched && g == Last(fs).(patched := g.patched)
    ensures var mem' := if g.patched then mem[g.slot := p.endHandler] else mem;
            StackOk(Shadow(DropLast(fs) + [g], Pushed), mem'[g.slot - 8 := fs[|fs| - 2].slot - 8], p.endHandler)
  {
    StopKeepsStack(fs, g, mem, p);
    assert Load(mem, fs[|fs| - 1].slot) == g.ret;
    hide StackOk, FramesOk;
    if !g.patched {
      var bp := fs[|fs| - 2].slot - 8;
      assert forall a :: Load(mem[g.slot := g.ret], a) == Load(mem, a);
      SameWords(Shadow(DropLast(fs) + [g], Pushed), mem[g.slot := g.ret][g.slot - 8 := bp], mem[g.slot - 8 := bp], p);
    }
  }

  lemma EntryStopKeepsBooks(dbg: Dbg, dbg': Dbg, fs: seq<Frame>, g: Frame)
    requires fs != [] && BooksOk(dbg, fs) && !Last(fs).patched && dbg'.bps == dbg.bps
    requires g.patched ==> EndFlag(dbg.bps, g.entry) == 1
    requires dbg'.stack == dbg.stack + if g.patched then [g.entry] else []
    requires dbg'.rets == dbg.rets + if g.patched then [g.ret] else []
    ensures BooksOk(dbg', DropLast(fs) + [g])
  {
    StopKeepsFlags(fs, g, dbg.bps);
    hide EndFlag;
    SplitLast(fs);
    PatchedSnoc(DropLast(fs), Last(fs));
    PatchedSnoc(DropLast(fs), g);
  }

  lemma TopSlotShows(fs: seq<Frame>, mem: map<int, int>, p: Program)
    requires fs != [] && StackOk(Shadow(fs, AtEntry), mem, p.endHandler) && !Last(fs).patched
    ensures Load(mem, Last(fs).slot) == Last(fs).ret
  {
    assert Load(mem, fs[|fs| - 1].slot) == Last(fs).ret;
  }

  lemma EntryStopKeepsInv(s: Sys, trace: seq<int>, patch: bool, p: Program)
    requires Inv(s, p) && s.sh.phase == AtEntry
    requires patch ==> EndFlag(s.w.dbg.bps, s.w.regs.rip) == 1
    ensures Inv(Sys(EntryStopStoring(Trapped(s.w), trace, patch), ShadowEntry(s.sh, patch)), p)
  {
    hide ListOk, CodeOk, BooksOk, FramesOk, StackOk, EndFlag, PatchedRets, PatchedEntries;
    var fs := s.sh.frames;
    var t := Sys(EntryStopStoring(Trapped(s.w), trace, patch), ShadowEntry(s.sh, patch));
    var g := Last(fs).(patched := patch);
    TopSlotShows(fs, s.w.mem, p);
    FramesRelabel(fs, g, p);
    EntryStopKeepsStack(fs, g, s.w.mem, p);
    EntryStopKeepsBooks(s.w.dbg, t.w.dbg, fs, g);
  }

  lemma SameWords(sh: Shadow, mem: map<int, int>, mem': map<int, int>, p: Program)
    requires StackOk(sh, mem, p.endHandler) && forall a :: Load(mem, a) == Load(mem', a)
    ensures StackOk(sh, mem', p.endHandler)
  {
    SavedCarryOver(sh.frames, sh.frames, mem, mem', if |sh.frames| > 0 then |sh.frames| - 1 else 0);
    if |sh.frames| > 1 && (sh.phase == Pushed || sh.phase == Body) {
      assert SavedBp(sh.frames, mem, |sh.frames| - 1);
      assert SavedBp(sh.frames, mem', |sh.frames| - 1);
    }
  }

  /** Taking the topmost activation's record off the books. */
  lemma PopBooks(fs: seq<Frame>, g: Frame)
    requires fs != [] && Last(fs).patched && !g.patched
    ensures PatchedRets(fs) != [] && Last(PatchedRets(fs)) == Last(fs).ret
    ensures DropLast(PatchedRets(fs)) == PatchedRets(DropLast(fs) + [g])
    ensures DropLast(PatchedEntries(fs)) == PatchedEntries(DropLast(fs) + [g])
  {
    PatchedSnoc(DropLast(fs), g);
    assert PatchedRets(DropLast(fs) + [g]) == PatchedRets(DropLast(fs));
    assert PatchedEntries(DropLast(fs) + [g]) == PatchedEntries(DropLast(fs));
  }

  lemma EndWalkIsTrue(fs: seq<Frame>, g: Frame, mem: map<int, int>, fuel: nat, p: Program)
    requires GoodProgram(p) && FramesOk(fs, p) && 1 < |fs| <= fuel + 1
    requires g == Last(fs).(entry := p.endHandler, patched := false)
    requires StackOk(Shadow(fs, AtEnd), mem, p.endHandler)
    ensures var mem', bp, gs := mem[g.slot := g.ret], fs[|fs| - 2].slot - 8, DropLast(fs) + [g];
            && Walkable(mem', g.slot, bp, fuel, p.endHandler, PatchedRets(gs))
            && Resolve(StackWords(mem', g.slot, bp, fuel), p.endHandler, PatchedRets(gs)) == RetsDown(fs)
  {
    var gs := DropLast(fs) + [g];
    var mem' := mem[g.slot := g.ret];
    FramesRelabel(fs, g, p);
    PushBelow(DropLast(fs), mem, g.slot, g.ret, p);
    SavedCarryOver(fs, gs, mem, mem', |gs| - 1);
    WalkIsTrue(gs, mem', fs[|fs| - 2].slot - 8, fuel, p);
    assert RetsDown(gs) == RetsDown(fs) by { assert DropLast(gs) == DropLast(fs); }
  }

  /** At an end stop the trace is the true backtrace of the function that is ending. */
  lemma EndTraceIsTrue(s: Sys, p: Program)
    requires Inv(s, p) && s.sh.phase == AtEnd
    ensures Traps(s.w) && EndStopReady(Trapped(s.w))
    ensures EndTrace(Trapped(s.w)) == RetsDown(s.sh.frames)
  {
    hide StackWords, Resolve, ReachesEnd, Patches, Walkable, PatchedRets, PatchedEntries, RetsDown;
    var g := Last(s.sh.frames).(entry := p.endHandler, patched := false);
    PopBooks(s.sh.frames, g);
    EndWalkIsTrue(s.sh.frames, g, s.w.mem, MAX_BACKTRACE, p);
  }

  lemma EndStopKeepsBooks(dbg: Dbg, dbg': Dbg, fs: seq<Frame>, g: Frame)
    requires fs != [] && BooksOk(dbg, fs) && Last(fs).patched && !g.patched
    requires dbg'.bps == dbg.bps && dbg.rets != [] && dbg.stack != []
    requires dbg'.rets == DropLast(dbg.rets) && dbg'.stack == DropLast(dbg.stack)
    ensures BooksOk(dbg', DropLast(fs) + [g])
  {
    PopBooks(fs, g);
    StopKeepsFlags(fs, g, dbg.bps);
  }

  lemma EndStopKeepsStack(fs: seq<Frame>, g: Frame, mem: map<int, int>, p: Program)
    requires FramesOk(fs, p) && |fs| > 1 && g.slot == Last(fs).slot && !g.patched
    requires StackOk(Shadow(fs, AtEnd), mem, p.endHandler)
    ensures StackOk(Shadow(DropLast(fs) + [g], Pushed),
                    mem[g.slot := g.ret][g.slot - 8 := fs[|fs| - 2].slot - 8], p.endHandler)
  {
    StopKeepsStack(fs, g, mem, p);
  }

  /** What the books say of the activation that is ending. */
  lemma EndStopBooks(dbg: Dbg, fs: seq<Frame>)
    requires fs != [] && BooksOk(dbg, fs) && Last(fs).patched
    ensures dbg.rets != [] && dbg.stack != [] && Last(dbg.rets) == Last(fs).ret
  {
    PopBooks(fs, Last(fs).(patched := false));
  }

  lemma EndStopKeepsInv(s: Sys, trace: seq<int>, p: Program)
    requires Inv(s, p) && s.sh.phase == AtEnd
    ensures s.w.dbg.rets != [] && s.w.dbg.stack != []
    ensures Last(s.w.dbg.rets) == Last(s.sh.frames).ret
    ensures Inv(Sys(EndStopStoring(Trapped(s.w), trace), ShadowTrap(s.sh, s.w)), p)
  {
    hide ListOk, CodeOk, BooksOk, FramesOk, StackOk, PatchedRets, PatchedEntries;
    var fs := s.sh.frames;
    var g := Last(fs).(entry := p.endHandler, patched := false);
    EndStopBooks(s.w.dbg, fs);
    var t := Sys(EndStopStoring(Trapped(s.w), trace), ShadowTrap(s.sh, s.w));
    FramesRelabel(fs, g, p);
    EndStopKeepsBooks(s.w.dbg, t.w.dbg, fs, g);
    EndStopKeepsStack(fs, g, s.w.mem, p);
  }

  // ---------------------------------------------------------------- the debugger's requests

  predicate Distinct(bps: seq<Bp>) {
    forall i, j | 0 <= i < j < |bps| :: bps[i].addr != bps[j].addr
  }

  lemma EndFlagAt(bps: seq<Bp>, k: nat)
    requires k < |bps| && Distinct(bps)
    ensures Listed(bps, bps[k].addr) && EndFlag(bps, bps[k].addr) == bps[k].endEnable
  {
  }

  /** The list as a map from addresses to flags, apart from address `a`. */
  ghost predicate SameApartFrom(bps: seq<Bp>, bps': seq<Bp>, a: int) {
    forall b :: b != a ==> Listed(bps', b) == Listed(bps, b) && EndFlag(bps', b) == EndFlag(bps, b)
  }

  lemma ChangeFlag(bps: seq<Bp>, k: nat, flag: int)
    requires k < |bps| && Distinct(bps)
    ensures var bps' := bps[k := bps[k].(endEnable := flag)];
            && Distinct(bps') && SameApartFrom(bps, bps', bps[k].addr)
            && Listed(bps', bps[k].addr) && EndFlag(bps', bps[k].addr) == flag
  {
    var bps' := bps[k := bps[k].(endEnable := flag)];
    forall i | 0 <= i < |bps| ensures bps'[i].addr == bps[i].addr {}
    EndFlagAt(bps', k);
    forall b | b != bps[k].addr
      ensures Listed(bps', b) == Listed(bps, b) && EndFlag(bps', b) == EndFlag(bps, b)
    {
      assert Find(bps', b) == Find(bps, b);
    }
  }

  lemma Append(bps: seq<Bp>, n: Bp)
    requires Distinct(bps) && !Listed(bps, n.addr)
    ensures var bps' := bps + [n];
            && Distinct(bps') && SameApartFrom(bps, bps', n.addr)
            && Listed(bps', n.addr) && EndFlag(bps', n.addr) == n.endEnable
  {
    var bps' := bps + [n];
    assert bps'[|bps|] == n;
    EndFlagAt(bps', |bps|);
    forall b | b != n.addr
      ensures Listed(bps', b) == Listed(bps, b) && EndFlag(bps', b) == EndFlag(bps, b)
    {
      if Listed(bps, b) {
        assert bps'[Find(bps, b)] == bps[Find(bps, b)];
        EndFlagAt(bps', Find(bps, b));
      }
    }
  }

  lemma Unlink(bps: seq<Bp>, k: nat)
    requires k < |bps| && Distinct(bps)
    ensures var bps' := bps[..k] + bps[k + 1..];
            Distinct(bps') && SameApartFrom(bps, bps', bps[k].addr) && !Listed(bps', bps[k].addr)
  {
    var bps' := bps[..k] + bps[k + 1..];
    forall b | b != bps[k].addr
      ensures Listed(bps', b) == Listed(bps, b) && EndFlag(bps', b) == EndFlag(bps, b)
    {
      if Listed(bps, b) {
        var j := Find(bps, b);
        assert bps'[if j < k then j else j - 1] == bps[j];
        EndFlagAt(bps', if j < k then j else j - 1);
      }
    }
  }

  lemma CodeFollowsList(code: map<int, int>, bps: seq<Bp>, bps': seq<Bp>, a: int, p: Program)
    requires CodeOk(code, bps, p) && SameApartFrom(bps, bps', a)
    requires a in p.entries && a != p.endHandler
    ensures CodeOk(code[a := if Listed(bps', a) then INT3_OPCODE else PUSHRBP_OPCODE], bps', p)
    ensures Listed(bps', a) == Listed(bps, a) ==> CodeOk(code, bps', p)
  {
  }

  lemma FlagIsBit(bps: seq<Bp>, num: int, a: int, p: Program)
    requires ListOk(bps, num, p)
    ensures EndFlag(bps, a) == 0 || EndFlag(bps, a) == 1
  {
  }

  lemma FlagsFollow(frames: seq<Frame>, bps: seq<Bp>, bps': seq<Bp>, a: int)
    requires SameApartFrom(bps, bps', a)
    requires forall i | 0 <= i < |frames| :: frames[i].patched ==> EndFlag(bps, frames[i].entry) == 1
    requires a in PatchedEntries(frames) ==> EndFlag(bps', a) == 1
    ensures forall i | 0 <= i < |frames| :: frames[i].patched ==> EndFlag(bps', frames[i].entry) == 1
  {
    hide EndFlag, Listed;
    OnStackIsPatched(frames, a);
  }

  lemma FlagKeepsList(bps: seq<Bp>, num: int, k: nat, flag: int, p: Program)
    requires ListOk(bps, num, p) && k < |bps| && (flag == 0 || flag == 1)
    ensures ListOk(bps[k := bps[k].(endEnable := flag)], num, p) && Distinct(bps)
  {
  }

  lemma AppendKeepsList(bps: seq<Bp>, num: int, a: int, flag: int, p: Program)
    requires ListOk(bps, num, p) && |bps| < MAX_BREAKPOINTS && !Listed(bps, a) && (flag == 0 || flag == 1)
    requires a in p.entries && a != p.endHandler
    ensures ListOk(bps + [Bp(num + 1, a, flag)], num + 1, p) && Distinct(bps)
  {
  }

  lemma UnlinkKeepsList(bps: seq<Bp>, num: int, k: nat, p: Program)
    requires ListOk(bps, num, p) && k < |bps|
    ensures ListOk(bps[..k] + bps[k + 1..], num, p) && Distinct(bps)
    ensures bps[k].addr in p.entries && bps[k].addr != p.endHandler
  {
  }

  lemma SetKeepsList(w: World, a: int, flag: int, haveMemory: bool, p: Program)
    requires ListOk(w.dbg.bps, w.dbg.breakpointNum, p) && CodeOk(w.code, w.dbg.bps, p)
    requires a in p.entries && a != p.endHandler && (flag == 0 || flag == 1)
    ensures var t := SetBreakpoint(w, a, flag, haveMemory).0;
            && ListOk(t.dbg.bps, t.dbg.breakpointNum, p) && CodeOk(t.code, t.dbg.bps, p)
            && SameApartFrom(w.dbg.bps, t.dbg.bps, a)
            && (t != w ==> EndFlag(t.dbg.bps, a) == flag)
  {
    hide ListOk, CodeOk, EndFlag, Distinct;
    var bps, k := w.dbg.bps, Find(w.dbg.bps, a);
    var t := SetBreakpoint(w, a, flag, haveMemory).0;
    if t != w {
      if k < |bps| {
        FlagKeepsList(bps, w.dbg.breakpointNum, k, flag, p);
        ChangeFlag(bps, k, flag);
      } else {
        AppendKeepsList(bps, w.dbg.breakpointNum, a, flag, p);
        Append(bps, Bp(w.dbg.breakpointNum + 1, a, flag));
      }
      CodeFollowsList(w.code, bps, t.dbg.bps, a, p);
    }
  }

  lemma RemoveKeepsList(w: World, a: int, p: Program)
    requires ListOk(w.dbg.bps, w.dbg.breakpointNum, p) && CodeOk(w.code, w.dbg.bps, p)
    ensures var t := RemoveBreakpoint(w, a).0;
            && ListOk(t.dbg.bps, t.dbg.breakpointNum, p) && CodeOk(t.code, t.dbg.bps, p)
            && SameApartFrom(w.dbg.bps, t.dbg.bps, a)
  {
    hide ListOk, CodeOk, EndFlag, Distinct;
    var bps, k := w.dbg.bps, Find(w.dbg.bps, a);
    var t := RemoveBreakpoint(w, a).0;
    if t != w {
      UnlinkKeepsList(bps, w.dbg.breakpointNum, k, p);
      Unlink(bps, k);
      CodeFollowsList(w.code, bps, t.dbg.bps, a, p);
    }
  }

  lemma SetKeepsInv(s: Sys, a: int, flag: int, haveMemory: bool, p: Program)
    requires Inv(s, p) && Enabled(s, Set(a, flag, haveMemory), p)
    ensures Inv(Next(s, Set(a, flag, haveMemory)), p)
  {
    hide FramesOk, StackOk, TopOk, ListOk, CodeOk, SameApartFrom;
    var t := Next(s, Set(a, flag, haveMemory));
    SetKeepsList(s.w, a, flag, haveMemory, p);
    if t != s {
      OnStackIsPatched(s.sh.frames, a);
      FlagsFollow(s.sh.frames, s.w.dbg.bps, t.w.dbg.bps, a);
    }
  }

  lemma RemoveKeepsInv(s: Sys, a: int, p: Program)
    requires Inv(s, p)
    ensures Inv(Next(s, Remove(a)), p)
  {
    hide FramesOk, StackOk, TopOk, ListOk, CodeOk, SameApartFrom;
    var t := Next(s, Remove(a));
    RemoveKeepsList(s.w, a, p);
    if t != s {
      OnStackIsPatched(s.sh.frames, a);
      FlagsFollow(s.sh.frames, s.w.dbg.bps, t.w.dbg.bps, a);
    }
  }

  // ---------------------------------------------------------------- every step

  /** No step a well-behaved child and debugger can take breaks the invariant
      or makes the handler run out of its arrays. */
  lemma StepKeepsInv(s: Sys, ev: Event, p: Program)
    requires Inv(s, p) && Enabled(s, ev, p)
    ensures Steppable(s, ev) && Inv(Next(s, ev), p)
  {
    hide FramesOk, StackOk, BooksOk, CodeOk, ListOk, RetsDown, EntryStopStoring, EndStopStoring;
    match ev
    case Set(a, flag, haveMemory) => SetKeepsInv(s, a, flag, haveMemory, p);
    case Remove(a) => RemoveKeepsInv(s, a, p);
    case Resume =>
    case Step(i) =>
      if s.sh.phase == AtEnd {
        EndTraceIsTrue(s, p);
        EndStopKeepsInv(s, EndTrace(Trapped(s.w)), p);
      } else if s.sh.phase == AtEntry {
        if Traps(s.w) {
          EntryTraceIsTrue(s, p);
          FlagIsBit(s.w.dbg.bps, s.w.dbg.breakpointNum, s.w.regs.rip, p);
          EntryStopKeepsInv(s, EntryTrace(Trapped(s.w)), EndFlag(s.w.dbg.bps, s.w.regs.rip) != 0, p);
        } else {
          PushKeepsInv(s, p);
        }
      } else {
        NoTrapInside(s, p);
        match i
        case Call(_, _) => CallKeepsInv(s, i, p);
        case Work(_, _) => WorkKeepsInv(s, i, p);
        case Ret => RetKeepsInv(s, p);
        case MovRbp => MovKeepsInv(s, p);
        case Leave => LeaveKeepsInv(s, p);
      }
  }
}
