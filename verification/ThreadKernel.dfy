/** The thread table of a process and its page tables as the kernel keeps them,
    changed in place.  Every handler is proved to have the effect ThreadSpec states. */
module ThreadKernel {
  import opened AddressWord
  import opened PageEntry
  import opened PageTable
  import PageWalk
  import opened ThreadSpec

  class ThreadInfo {
    const proc: int
    const root: Frame
    const threads: array<Thread>
    var mem: Memory          // the frames the page tables occupy

    ghost predicate Valid()
      reads threads
    {
      threads.Length == MAX_THREADS && forall i | 0 <= i < threads.Length :: |threads[i].areas| == MAX_PRIVATE_AREAS
    }

    /** The zeroed table the first clone allocates. */
    constructor (proc: int, root: Frame, mem: Memory)
      ensures Valid() && fresh(threads)
      ensures this.proc == proc && this.root == root && this.mem == mem
      ensures forall i | 0 <= i < threads.Length ::
                && !threads[i].used && threads[i].pid == 0
                && forall j | 0 <= j < MAX_PRIVATE_AREAS :: !threads[i].areas[j].live
    {
      this.proc, this.root, this.mem := proc, root, mem;
      var none := Area(false, 0, 0, 0);
      threads := new Thread[MAX_THREADS](_ => Thread(0, false, [none, none, none, none]));
    }

    // -------------------------------------------------------------- pt_walk

    /** One upper level of pt_walk; `n` frames of the pool are already taken. */
    method Enter(base: Frame, index: nat, fromSwitch: bool, pool: seq<Frame>, n: nat,
                 ghost idxs: seq<nat>, ghost remove: bool, ghost compOff: bool)
      returns (found: bool, below: Frame, used: nat)
      requires |idxs| > 1 && idxs[0] == index && n <= |pool| && (fromSwitch || n + |idxs| <= |pool|)
      modifies this`mem
      ensures n <= used <= |pool| && (fromSwitch || used + |idxs| - 1 <= |pool|)
      ensures Walk(old(mem), base, idxs, remove, fromSwitch, compOff, pool[n..]) ==
                if found then Walk(mem, below, idxs[1..], remove, fromSwitch, compOff, pool[used..]) else mem
    {
      var entry := Loc(base, index);
      hide Present, FrameOf, Open, NewEntry, SetLeaf, NewLeaf;
      if Present(Entry(mem, base, index)) {
        mem := mem[entry := Open(Entry(mem, base, index))];
        found, below, used := true, FrameOf(Entry(mem, base, index)), n;
      } else if fromSwitch {
        found, below, used := false, base, n;
      } else {
        mem := mem[entry := NewEntry(pool[n])];
        found, below, used := true, pool[n], n + 1;
        assert pool[n..][1..] == pool[n + 1..];
      }
    }

    /** The index into each level, masked and shifted out of the address word. */
    static method Indices(addr: nat) returns (pgd: nat, pud: nat, pmd: nat, pte: nat)
      ensures Path(addr) == [pgd, pud, pmd, pte]
    {
      hide Path, NumberOf, WordOf, PgdIndex, PudIndex, PmdIndex, PteIndex;
      WordIndices(addr);
      var word := WordOf(addr);
      pgd, pud, pmd, pte := NumberOf(PgdIndex(word)), NumberOf(PudIndex(word)),
                            NumberOf(PmdIndex(word)), NumberOf(PteIndex(word));
    }

    /** pt_walk; `pool` are the frames the allocator would hand out, in order. */
    method PtWalk(addr: nat, remove: bool, fromSwitch: bool, compOff: bool, pool: seq<Frame>)
      requires fromSwitch || 4 <= |pool|
      modifies this`mem
      ensures mem == PageWalk.PtWalk(old(mem), root, addr, remove, fromSwitch, compOff, pool)
    {
      ghost var idxs := Path(addr);
      assert pool[0..] == pool;
      var index0, index1, index2, index3 := Indices(addr);
      hide Present, FrameOf, Open, NewEntry, SetLeaf, NewLeaf;
      hide Path;
      var found, base, n := Enter(root, index0, fromSwitch, pool, 0, idxs, remove, compOff);
      if !found { return; }
      found, base, n := Enter(base, index1, fromSwitch, pool, n, idxs[1..], remove, compOff);
      if !found { return; }
      assert idxs[1..][1..] == idxs[2..];
      found, base, n := Enter(base, index2, fromSwitch, pool, n, idxs[2..], remove, compOff);
      if !found { return; }
      assert idxs[2..][1..] == [index3];
      Leaf(base, index3, remove, fromSwitch, compOff, pool, n);
    }

    /** The last level of pt_walk. */
    method Leaf(base: Frame, index: nat, remove: bool, fromSwitch: bool, compOff: bool, pool: seq<Frame>, n: nat)
      requires n <= |pool| && (fromSwitch || n < |pool|)
      modifies this`mem
      ensures mem == Walk(old(mem), base, [index], remove, fromSwitch, compOff, pool[n..])
    {
      hide Present, Open, NewEntry, Narrow, Shut;
      var entry := Loc(base, index);
      if Present(Entry(mem, base, index)) {
        if !compOff {
          mem := mem[entry := Open(Entry(mem, base, index))];
          if remove { mem := mem[entry := Narrow(Entry(mem, base, index))]; }
        } else {
          mem := mem[entry := Shut(Entry(mem, base, index))];
        }
      } else {
        if fromSwitch { return; }
        mem := mem[entry := NewEntry(pool[n])];
        if remove { mem := mem[entry := Narrow(Entry(mem, base, index))]; }
      }
    }

    // -------------------------------------------------------------- searches

    method FindThreadFromPid(pid: int) returns (r: nat)
      requires Valid()
      ensures r == FindFrom(threads[..], pid, 0)
    {
      r := 0;
      while r < MAX_THREADS
        invariant r <= MAX_THREADS && FindFrom(threads[..], pid, r) == FindFrom(threads[..], pid, 0)
      {
        if threads[r].pid == pid { return; }
        r := r + 1;
      }
    }

    method FindUnusedMap(i: nat) returns (r: nat)
      requires Valid() && i < threads.Length
      ensures r == FreeAreaFrom(threads[i].areas, 0)
    {
      r := 0;
      while r < MAX_PRIVATE_AREAS
        invariant r <= MAX_PRIVATE_AREAS && FreeAreaFrom(threads[i].areas, r) == FreeAreaFrom(threads[i].areas, 0)
      {
        if !threads[i].areas[r].live { return; }
        r := r + 1;
      }
    }

    method FindThmap(i: nat, addr: nat, length: nat) returns (r: nat)
      requires Valid() && i < threads.Length
      ensures r == FindMapFrom(threads[i].areas, addr, length, 0)
    {
      r := 0;
      while r < MAX_PRIVATE_AREAS
        invariant r <= MAX_PRIVATE_AREAS
        invariant FindMapFrom(threads[i].areas, addr, length, r) == FindMapFrom(threads[i].areas, addr, length, 0)
      {
        if MatchesMap(threads[i].areas[r], addr, length) { return; }
        r := r + 1;
      }
    }

    method FindThreadFromAddress(addr: nat, length: nat) returns (r: nat)
      requires Valid()
      ensures r == FindOwnerFrom(threads[..], addr, length, 0)
    {
      r := 0;
      while r < MAX_THREADS
        invariant r <= MAX_THREADS
        invariant FindOwnerFrom(threads[..], addr, length, r) == FindOwnerFrom(threads[..], addr, length, 0)
      {
        if threads[r].used {
          var area := FindThmap(r, addr, length);
          if area < MAX_PRIVATE_AREAS { return; }
        }
        r := r + 1;
      }
    }

    // -------------------------------------------------------------- clone, map, unmap, exit

    /** do_clone for the process, once the new context has its pid. */
    method DoClone(pid: int) returns (r: int)
      requires Valid()
      modifies threads
      ensures Valid() && (threads[..], r) == Clone(old(threads[..]), pid)
    {
      var idx, i := -1, 0;
      while i < MAX_THREADS
        invariant i <= MAX_THREADS && idx == -1 && UnusedFrom(threads[..], i) == UnusedFrom(threads[..], 0)
      {
        if !threads[i].used {
          idx := i;
          break;
        }
        i := i + 1;
      }
      if idx == -1 { return -1; }
      threads[idx] := threads[idx].(used := true);
      threads[idx] := threads[idx].(pid := pid);
      assert threads[..] == old(threads[..])[idx := old(threads[idx]).(used := true, pid := pid)];
      r := pid;
    }

    method HandleThreadPrivateMmap(running: int, addr: nat, length: nat, prot: bv32) returns (r: int)
      requires Valid()
      modifies threads
      ensures Valid() && (threads[..], r) == Mmap(old(threads[..]), proc, running, addr, length, prot)
    {
      if running == proc { return -1; }
      var i := FindThreadFromPid(running);
      if i == MAX_THREADS { return -1; }
      var j := FindUnusedMap(i);
      if j == MAX_PRIVATE_AREAS { return -1; }
      threads[i] := threads[i].(areas := threads[i].areas[j := Area(true, addr, length, prot)]);
      r := 0;
    }

    method HandleThreadPrivateUnmmap(running: int, addr: nat, length: nat) returns (target: UnmapResult)
      requires Valid()
      modifies threads
      ensures Valid() && target == UnmapTarget(old(threads[..]), proc, running, addr, length)
      ensures threads[..] == Unmap(old(threads[..]), proc, running, addr, length)
    {
      var i: nat;
      if running == proc {
        i := FindThreadFromAddress(addr, length);
        if i == MAX_THREADS { return NotPrivate; }
      } else {
        i := FindThreadFromPid(running);
        if i == MAX_THREADS { return Segfault; }
      }
      var j := FindThmap(i, addr, length);
      if j == MAX_PRIVATE_AREAS { return Segfault; }
      threads[i] := threads[i].(areas := threads[i].areas[j := Drop(threads[i].areas[j])]);
      target := Dropped(i, j);
    }

    /** handle_thread_exit, with the owner cleared for each area that is unmapped. */
    method HandleThreadExit(pid: int)
      requires Valid()
      modifies threads
      ensures Valid() && threads[..] == Exit(old(threads[..]), pid)
    {
      var i := FindThreadFromPid(pid);
      if i == MAX_THREADS { return; }
      var ctr := 0;
      ghost var areas := threads[i].areas;
      while ctr < MAX_PRIVATE_AREAS
        invariant ctr <= MAX_PRIVATE_AREAS && Valid()
        invariant forall k | 0 <= k < threads.Length && k != i :: threads[k] == old(threads[k])
        invariant threads[i] == old(threads[i]).(areas := threads[i].areas)
        invariant forall k | 0 <= k < ctr :: threads[i].areas[k] == Drop(areas[k])
        invariant forall k | ctr <= k < MAX_PRIVATE_AREAS :: threads[i].areas[k] == areas[k]
      {
        if threads[i].areas[ctr].live {
          threads[i] := threads[i].(areas := threads[i].areas[ctr := Drop(threads[i].areas[ctr])]);
        }
        ctr := ctr + 1;
      }
      assert threads[i].areas == DropAll(areas);
      threads[i] := threads[i].(used := false);
    }

    // -------------------------------------------------------------- fault and switch

    method HandleThreadPrivateFault(running: int, addr: nat, error: bv32, pool: seq<Frame>) returns (r: int)
      requires Valid() && 4 <= |pool|
      modifies this`mem
      ensures (mem, r) == Fault(old(mem), root, threads[..], proc, running, addr, error, pool)
    {
      hide Truth, RdWr, RdOnly;
      if error == PF_PROTECTED_WRITE { return -1; }
      var own, area := -1, -1;
      for i := 0 to MAX_THREADS
        invariant own == area == -1 || (0 <= own < MAX_THREADS && 0 <= area < MAX_PRIVATE_AREAS)
        invariant LastHit(threads[..], addr, i) == if own == -1 then Miss else Hit(own, area)
      {
        if !threads[i].used { continue; }
        var j := 0;
        while j < MAX_PRIVATE_AREAS
          invariant j <= MAX_PRIVATE_AREAS && HitFrom(threads[i].areas, addr, j) == HitFrom(threads[i].areas, addr, 0)
          invariant own == area == -1 || (0 <= own < MAX_THREADS && 0 <= area < MAX_PRIVATE_AREAS)
          invariant LastHit(threads[..], addr, i) == if own == -1 then Miss else Hit(own, area)
        {
          if threads[i].areas[j].live {
            var start := threads[i].areas[j].start;
            if addr >= start && addr < start + threads[i].areas[j].length {
              own, area := i, j;
              break;
            }
          }
          j := j + 1;
        }
      }
      if own == -1 || area == -1 { return -1; }
      var flags := threads[own].areas[area].flags;
      if running == proc || running == threads[own].pid || RdWr(flags) {
        PtWalk(addr, false, false, false, pool);
        return 1;
      } else if RdOnly(flags) && error & Truth(PF_ERROR_WR == 0) != 0 {
        PtWalk(addr, true, false, false, pool);
        return 1;
      } else {
        return -1;
      }
    }

    method HandlePrivateCtxswitch(next: int)
      requires Valid()
      modifies this`mem
      ensures mem == SwitchThreads(old(mem), root, threads[..], proc, next, 0)
    {
      for i := 0 to MAX_THREADS
        invariant SwitchThreads(mem, root, threads[..], proc, next, i) ==
                  SwitchThreads(old(mem), root, threads[..], proc, next, 0)
      {
        if !threads[i].used { continue; }
        ghost var before := mem;
        for j := 0 to MAX_PRIVATE_AREAS
          invariant SwitchAreas(mem, root, threads[i], proc, next, j)
                    == SwitchAreas(before, root, threads[i], proc, next, 0)
        {
          if !threads[i].areas[j].live { continue; }
          SwitchArea(i, j, next);
        }
      }
    }

    /** The pass over one area. */
    method SwitchArea(i: nat, j: nat, next: int)
      requires Valid() && i < MAX_THREADS && j < MAX_PRIVATE_AREAS
      modifies this`mem
      ensures var (remove, compOff) := SwitchMode(proc, next, threads[i].pid, threads[i].areas[j].flags);
              mem == SwitchPages(old(mem), root, threads[i].areas[j], remove, compOff, 0)
    {
      var start, length, flags := threads[i].areas[j].start, threads[i].areas[j].length, threads[i].areas[j].flags;
      ghost var (remove, compOff) := SwitchMode(proc, next, threads[i].pid, flags);
      var val := length / PAGE_SIZE;
      hide PageWalk.PtWalk;
      for k := 0 to val
        invariant SwitchPages(mem, root, threads[i].areas[j], remove, compOff, k) ==
                  SwitchPages(old(mem), root, threads[i].areas[j], remove, compOff, 0)
      {
        var addr := start + k * PAGE_SIZE;
        if next == proc {
          PtWalk(addr, false, true, false, []);
        } else {
          if threads[i].pid == next {
            PtWalk(addr, false, true, false, []);
          } else {
            if RdWr(flags) {
              PtWalk(addr, false, true, false, []);
            } else if RdOnly(flags) {
              PtWalk(addr, true, true, false, []);
            } else {
              PtWalk(addr, false, true, true, []);
            }
          }
        }
      }
    }
  }
}
