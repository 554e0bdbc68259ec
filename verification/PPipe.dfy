/** The persistent pipe's implementation: one ring buffer, and per process the
    position it reads at and how far it lags behind the writer, all changed in
    place.  Every operation is proved to be the stream operation of PPipeSpec. */
module PPipe {
  import opened IpcBase
  import opened Ring
  import opened PPipeSpec

  /** ppipe_info_per_process */
  datatype Proc = Proc(pid: int, locOffset: int, ropen: bool, wopen: bool, readPos: int)

  const NO_PROC := Proc(FREE, 0, false, false, 0)

  function AsEnd(p: Proc, total: int): End {
    if p.pid == FREE then NO_END else End(p.pid, total - p.locOffset, p.ropen, p.wopen)
  }

  function AsEnds(ps: seq<Proc>, total: int): (ends: seq<End>)
    ensures |ends| == |ps|
    ensures forall i | 0 <= i < |ps| :: ends[i] == AsEnd(ps[i], total)
  {
    seq(|ps|, i requires 0 <= i < |ps| => AsEnd(ps[i], total))
  }

  /** An open reader's position is its cursor's place in the ring. */
  predicate ReaderOk(p: Proc, total: int, size: nat) {
    p.pid != FREE && p.ropen && size > 0 && p.locOffset <= total ==> p.readPos == (total - p.locOffset) % size
  }

  predicate ReadersOk(ps: seq<Proc>, total: int, size: nat) {
    forall i | 0 <= i < |ps| :: ReaderOk(ps[i], total, size)
  }

  lemma AsEndsUpdate(ps: seq<Proc>, total: int, k: nat, p: Proc)
    requires k < |ps|
    ensures AsEnds(ps[k := p], total) == AsEnds(ps, total)[k := AsEnd(p, total)]
  {
  }

  /** The first slot whose pid is `pid`, read off the concrete slots. */
  lemma SearchIs(ps: seq<Proc>, total: int, pid: int, k: nat)
    requires k <= |ps| && (k < |ps| ==> ps[k].pid == pid) && forall i | 0 <= i < k :: ps[i].pid != pid
    ensures SlotOf(AsEnds(ps, total), pid) == k
  {
    var ends := AsEnds(ps, total);
    assert forall i | 0 <= i < |ps| :: ends[i].pid == ps[i].pid;
  }

  /** Each process of the pipe lags `n` bytes further behind. */
  function Lag(p: Proc, n: int): Proc {
    if p.pid == FREE then p else p.(locOffset := p.locOffset + n)
  }

  lemma LagKeepsEnds(ps: seq<Proc>, qs: seq<Proc>, total: int, n: int, size: nat)
    requires |qs| == |ps| && forall i | 0 <= i < |ps| :: qs[i] == Lag(ps[i], n)
    requires ReadersOk(ps, total, size)
    ensures AsEnds(qs, total + n) == AsEnds(ps, total) && ReadersOk(qs, total + n, size)
  {
    forall i | 0 <= i < |ps| ensures ReaderOk(qs[i], total + n, size) {
      assert ReaderOk(ps[i], total, size);
    }
  }

  /** `lag` is the largest lag of an open reader among the first `n` slots. */
  predicate LargestLag(ps: seq<Proc>, n: nat, lag: int, some: bool)
    requires n <= |ps|
  {
    && lag >= 0
    && (some <==> exists i | 0 <= i < n :: ps[i].pid != FREE && ps[i].ropen)
    && (forall i | 0 <= i < n && ps[i].pid != FREE && ps[i].ropen :: ps[i].locOffset <= lag)
    && (lag == 0 || exists i | 0 <= i < n :: ps[i].pid != FREE && ps[i].ropen && ps[i].locOffset == lag)
  }

  lemma LagIsSlowest(ps: seq<Proc>, total: int, lag: int, some: bool)
    requires LargestLag(ps, |ps|, lag, some)
    ensures HasReader(AsEnds(ps, total)) == some
    ensures some ==> Slowest(AsEnds(ps, total), total) == total - lag
  {
    var ends := AsEnds(ps, total);
    if some {
      var i :| 0 <= i < |ps| && ps[i].pid != FREE && ps[i].ropen;
      assert ends[i].ropen;
      if lag != 0 {
        var j :| 0 <= j < |ps| && ps[j].pid != FREE && ps[j].ropen && ps[j].locOffset == lag;
        assert ends[j].ropen && ends[j].cursor == total - lag;
      }
      var m := Slowest(ends, total);
      if m != total {
        var j :| 0 <= j < |ends| && ends[j].ropen && ends[j].cursor == m;
        assert ps[j].locOffset <= lag;
      }
    } else {
      assert forall j | 0 <= j < |ends| :: ends[j].ropen ==> ps[j].pid != FREE && ps[j].ropen;
    }
  }

  /** The number of open ends among the first `n` slots. */
  function OpenEnds(ps: seq<Proc>, n: nat): nat
    requires n <= |ps|
  {
    if n == 0 then 0
    else
      var p := ps[n - 1];
      OpenEnds(ps, n - 1) + if p.pid == FREE then 0 else (if p.ropen then 1 else 0) + (if p.wopen then 1 else 0)
  }

  lemma {:induction false} NoOpenEnds(ps: seq<Proc>, n: nat, total: int)
    requires n <= |ps|
    ensures OpenEnds(ps, n) == 0 <==>
              forall i | 0 <= i < n :: !AsEnds(ps, total)[i].ropen && !AsEnds(ps, total)[i].wopen
  {
    if n > 0 {
      NoOpenEnds(ps, n - 1, total);
      assert AsEnds(ps, total)[n - 1] == AsEnd(ps[n - 1], total);
    }
  }

  lemma FrontierAhead(s: Stream, size: nat, lag: int)
    requires Inv(s, size) && HasReader(s.ends) && Slowest(s.ends, |s.data|) == |s.data| - lag
    ensures s.frontier <= |s.data| - lag <= |s.data|
  {
    FlushExact(s, size);
  }

  class PPipe {
    const buff: array<byte>
    const procs: array<Proc>
    var buffOffset: int
    var writePos: int

    ghost var data: seq<byte>       // everything ever written
    ghost var frontier: int         // how much of it has been reclaimed

    ghost function View(): Stream
      reads procs, `data, `frontier
    {
      Stream(data, frontier, AsEnds(procs[..], |data|))
    }

    ghost predicate Valid()
      reads this, buff, procs
    {
      && RingOk(buff[..], buffOffset, writePos, data, frontier)
      && Inv(View(), buff.Length)
      && ReadersOk(procs[..], |data|, buff.Length)
    }

    /** alloc_ppipe_info and the set-up in create_persistent_pipe; the kernel
        has size == 4096 and slots == 16. */
    constructor (size: nat, slots: nat, pid: nat)
      requires size > 0 && slots > 0
      ensures Valid() && fresh(buff) && fresh(procs) && buff.Length == size
      ensures View() == Create(slots, pid).s
    {
      buff := new byte[size](_ => 0);
      procs := new Proc[slots](i => if i == 0 then Proc(pid, 0, true, true, 0) else NO_PROC);
      buffOffset, writePos := 0, 0;
      data, frontier := [], 0;
    }

    /** The space accounts of an open reader: it lags no further behind than the
        ring holds, and its position follows from what was written and its lag. */
    lemma ReaderAccounts(k: nat)
      requires Valid() && k < procs.Length && procs[k].pid != FREE && procs[k].ropen
      ensures 0 <= procs[k].locOffset <= buffOffset <= buff.Length
      ensures procs[k].readPos == (|data| - procs[k].locOffset) % buff.Length
      ensures writePos == (procs[k].readPos + procs[k].locOffset) % buff.Length
    {
      assert View().ends[k] == AsEnd(procs[k], |data|) && ReaderOk(procs[..][k], |data|, buff.Length);
      ModAdd(|data| - procs[k].locOffset, procs[k].locOffset, buff.Length);
    }

    /** The first slot of process `pid`, or procs.Length. */
    method Search(pid: int) returns (curr: nat)
      ensures curr == SlotOf(AsEnds(procs[..], |data|), pid)
      ensures curr <= procs.Length && (curr < procs.Length ==> procs[curr].pid == pid)
    {
      curr := 0;
      while curr < procs.Length && procs[curr].pid != pid
        invariant curr <= procs.Length
        invariant forall i | 0 <= i < curr :: procs[i].pid != pid
      {
        curr := curr + 1;
      }
      SearchIs(procs[..], |data|, pid, curr);
    }

    /** The search without early exit; pids being distinct, the last slot of the
        process is the first. */
    method SearchLast(pid: nat) returns (curr: nat)
      requires Inv(View(), buff.Length)
      ensures curr == SlotOf(AsEnds(procs[..], |data|), pid)
      ensures curr <= procs.Length && (curr < procs.Length ==> procs[curr].pid == pid)
    {
      curr := procs.Length;
      var i := 0;
      while i < procs.Length
        invariant i <= procs.Length && (curr == procs.Length || curr < i)
        invariant curr < procs.Length ==> procs[curr].pid == pid
        invariant curr == procs.Length ==> forall j | 0 <= j < i :: procs[j].pid != pid
      {
        if procs[i].pid == pid {
          curr := i;
        }
        i := i + 1;
      }
      if curr < procs.Length {
        forall j | 0 <= j < curr ensures procs[j].pid != pid {
          assert View().ends[j].pid == procs[j].pid && View().ends[curr].pid == procs[curr].pid;
        }
      }
      SearchIs(procs[..], |data|, pid, curr);
    }

    /** ppipe_read by process `pid` through a file with or without read access;
        `dst` is a valid buffer of at least `count` bytes. */
    method Read(readable: bool, pid: nat, dst: array<byte>, count: nat) returns (r: int)
      requires Valid() && count <= dst.Length && dst != buff
      modifies procs, dst
      ensures Valid()
      ensures !readable ==> r == -EACCES && View() == old(View()) && dst[..] == old(dst[..])
      ensures readable ==>
                var (t, result) := PPipeSpec.Read(old(View()), pid, count);
                && View() == t
                && match result
                   case ReadError(code) => r == code && dst[..] == old(dst[..])
                   case Bytes(bytes) => r == |bytes| && dst[..r] == bytes && dst[r..] == old(dst[r..])
    {
      hide SlotOf, RingOk, ReadersOk, AsEnds, Inv;
      if !readable {
        return -EACCES;
      }
      var curr := Search(pid);
      if curr == procs.Length || !procs[curr].ropen {
        return -EINVAL;
      }
      r := CopyOut(curr, dst, count, View());
      ReadKeepsInv(old(View()), buff.Length, pid, count);
    }

    /** The reader in slot `curr` takes the bytes one by one. */
    method CopyOut(curr: nat, dst: array<byte>, count: nat, ghost was: Stream) returns (r: nat)
      requires Valid() && was == View() && count <= dst.Length && dst != buff
      requires curr < procs.Length && procs[curr].pid != FREE && procs[curr].ropen
      modifies procs, dst
      ensures var from := was.ends[curr].cursor;
              && r == Min(count, |data| - from)
              && dst[..r] == data[from..from + r] && dst[r..] == old(dst[r..])
              && AsEnds(procs[..], |data|) == was.ends[curr := was.ends[curr].(cursor := from + r)]
      ensures ReadersOk(procs[..], |data|, buff.Length)
    {
      ghost var ps, from := procs[..], was.ends[curr].cursor;
      assert was.ends[curr] == AsEnd(procs[curr], |data|) && ReaderOk(ps[curr], |data|, buff.Length);
      hide Inv;
      r := 0;
      while r < count && procs[curr].locOffset != 0
        invariant r <= count && from + r <= |data|
        invariant procs[..]
               == ps[curr := ps[curr].(locOffset := |data| - from - r, readPos := (from + r) % buff.Length)]
        invariant forall i | 0 <= i < r :: dst[i] == data[from + i]
        invariant forall i | r <= i < dst.Length :: dst[i] == old(dst[i])
        decreases count - r
      {
        assert buff[..][(from + r) % buff.Length] == data[from + r];
        dst[r] := buff[procs[curr].readPos];
        ModNext(from + r, buff.Length);
        procs[curr] := procs[curr].(readPos := (procs[curr].readPos + 1) % buff.Length);
        procs[curr] := procs[curr].(locOffset := procs[curr].locOffset - 1);
        r := r + 1;
      }
      AsEndsUpdate(ps, |data|, curr, procs[curr]);
    }

    /** ppipe_write by process `pid` of the first `count` bytes of `src`. */
    method Write(writable: bool, pid: nat, src: array<byte>, count: nat) returns (r: int)
      requires Valid() && count <= src.Length && src != buff
      modifies this, buff, procs
      ensures Valid()
      ensures !writable ==> r == -EACCES && View() == old(View())
      ensures writable ==> (View(), r) == PPipeSpec.Write(old(View()), buff.Length, pid, old(src[..count]))
    {
      hide SlotOf, ReadersOk, AsEnds;
      if !writable {
        return -EACCES;
      }
      ghost var was := View();
      var curr := Search(pid);
      if curr == procs.Length || !procs[curr].wopen {
        return -EINVAL;
      }
      WriteKeepsInv(was, buff.Length, pid, src[..count]);
      hide RingOk, Inv;
      ghost var now, ps := data, procs[..];
      r, now := CopyIn(src, count);
      Account(r);
      LagKeepsEnds(ps, procs[..], |data|, r, buff.Length);
      data := now;
      assert src[..count][..r] == src[..r];
    }

    /** Fill the ring until the source or the space is used up. */
    method CopyIn(src: array<byte>, count: nat) returns (r: nat, ghost now: seq<byte>)
      requires RingOk(buff[..], buffOffset, writePos, data, frontier) && count <= src.Length && src != buff
      modifies `buffOffset, `writePos, buff
      ensures r == Min(count, frontier + buff.Length - |data|)
      ensures now == data + src[..r] && RingOk(buff[..], buffOffset, writePos, now, frontier)
    {
      r, now := 0, data;
      while r < count
        invariant r <= count && buffOffset == old(buffOffset) + r
        invariant now == data + src[..r] && RingOk(buff[..], buffOffset, writePos, now, frontier)
      {
        if buffOffset == buff.Length {
          break;
        }
        RingStore(buff[..], buffOffset, writePos, now, frontier, src[r]);
        buff[writePos] := src[r];
        now := now + [src[r]];
        r := r + 1;
        buffOffset := buffOffset + 1;
        writePos := (writePos + 1) % buff.Length;
        assert src[..r] == src[..r - 1] + [src[r - 1]];
      }
    }

    /** Every process of the pipe now lags `n` more bytes behind. */
    method Account(n: nat)
      modifies procs
      ensures forall i | 0 <= i < procs.Length :: procs[i] == Lag(old(procs[i]), n)
    {
      var i := 0;
      while i < procs.Length
        invariant 0 <= i <= procs.Length
        invariant forall j | 0 <= j < i :: procs[j] == Lag(old(procs[j]), n)
        invariant forall j | i <= j < procs.Length :: procs[j] == old(procs[j])
      {
        if procs[i].pid != FREE {
          procs[i] := procs[i].(locOffset := procs[i].locOffset + n);
        }
        i := i + 1;
      }
    }

    /** do_flush_ppipe: keep only what the slowest open reader still needs. */
    method Flush() returns (reclaimed: int)
      requires Valid()
      modifies `buffOffset, `frontier
      ensures Valid() && (View(), reclaimed) == PPipeSpec.Flush(old(View()))
    {
      hide LargestLag, HasReader, Slowest, AsEnds, RingOk, ReadersOk;
      ghost var was := View();
      FlushKeepsInv(was, buff.Length);
      hide Inv;
      var lag, some := LargestOffset();
      LagIsSlowest(procs[..], |data|, lag, some);
      if !some {
        return 0;
      }
      FrontierAhead(was, buff.Length, lag);
      reclaimed := Reclaim(lag);
    }

    method Reclaim(lag: int) returns (reclaimed: int)
      requires RingOk(buff[..], buffOffset, writePos, data, frontier) && frontier <= |data| - lag <= |data|
      modifies `buffOffset, `frontier
      ensures RingOk(buff[..], buffOffset, writePos, data, frontier)
      ensures frontier == |data| - lag && reclaimed == frontier - old(frontier)
    {
      RingReclaim(buff[..], buffOffset, writePos, data, frontier, |data| - lag);
      reclaimed := buffOffset - lag;
      buffOffset := lag;
      frontier := |data| - lag;
    }

    method LargestOffset() returns (lag: int, some: bool)
      ensures LargestLag(procs[..], procs.Length, lag, some)
    {
      lag, some := 0, false;
      var i := 0;
      while i < procs.Length
        invariant 0 <= i <= procs.Length
        invariant LargestLag(procs[..], i, lag, some)
      {
        if procs[i].pid != FREE && procs[i].ropen {
          some := true;
          if procs[i].locOffset > lag {
            lag := procs[i].locOffset;
          }
        }
        i := i + 1;
      }
    }

    /** do_ppipe_fork for one of the two files of the pipe. */
    method Fork(ppid: nat, pid: nat) returns (r: int)
      requires Valid()
      modifies procs
      ensures Valid() && (View(), r) == PPipeSpec.Fork(old(View()), ppid, pid)
    {
      hide SlotOf, RingOk;
      ghost var was, ps := View(), procs[..];
      ForkKeepsInv(was, buff.Length, ppid, pid);
      hide Inv;
      var done := Search(pid);
      if done < procs.Length {
        return 0;
      }
      var parent := SearchLast(ppid);
      var free := Search(FREE);
      if parent == procs.Length || free == procs.Length {
        return -EOTHERS;
      }
      procs[free] := procs[parent].(pid := pid);
      AsEndsUpdate(ps, |data|, free, procs[free]);
      assert ReaderOk(ps[parent], |data|, buff.Length);
      return 0;
    }

    /** The slot part of ppipe_close: the result code, and whether the pages are freed. */
    method Close(pid: nat, readEnd: bool) returns (r: int, freed: bool)
      requires Valid()
      modifies procs
      ensures Valid() && (View(), r, freed) == PPipeSpec.Close(old(View()), pid, readEnd)
    {
      hide SlotOf, RingOk;
      ghost var was, ps := View(), procs[..];
      CloseKeepsInv(was, buff.Length, pid, readEnd);
      hide Inv;
      var curr := SearchLast(pid);
      if curr == procs.Length || !(if readEnd then procs[curr].ropen else procs[curr].wopen) {
        return -EOTHERS, false;
      }
      Shut(curr, readEnd);
      AsEndsUpdate(ps, |data|, curr, procs[curr]);
      var open := CountOpen();
      NoOpenEnds(procs[..], procs.Length, |data|);
      return 0, open == 0;
    }

    /** Clear the flag, and the whole slot if it was the last. */
    method Shut(curr: nat, readEnd: bool)
      requires curr < procs.Length && procs[curr].pid != FREE
      modifies procs
      ensures procs[..] == old(procs[..])[curr := procs[curr]]
      ensures forall total :: AsEnd(procs[curr], total) == ShutEnd(AsEnd(old(procs[curr]), total), readEnd)
      ensures forall total, size :: ReaderOk(old(procs[curr]), total, size) ==> ReaderOk(procs[curr], total, size)
    {
      if readEnd {
        procs[curr] := procs[curr].(ropen := false);
      } else {
        procs[curr] := procs[curr].(wopen := false);
      }
      if !procs[curr].ropen && !procs[curr].wopen {
        procs[curr] := procs[curr].(pid := FREE, readPos := 0, locOffset := 0);
      }
    }

    method CountOpen() returns (open: nat)
      ensures open == OpenEnds(procs[..], procs.Length)
    {
      open := 0;
      var i := 0;
      while i < procs.Length
        invariant 0 <= i <= procs.Length
        invariant open == OpenEnds(procs[..], i)
      {
        if procs[i].pid != FREE {
          open := open + (if procs[i].ropen then 1 else 0) + (if procs[i].wopen then 1 else 0);
        }
        i := i + 1;
      }
    }
  }
}
