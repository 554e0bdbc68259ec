/** The plain pipe's implementation: a ring buffer with shared positions and the
    process slots, changed in place, proved to be the queue of PipeSpec. */
module Pipe {
  import opened IpcBase
  import opened Ring
  import opened PS = PipeSpec

  class PipeInfo {
    const buff: array<byte>
    const slots: array<Slot>
    var readPos: int
    var writePos: int
    var buffOffset: int

    ghost var written: seq<byte>
    ghost var taken: int

    ghost function View(): PS.Pipe
      reads slots, `written, `taken
    {
      PS.Pipe(written, taken, slots[..])
    }

    ghost predicate BufferOk()
      reads this, buff
    {
      && RingOk(buff[..], buffOffset, writePos, written, taken)
      && readPos == taken % buff.Length
    }

    ghost predicate Valid()
      reads this, buff, slots
    {
      BufferOk() && Inv(View(), buff.Length)
    }

    /** alloc_pipe_info and the set-up in create_pipe; the kernel has
        size == 4096 and count == 16. */
    constructor (size: nat, count: nat, pid: nat)
      requires size > 0 && count > 0
      ensures Valid() && fresh(buff) && fresh(slots) && buff.Length == size && slots.Length == count
      ensures View() == Create(count, pid).p
    {
      buff := new byte[size](_ => 0);
      slots := new Slot[count](i => if i == 0 then Slot(pid, true, true) else NO_SLOT);
      readPos, writePos, buffOffset := 0, 0, 0;
      written, taken := [], 0;
    }

    /** The three positions the code keeps are tied together in every state. */
    lemma PositionsMeet()
      requires Valid()
      ensures 0 <= buffOffset <= buff.Length && 0 <= readPos < buff.Length
      ensures writePos == (readPos + buffOffset) % buff.Length
    {
      ModAdd(taken, buffOffset, buff.Length);
    }

    lemma SearchIs(pid: int, k: nat)
      requires k <= slots.Length && (k < slots.Length ==> slots[k].pid == pid)
      requires forall i | 0 <= i < k :: slots[i].pid != pid
      ensures SlotOf(slots[..], pid) == k
    {
    }

    method Search(pid: int) returns (curr: nat)
      ensures curr == SlotOf(slots[..], pid) <= slots.Length
    {
      curr := 0;
      while curr < slots.Length && slots[curr].pid != pid
        invariant curr <= slots.Length
        invariant forall i | 0 <= i < curr :: slots[i].pid != pid
      {
        curr := curr + 1;
      }
      SearchIs(pid, curr);
    }

    /** The search without early exit; pids being distinct, the last slot of the
        process is the first. */
    method SearchLast(pid: nat) returns (curr: nat)
      requires SlotsOk(slots[..])
      ensures curr == SlotOf(slots[..], pid) <= slots.Length
    {
      curr := slots.Length;
      var i := 0;
      while i < slots.Length
        invariant i <= slots.Length && (curr == slots.Length || curr < i)
        invariant curr < slots.Length ==> slots[curr].pid == pid
        invariant curr == slots.Length ==> forall j | 0 <= j < i :: slots[j].pid != pid
      {
        if slots[i].pid == pid {
          curr := i;
        }
        i := i + 1;
      }
      if curr < slots.Length {
        forall j | 0 <= j < curr ensures slots[j].pid != pid {
          assert slots[..][j].pid != FREE ==> slots[..][j].pid != slots[..][curr].pid;
        }
      }
      SearchIs(pid, curr);
    }

    /** pipe_read; `allowed` says whether the file may be read and `dst` is a
        range the process may write. */
    method Read(allowed: bool, pid: nat, dst: array<byte>, count: nat) returns (r: int)
      requires Valid() && count <= dst.Length && dst != buff
      modifies `readPos, `buffOffset, `taken, dst
      ensures Valid()
      ensures !allowed ==> r == -EACCES && View() == old(View()) && dst[..] == old(dst[..])
      ensures allowed ==>
                var (t, result) := PS.Read(old(View()), pid, count);
                && View() == t
                && match result
                   case ReadError(code) => r == code && dst[..] == old(dst[..])
                   case Bytes(bytes) => r == |bytes| && dst[..r] == bytes && dst[r..] == old(dst[r..])
    {
      hide SlotOf;
      if !allowed {
        return -EACCES;
      }
      var curr := SearchLast(pid);
      if curr == slots.Length || !slots[curr].ropen {
        return -EINVAL;
      }
      r := Drain(dst, count);
    }

    /** Take bytes from the front of the queue one by one. */
    method Drain(dst: array<byte>, count: nat) returns (r: nat)
      requires BufferOk() && 0 <= taken <= |written| && count <= dst.Length && dst != buff
      modifies `readPos, `buffOffset, `taken, dst
      ensures BufferOk()
      ensures r == Min(count, |written| - old(taken)) && taken == old(taken) + r
      ensures dst[..r] == written[old(taken)..taken] && dst[r..] == old(dst[r..])
    {
      hide RingOk;
      RingFacts(buff[..], buffOffset, writePos, written, taken);
      r := 0;
      while r < count && buffOffset != 0
        invariant r <= count && taken == old(taken) + r <= |written| && BufferOk()
        invariant buffOffset == |written| - taken && 0 <= taken
        invariant forall i | 0 <= i < r :: dst[i] == written[old(taken) + i]
        invariant forall i | r <= i < dst.Length :: dst[i] == old(dst[i])
        decreases count - r
      {
        RingRead(buff[..], buffOffset, writePos, written, taken);
        dst[r] := buff[readPos];
        ModNext(taken, buff.Length);
        RingReclaim(buff[..], buffOffset, writePos, written, taken, taken + 1);
        readPos := (readPos + 1) % buff.Length;
        r := r + 1;
        buffOffset := buffOffset - 1;
        taken := taken + 1;
      }
    }

    /** pipe_write of the first `count` bytes of `src`. */
    method Write(allowed: bool, pid: nat, src: array<byte>, count: nat) returns (r: int)
      requires Valid() && count <= src.Length && src != buff
      modifies `writePos, `buffOffset, `written, buff
      ensures Valid()
      ensures !allowed ==> r == -EACCES && View() == old(View())
      ensures allowed ==> (View(), r) == PS.Write(old(View()), buff.Length, pid, src[..count])
    {
      hide SlotOf;
      if !allowed {
        return -EACCES;
      }
      var curr := Search(pid);
      if curr == slots.Length || !slots[curr].wopen {
        return -EINVAL;
      }
      r := Fill(src, count);
      assert src[..count][..r] == src[..r];
    }

    /** Add bytes at the back of the queue until it is full. */
    method Fill(src: array<byte>, count: nat) returns (r: nat)
      requires BufferOk() && count <= src.Length && src != buff
      modifies `writePos, `buffOffset, `written, buff
      ensures BufferOk()
      ensures r == Min(count, taken + buff.Length - old(|written|)) && written == old(written) + src[..r]
    {
      hide RingOk;
      RingFacts(buff[..], buffOffset, writePos, written, taken);
      r := 0;
      while r < count && buffOffset != buff.Length
        invariant r <= count && BufferOk()
        invariant buffOffset == |written| - taken <= buff.Length
        invariant written == old(written) + src[..r]
      {
        RingStore(buff[..], buffOffset, writePos, written, taken, src[r]);
        buff[writePos] := src[r];
        written := written + [src[r]];
        r := r + 1;
        buffOffset := buffOffset + 1;
        writePos := (writePos + 1) % buff.Length;
        assert src[..r] == src[..r - 1] + [src[r - 1]];
      }
    }

    /** do_pipe_fork for one of the two files of the pipe. */
    method Fork(ppid: nat, pid: nat) returns (r: int)
      requires SlotsOk(slots[..])
      modifies slots
      ensures SlotsOk(slots[..])
      ensures (slots[..], r) == ForkSlots(old(slots[..]), ppid, pid)
    {
      ForkKeepsSlots(slots[..], ppid, pid);
      hide SlotOf;
      var done := Search(pid);
      if done < slots.Length {
        return 0;
      }
      var parent := SearchLast(ppid);
      var free := Search(FREE);
      if parent == slots.Length || free == slots.Length {
        return -EOTHERS;
      }
      slots[free] := slots[parent].(pid := pid);
      return 0;
    }

    /** The slot part of pipe_close: the result code, and whether the pages are freed. */
    method Close(pid: nat, readEnd: bool) returns (r: int, freed: bool)
      requires SlotsOk(slots[..])
      modifies slots
      ensures (slots[..], r, freed) == CloseSlot(old(slots[..]), pid, readEnd)
    {
      CloseKeepsSlots(slots[..], pid, readEnd);
      hide SlotOf;
      var curr := SearchLast(pid);
      if curr == slots.Length {
        return -EOTHERS, false;
      }
      if readEnd {
        if !slots[curr].ropen {
          return -EOTHERS, false;
        }
        slots[curr] := slots[curr].(ropen := false);
      } else {
        if !slots[curr].wopen {
          return -EOTHERS, false;
        }
        slots[curr] := slots[curr].(wopen := false);
      }
      if !slots[curr].ropen && !slots[curr].wopen {
        slots[curr] := slots[curr].(pid := FREE);
      }
      assert slots[..] == old(slots[..])[curr := Shut(old(slots[curr]), readEnd)];
      freed := AllShut();
      return 0, freed;
    }

    method AllShut() returns (none: bool)
      requires SlotsOk(slots[..])
      ensures none == NoneOpen(slots[..])
    {
      var i, ropen, wopen := 0, 0, 0;
      while i < slots.Length
        invariant 0 <= i <= slots.Length && ropen >= 0 && wopen >= 0
        invariant ropen == wopen == 0 <==> forall j | 0 <= j < i :: !slots[j].ropen && !slots[j].wopen
      {
        assert slots[i] == slots[..][i];
        if slots[i].pid != FREE {
          ropen := ropen + if slots[i].ropen then 1 else 0;
          wopen := wopen + if slots[i].wopen then 1 else 0;
        }
        i := i + 1;
      }
      none := ropen == 0 && wopen == 0;
    }
  }
}
