/** The plain pipe as what it promises to be: one bounded first-in first-out
    queue shared by all its processes, and a slot per process that says which
    ends it holds open. */
module PipeSpec {
  import opened IpcBase

  datatype Slot = Slot(pid: int, ropen: bool, wopen: bool)

  const NO_SLOT := Slot(FREE, false, false)

  /** `written` is everything ever written, `taken` how much of it has been read. */
  datatype Pipe = Pipe(written: seq<byte>, taken: int, slots: seq<Slot>)

  function Pids(slots: seq<Slot>): (pids: seq<int>)
    ensures |pids| == |slots| && forall i | 0 <= i < |pids| :: pids[i] == slots[i].pid
  {
    seq(|slots|, i requires 0 <= i < |slots| => slots[i].pid)
  }

  /** The first slot of process `pid`, or |slots|. */
  function SlotOf(slots: seq<Slot>, pid: int): (k: nat)
    ensures k <= |slots| && (k < |slots| ==> slots[k].pid == pid)
    ensures forall i | 0 <= i < k :: slots[i].pid != pid
  {
    var k := FirstOf(Pids(slots), pid);
    assert forall i | 0 <= i < k :: Pids(slots)[i] == slots[i].pid;
    k
  }

  predicate Holds(s: Slot, readEnd: bool) {
    if readEnd then s.ropen else s.wopen
  }

  /** Distinct pids, and a slot is in use exactly while an end is open. */
  predicate SlotsOk(slots: seq<Slot>) {
    && (forall i | 0 <= i < |slots| ::
          if slots[i].pid == FREE then slots[i] == NO_SLOT
          else slots[i].pid >= 0 && (slots[i].ropen || slots[i].wopen))
    && (forall i, j | 0 <= i < j < |slots| :: slots[i].pid != FREE ==> slots[i].pid != slots[j].pid)
  }

  predicate Inv(p: Pipe, size: nat) {
    0 <= p.taken <= |p.written| <= p.taken + size && SlotsOk(p.slots)
  }

  // ---------------------------------------------------------------- the operations

  function Read(p: Pipe, pid: int, count: nat): (Pipe, ReadResult)
    requires 0 <= p.taken <= |p.written|
  {
    var k := SlotOf(p.slots, pid);
    if k == |p.slots| || !p.slots[k].ropen then (p, ReadError(-EINVAL))
    else
      var n := Min(count, |p.written| - p.taken);
      (p.(taken := p.taken + n), Bytes(p.written[p.taken..p.taken + n]))
  }

  function Write(p: Pipe, size: nat, pid: int, src: seq<byte>): (Pipe, int)
    requires 0 <= p.taken <= |p.written| <= p.taken + size
  {
    var k := SlotOf(p.slots, pid);
    if k == |p.slots| || !p.slots[k].wopen then (p, -EINVAL)
    else
      var n := Min(|src|, p.taken + size - |p.written|);
      (p.(written := p.written + src[..n]), n)
  }

  function ForkSlots(slots: seq<Slot>, ppid: int, pid: int): (seq<Slot>, int) {
    var free, parent := SlotOf(slots, FREE), SlotOf(slots, ppid);
    if SlotOf(slots, pid) < |slots| then (slots, 0)
    else if free == |slots| || parent == |slots| then (slots, -EOTHERS)
    else (slots[free := slots[parent].(pid := pid)], 0)
  }

  function Shut(s: Slot, readEnd: bool): Slot {
    var t := if readEnd then s.(ropen := false) else s.(wopen := false);
    if !t.ropen && !t.wopen then NO_SLOT else t
  }

  predicate NoneOpen(slots: seq<Slot>) {
    forall i | 0 <= i < |slots| :: !slots[i].ropen && !slots[i].wopen
  }

  /** The slots, the result code, and whether the pages are freed. */
  function CloseSlot(slots: seq<Slot>, pid: int, readEnd: bool): (seq<Slot>, int, bool) {
    var k := SlotOf(slots, pid);
    if k == |slots| || !Holds(slots[k], readEnd) then (slots, -EOTHERS, false)
    else
      var slots' := slots[k := Shut(slots[k], readEnd)];
      (slots', 0, NoneOpen(slots'))
  }

  lemma ForkKeepsSlots(slots: seq<Slot>, ppid: int, pid: int)
    requires SlotsOk(slots) && pid >= 0 && ppid >= 0
    ensures SlotsOk(ForkSlots(slots, ppid, pid).0)
  {
  }

  lemma CloseKeepsSlots(slots: seq<Slot>, pid: int, readEnd: bool)
    requires SlotsOk(slots) && pid >= 0
    ensures SlotsOk(CloseSlot(slots, pid, readEnd).0)
  {
  }

  // ---------------------------------------------------------------- whole runs

  datatype Op =
    | ReadOp(pid: nat, count: nat)
    | WriteOp(pid: nat, src: seq<byte>)
    | ForkOp(ppid: nat, pid: nat)
    | CloseOp(pid: nat, readEnd: bool)

  /** A run's ledger: all bytes delivered by reads and accepted by writes, in order. */
  datatype Ledger = Ledger(p: Pipe, got: seq<byte>, put: seq<byte>)

  function Next(l: Ledger, size: nat, op: Op): Ledger
    requires Inv(l.p, size)
  {
    match op
    case ReadOp(pid, count) =>
      var (q, r) := Read(l.p, pid, count);
      l.(p := q, got := l.got + if r.Bytes? then r.bytes else [])
    case WriteOp(pid, src) =>
      var (q, r) := Write(l.p, size, pid, src);
      l.(p := q, put := l.put + if 0 <= r <= |src| then src[..r] else [])
    case ForkOp(ppid, pid) => l.(p := l.p.(slots := ForkSlots(l.p.slots, ppid, pid).0))
    case CloseOp(pid, readEnd) => l.(p := l.p.(slots := CloseSlot(l.p.slots, pid, readEnd).0))
  }

  /** What has been read is a prefix of what has been written, and the rest, at
      most `size` bytes, is still queued. */
  predicate Fifo(l: Ledger, size: nat) {
    && Inv(l.p, size)
    && l.put == l.p.written && l.got == l.put[..l.p.taken]
    && l.put == l.got + l.p.written[l.p.taken..]
  }

  /** A new pipe, both ends open in its creator. */
  function Create(count: nat, pid: nat): Ledger
    requires count > 0
  {
    Ledger(Pipe([], 0, seq(count, i => if i == 0 then Slot(pid, true, true) else NO_SLOT)), [], [])
  }

  lemma CreateFifo(count: nat, size: nat, pid: nat)
    requires count > 0
    ensures Fifo(Create(count, pid), size)
  {
  }

  lemma NextFifo(l: Ledger, size: nat, op: Op)
    requires Fifo(l, size)
    ensures Fifo(Next(l, size, op), size)
  {
    hide SlotOf;
    match op
    case ReadOp(pid, count) =>
      var q := Read(l.p, pid, count).0;
      assert l.p.written[..q.taken] == l.p.written[..l.p.taken] + l.p.written[l.p.taken..q.taken];
    case WriteOp(pid, src) =>
      var q := Write(l.p, size, pid, src).0;
      assert q.written[..q.taken] == l.p.written[..l.p.taken];
      assert q.written == q.written[..q.taken] + q.written[q.taken..];
    case ForkOp(ppid, pid) => ForkKeepsSlots(l.p.slots, ppid, pid);
    case CloseOp(pid, readEnd) => CloseKeepsSlots(l.p.slots, pid, readEnd);
  }

  predicate RunOk(l: Ledger, size: nat, ops: seq<Op>)
    decreases |ops|
  {
    ops == [] || (Inv(l.p, size) && RunOk(Next(l, size, ops[0]), size, ops[1..]))
  }

  function Run(l: Ledger, size: nat, ops: seq<Op>): Ledger
    requires RunOk(l, size, ops)
    decreases |ops|
  {
    if ops == [] then l else Run(Next(l, size, ops[0]), size, ops[1..])
  }

  /** Over every interleaving of reads, writes, forks and closes by any number
      of processes the pipe is one bounded queue. */
  lemma {:induction false} QueueExact(l: Ledger, size: nat, ops: seq<Op>)
    requires Fifo(l, size)
    ensures RunOk(l, size, ops) && Fifo(Run(l, size, ops), size)
    decreases |ops|
  {
    if ops != [] {
      NextFifo(l, size, ops[0]);
      QueueExact(Next(l, size, ops[0]), size, ops[1..]);
    }
  }

  // ---------------------------------------------------------------- what each call gives its caller

  /** Process `pid` has the read or the write end open. */
  ghost predicate HoldsEnd(slots: seq<Slot>, pid: int, readEnd: bool) {
    exists i | 0 <= i < |slots| :: slots[i].pid == pid && Holds(slots[i], readEnd)
  }

  ghost predicate HasSlot(slots: seq<Slot>, pid: int) {
    exists i | 0 <= i < |slots| :: slots[i].pid == pid
  }

  lemma HolderSlot(slots: seq<Slot>, pid: nat)
    requires SlotsOk(slots)
    ensures var k := SlotOf(slots, pid);
            && (HasSlot(slots, pid) <==> k < |slots|)
            && forall e :: HoldsEnd(slots, pid, e) <==> k < |slots| && Holds(slots[k], e)
  {
    var k := SlotOf(slots, pid);
    forall i | 0 <= i < |slots| && slots[i].pid == pid ensures i == k {
      assert i >= k;
    }
  }

  /** A process with the read end takes the first `count` bytes of the queue, or all
      there are; any other gets -EINVAL and changes nothing. */
  lemma ReadTakes(l: Ledger, size: nat, pid: nat, count: nat)
    requires Fifo(l, size)
    ensures |l.got| <= |l.put|
    ensures var (l', r, queue) := (Next(l, size, ReadOp(pid, count)), Read(l.p, pid, count).1, l.put[|l.got|..]);
            if HoldsEnd(l.p.slots, pid, true) then
              var n := Min(count, |queue|);
              r == Bytes(queue[..n]) && l'.got == l.got + queue[..n] && l'.put == l.put && l'.p.slots == l.p.slots
            else r == ReadError(-EINVAL) && l' == l
  {
    HolderSlot(l.p.slots, pid);
    var queue := l.put[|l.got|..];
    var n := Min(count, |queue|);
    assert l.p.written[l.p.taken..l.p.taken + n] == queue[..n];
    hide SlotOf, HoldsEnd, HasSlot;
  }

  /** A process with the write end has as much accepted as the queue has room for; any
      other gets -EINVAL and changes nothing. */
  lemma WriteAccepts(l: Ledger, size: nat, pid: nat, src: seq<byte>)
    requires Fifo(l, size)
    ensures var (l', r) := (Next(l, size, WriteOp(pid, src)), Write(l.p, size, pid, src).1);
            if HoldsEnd(l.p.slots, pid, false) then
              && 0 <= r == Min(|src|, size - (|l.put| - |l.got|))
              && l'.put == l.put + src[..r] && l'.got == l.got && l'.p.slots == l.p.slots
            else r == -EINVAL && l' == l
  {
    HolderSlot(l.p.slots, pid);
    hide SlotOf, HoldsEnd, HasSlot;
  }

  /** A forked process holds the ends its parent holds; the second of the two calls
      changes nothing; without a free slot, or a parent, the call fails. */
  lemma ForkCopies(slots: seq<Slot>, ppid: nat, pid: nat)
    requires SlotsOk(slots)
    ensures var (slots', r) := ForkSlots(slots, ppid, pid);
            && r == (if HasSlot(slots, pid) || (HasSlot(slots, FREE) && HasSlot(slots, ppid)) then 0 else -EOTHERS)
            && (HasSlot(slots, pid) || r != 0 ==> slots' == slots)
            && (!HasSlot(slots, pid) && r == 0 ==>
                  && (forall e :: HoldsEnd(slots', pid, e) == HoldsEnd(slots, ppid, e))
                  && (forall q: nat, e | q != pid :: HoldsEnd(slots', q, e) == HoldsEnd(slots, q, e)))
  {
    HolderSlot(slots, pid);
    HolderSlot(slots, ppid);
    var slots', free, parent := ForkSlots(slots, ppid, pid).0, SlotOf(slots, FREE), SlotOf(slots, ppid);
    assert HasSlot(slots, FREE) <==> free < |slots|;
    if !HasSlot(slots, pid) && free < |slots| && parent < |slots| {
      assert slots'[free].pid == pid;
      forall e ensures HoldsEnd(slots', pid, e) == HoldsEnd(slots, ppid, e) {
        assert Holds(slots'[free], e) == Holds(slots[parent], e);
        assert forall i | 0 <= i < |slots| && i != free :: slots'[i].pid != pid;
      }
      forall q: nat, e | q != pid ensures HoldsEnd(slots', q, e) == HoldsEnd(slots, q, e) {
        SameHolds(slots, slots', free, q, e);
      }
    }
  }

  lemma SameHolds(slots: seq<Slot>, slots': seq<Slot>, k: nat, q: nat, e: bool)
    requires |slots'| == |slots| && k < |slots| && slots[k].pid != q && slots'[k].pid != q
    requires forall i | 0 <= i < |slots| && i != k :: slots'[i] == slots[i]
    ensures HoldsEnd(slots', q, e) == HoldsEnd(slots, q, e)
  {
  }

  /** Closing takes exactly that end from exactly that process; it fails exactly where
      there is none to take; and the pages go exactly when nobody holds an end any more. */
  lemma CloseShuts(slots: seq<Slot>, pid: nat, readEnd: bool)
    requires SlotsOk(slots)
    ensures var (slots', r, free) := CloseSlot(slots, pid, readEnd);
            && r == (if HoldsEnd(slots, pid, readEnd) then 0 else -EOTHERS)
            && (r != 0 ==> slots' == slots && !free)
            && (r == 0 ==>
                  && (forall q: nat, e :: HoldsEnd(slots', q, e) <==>
                        HoldsEnd(slots, q, e) && !(q == pid && e == readEnd))
                  && (free <==> forall q: nat, e :: !HoldsEnd(slots', q, e)))
  {
    HolderSlot(slots, pid);
    var k := SlotOf(slots, pid);
    var (slots', r, free) := CloseSlot(slots, pid, readEnd);
    if r == 0 {
      CloseKeepsSlots(slots, pid, readEnd);
      assert forall i | 0 <= i < |slots| && i != k :: slots'[i] == slots[i] && slots[i].pid != pid;
      forall q: nat, e ensures HoldsEnd(slots', q, e) <==> HoldsEnd(slots, q, e) && !(q == pid && e == readEnd) {
        if q == pid {
          assert HoldsEnd(slots', q, e) <==> slots'[k].pid == pid && Holds(slots'[k], e);
        } else {
          SameHolds(slots, slots', k, q, e);
        }
      }
      forall i | 0 <= i < |slots'| && (slots'[i].ropen || slots'[i].wopen)
        ensures exists q: nat, e :: HoldsEnd(slots', q, e)
      {
        assert HoldsEnd(slots', slots'[i].pid as nat, slots'[i].ropen);
      }
    }
  }
}
