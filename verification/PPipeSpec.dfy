/** The persistent pipe as what it promises to be: one ever-growing stream of
    bytes, a cursor per process and a frontier up to which space has been
    reclaimed.  The ring buffer that implements it is in PPipe.dfy. */
module PPipeSpec {
  import opened IpcBase

  /** A process slot; a free one has pid FREE. */
  datatype End = End(pid: int, cursor: int, ropen: bool, wopen: bool)

  datatype Stream = Stream(data: seq<byte>, frontier: int, ends: seq<End>)

  const NO_END := End(FREE, 0, false, false)

  function Pids(ends: seq<End>): (pids: seq<int>)
    ensures |pids| == |ends| && forall i | 0 <= i < |pids| :: pids[i] == ends[i].pid
  {
    seq(|ends|, i requires 0 <= i < |ends| => ends[i].pid)
  }

  /** The first slot of process `pid`, or |ends|. */
  function SlotOf(ends: seq<End>, pid: int): (k: nat)
    ensures k <= |ends| && (k < |ends| ==> ends[k].pid == pid)
    ensures forall i | 0 <= i < k :: ends[i].pid != pid
  {
    var k := FirstOf(Pids(ends), pid);
    assert forall i | 0 <= i < k :: Pids(ends)[i] == ends[i].pid;
    k
  }

  predicate Inv(s: Stream, size: nat) {
    && 0 <= s.frontier <= |s.data| <= s.frontier + size
    && (forall i | 0 <= i < |s.ends| ::
          if s.ends[i].pid == FREE then s.ends[i] == NO_END
          else
            && s.ends[i].pid >= 0 && (s.ends[i].ropen || s.ends[i].wopen)
            && 0 <= s.ends[i].cursor <= |s.data|
            && (s.ends[i].ropen ==> s.frontier <= s.ends[i].cursor))
    && (forall i, j | 0 <= i < j < |s.ends| :: s.ends[i].pid != FREE ==> s.ends[i].pid != s.ends[j].pid)
  }

  // ---------------------------------------------------------------- the operations

  function Read(s: Stream, pid: int, count: nat): (Stream, ReadResult)
    requires forall i | 0 <= i < |s.ends| :: 0 <= s.ends[i].cursor <= |s.data|
  {
    var k := SlotOf(s.ends, pid);
    if k == |s.ends| || !s.ends[k].ropen then (s, ReadError(-EINVAL))
    else
      var e := s.ends[k];
      var n := Min(count, |s.data| - e.cursor);
      (s.(ends := s.ends[k := e.(cursor := e.cursor + n)]), Bytes(s.data[e.cursor..e.cursor + n]))
  }

  function Write(s: Stream, size: nat, pid: int, src: seq<byte>): (Stream, int)
    requires s.frontier <= |s.data| <= s.frontier + size
  {
    var k := SlotOf(s.ends, pid);
    if k == |s.ends| || !s.ends[k].wopen then (s, -EINVAL)
    else
      var n := Min(|src|, s.frontier + size - |s.data|);
      (s.(data := s.data + src[..n]), n)
  }

  /** The least cursor of an open reader, if there is one below `bound`; else `bound`. */
  function Slowest(ends: seq<End>, bound: int): (m: int)
    ensures m <= bound
    ensures forall i | 0 <= i < |ends| && ends[i].ropen :: m <= ends[i].cursor
    ensures m == bound || exists i | 0 <= i < |ends| :: ends[i].ropen && ends[i].cursor == m
  {
    if ends == [] then bound
    else
      var rest := Slowest(ends[1..], bound);
      if ends[0].ropen && ends[0].cursor < rest then ends[0].cursor
      else
        assert rest == bound || exists i | 0 <= i < |ends[1..]| :: ends[1..][i].ropen && ends[1..][i].cursor == rest;
        assert forall i | 0 <= i < |ends[1..]| :: ends[1..][i] == ends[i + 1];
        rest
  }

  predicate HasReader(ends: seq<End>) {
    exists i | 0 <= i < |ends| :: ends[i].ropen
  }

  function Flush(s: Stream): (Stream, int) {
    if !HasReader(s.ends) then (s, 0)
    else
      var m := Slowest(s.ends, |s.data|);
      (s.(frontier := m), m - s.frontier)
  }

  function Fork(s: Stream, ppid: int, pid: int): (Stream, int) {
    var free, parent := SlotOf(s.ends, FREE), SlotOf(s.ends, ppid);
    if SlotOf(s.ends, pid) < |s.ends| then (s, 0)
    else if free == |s.ends| || parent == |s.ends| then (s, -EOTHERS)
    else (s.(ends := s.ends[free := s.ends[parent].(pid := pid)]), 0)
  }

  /** Closing the last open end of a slot frees the slot. */
  function ShutEnd(e: End, readEnd: bool): End {
    var e' := if readEnd then e.(ropen := false) else e.(wopen := false);
    if !e'.ropen && !e'.wopen then NO_END else e'
  }

  /** Result code, and whether the pipe's pages are freed. */
  function Close(s: Stream, pid: int, readEnd: bool): (Stream, int, bool) {
    var k := SlotOf(s.ends, pid);
    if k == |s.ends| || !(if readEnd then s.ends[k].ropen else s.ends[k].wopen) then (s, -EOTHERS, false)
    else
      var ends := s.ends[k := ShutEnd(s.ends[k], readEnd)];
      (s.(ends := ends), 0, forall i | 0 <= i < |ends| :: !ends[i].ropen && !ends[i].wopen)
  }

  // ---------------------------------------------------------------- every operation keeps the invariant

  lemma ReadKeepsInv(s: Stream, size: nat, pid: int, count: nat)
    requires Inv(s, size)
    ensures Inv(Read(s, pid, count).0, size)
  {
  }

  lemma WriteKeepsInv(s: Stream, size: nat, pid: int, src: seq<byte>)
    requires Inv(s, size)
    ensures Inv(Write(s, size, pid, src).0, size)
  {
  }

  lemma FlushKeepsInv(s: Stream, size: nat)
    requires Inv(s, size)
    ensures Inv(Flush(s).0, size)
  {
  }

  lemma ForkKeepsInv(s: Stream, size: nat, ppid: int, pid: int)
    requires Inv(s, size) && pid >= 0 && ppid >= 0
    ensures Inv(Fork(s, ppid, pid).0, size)
  {
  }

  lemma CloseKeepsInv(s: Stream, size: nat, pid: int, readEnd: bool)
    requires Inv(s, size) && pid >= 0
    ensures Inv(Close(s, pid, readEnd).0, size)
  {
  }

  // ---------------------------------------------------------------- reading

  lemma SlotIs(ends: seq<End>, k: nat)
    requires k < |ends| && forall i | 0 <= i < k :: ends[i].pid != ends[k].pid
    ensures SlotOf(ends, ends[k].pid) == k
  {
  }

  lemma OnlySlot(s: Stream, size: nat, k: nat)
    requires Inv(s, size) && k < |s.ends| && s.ends[k].pid != FREE
    ensures SlotOf(s.ends, s.ends[k].pid) == k
  {
    SlotIs(s.ends, k);
  }

  /** Reading in two goes is reading in one. */
  lemma ReadsCompose(s: Stream, size: nat, pid: int, a: nat, b: nat)
    requires Inv(s, size) && Read(s, pid, a).1.Bytes?
    ensures var (t, first) := Read(s, pid, a);
            (forall i | 0 <= i < |t.ends| :: 0 <= t.ends[i].cursor <= |t.data|)
            && Read(t, pid, b).1.Bytes?
            && Read(s, pid, a + b) == (Read(t, pid, b).0, Bytes(first.bytes + Read(t, pid, b).1.bytes))
  {
    var (t, first) := Read(s, pid, a);
    ReadKeepsInv(s, size, pid, a);
    var k := SlotOf(s.ends, pid);
    assert t.ends[k].pid == pid;
    SlotIs(t.ends, k);
    var c, n := s.ends[k].cursor, Min(a, |s.data| - s.ends[k].cursor);
    var m := Min(b, |s.data| - c - n);
    assert s.data[c..c + n] + s.data[c + n..c + n + m] == s.data[c..c + n + m];
    assert Read(t, pid, b).0.ends == Read(s, pid, a + b).0.ends;
  }

  /** A read by `q` depends only on the data and q's own slot. */
  lemma ReadIsLocal(s: Stream, t: Stream, size: nat, q: int, b: nat)
    requires Inv(s, size) && Inv(t, size)
    requires t.data == s.data && |t.ends| == |s.ends| && SlotOf(t.ends, q) == SlotOf(s.ends, q)
    requires SlotOf(s.ends, q) < |s.ends| ==> t.ends[SlotOf(s.ends, q)] == s.ends[SlotOf(s.ends, q)]
    ensures Read(t, q, b).1 == Read(s, q, b).1
    ensures var k := SlotOf(s.ends, q);
            Read(t, q, b).0 == if k < |s.ends| then t.(ends := t.ends[k := Read(s, q, b).0.ends[k]]) else t
  {
    hide SlotOf;
    var k := SlotOf(s.ends, q);
    if k < |s.ends| && !s.ends[k].ropen {
      assert t.ends[k := t.ends[k]] == t.ends;
    }
  }

  lemma ReadLeavesOthers(s: Stream, size: nat, p: int, a: nat, q: int)
    requires Inv(s, size) && p != q
    ensures var t := Read(s, p, a).0;
            && t.data == s.data && t.frontier == s.frontier
            && |t.ends| == |s.ends| && SlotOf(t.ends, q) == SlotOf(s.ends, q)
            && (SlotOf(s.ends, q) < |s.ends| ==> t.ends[SlotOf(s.ends, q)] == s.ends[SlotOf(s.ends, q)])
  {
    var t := Read(s, p, a).0;
    forall i | 0 <= i < |s.ends| ensures t.ends[i].pid == s.ends[i].pid {}
  }

  /** Readers do not disturb each other: two processes get the same bytes and
      leave the same stream whoever reads first. */
  lemma ReadersIndependent(s: Stream, size: nat, p: int, a: nat, q: int, b: nat)
    requires Inv(s, size) && p != q
    ensures Inv(Read(s, p, a).0, size) && Inv(Read(s, q, b).0, size)
    ensures Read(Read(s, p, a).0, q, b).1 == Read(s, q, b).1
    ensures Read(Read(s, p, a).0, q, b).0 == Read(Read(s, q, b).0, p, a).0
  {
    ReadKeepsInv(s, size, p, a);
    ReadKeepsInv(s, size, q, b);
    ReadLeavesOthers(s, size, p, a, q);
    ReadLeavesOthers(s, size, q, b, p);
    var t, u := Read(s, p, a).0, Read(s, q, b).0;
    ReadIsLocal(s, t, size, q, b);
    ReadIsLocal(s, u, size, p, a);
    ReadIsLocal(s, s, size, p, a);
    ReadIsLocal(s, s, size, q, b);
    assert SlotOf(s.ends, p) < |s.ends| && SlotOf(s.ends, q) < |s.ends| ==> SlotOf(s.ends, p) != SlotOf(s.ends, q);
    hide Inv, Read, SlotOf;
  }

  // ---------------------------------------------------------------- flushing

  /** With an open reader the frontier moves exactly to the slowest one; the
      result is the space gained, never negative, and repeating gains nothing. */
  lemma FlushExact(s: Stream, size: nat)
    requires Inv(s, size)
    ensures var (t, r) := Flush(s);
            && r >= 0 && t.frontier == s.frontier + r && t.data == s.data && t.ends == s.ends
            && Flush(t) == (t, 0)
            && (HasReader(s.ends) ==>
                  && (forall i | 0 <= i < |s.ends| && s.ends[i].ropen :: t.frontier <= s.ends[i].cursor)
                  && exists i | 0 <= i < |s.ends| :: s.ends[i].ropen && s.ends[i].cursor == t.frontier)
            && (!HasReader(s.ends) ==> r == 0)
  {
    if HasReader(s.ends) {
      var i :| 0 <= i < |s.ends| && s.ends[i].ropen;
      var m := Slowest(s.ends, |s.data|);
      assert m <= s.ends[i].cursor <= |s.data|;
      if m == |s.data| {
        assert s.ends[i].ropen && s.ends[i].cursor == m;
      }
    }
  }

  // ---------------------------------------------------------------- whole runs

  datatype Op =
    | ReadOp(pid: nat, count: nat)
    | WriteOp(pid: nat, src: seq<byte>)
    | FlushOp
    | ForkOp(ppid: nat, pid: nat)
    | CloseOp(pid: nat, readEnd: bool)

  /** A run's ledger: what each process has read, preceded by what its parent
      had read when it was forked; the sums of all write and flush results. */
  datatype Ledger = Ledger(s: Stream, got: map<int, seq<byte>>, written: int, flushed: int)

  function Next(l: Ledger, size: nat, op: Op): Ledger
    requires Inv(l.s, size)
  {
    match op
    case ReadOp(pid, count) =>
      var (t, r) := Read(l.s, pid, count);
      l.(s := t, got := if r.Bytes? && pid in l.got then l.got[pid := l.got[pid] + r.bytes] else l.got)
    case WriteOp(pid, src) =>
      var (t, r) := Write(l.s, size, pid, src);
      l.(s := t, written := l.written + if r >= 0 then r else 0)
    case FlushOp =>
      var (t, r) := Flush(l.s);
      l.(s := t, flushed := l.flushed + r)
    case ForkOp(ppid, pid) =>
      var (t, r) := Fork(l.s, ppid, pid);
      l.(s := t, got := if t != l.s && ppid in l.got then l.got[pid := l.got[ppid]] else l.got)
    case CloseOp(pid, readEnd) =>
      l.(s := Close(l.s, pid, readEnd).0)
  }

  /** Every process has read exactly the stream up to its cursor, and the space
      still in use is what was written less what was reclaimed. */
  predicate Exact(l: Ledger, size: nat) {
    && Inv(l.s, size)
    && (forall i | 0 <= i < |l.s.ends| && l.s.ends[i].pid != FREE ::
          l.s.ends[i].pid in l.got && l.got[l.s.ends[i].pid] == l.s.data[..l.s.ends[i].cursor])
    && l.written == |l.s.data| && l.flushed == l.s.frontier
  }

  lemma ReadExact(l: Ledger, size: nat, pid: nat, count: nat)
    requires Exact(l, size)
    ensures Exact(Next(l, size, ReadOp(pid, count)), size)
  {
    var l' := Next(l, size, ReadOp(pid, count));
    ReadKeepsInv(l.s, size, pid, count);
    forall i | 0 <= i < |l'.s.ends| && l'.s.ends[i].pid != FREE
      ensures l'.s.ends[i].pid in l'.got && l'.got[l'.s.ends[i].pid] == l'.s.data[..l'.s.ends[i].cursor]
    {
      assert l.s.ends[i].pid == l'.s.ends[i].pid;
      OnlySlot(l.s, size, i);
    }
  }

  lemma ForkExact(l: Ledger, size: nat, ppid: nat, pid: nat)
    requires Exact(l, size)
    ensures Exact(Next(l, size, ForkOp(ppid, pid)), size)
  {
    ForkKeepsInv(l.s, size, ppid, pid);
  }

  lemma WriteExact(l: Ledger, size: nat, pid: nat, src: seq<byte>)
    requires Exact(l, size)
    ensures Exact(Next(l, size, WriteOp(pid, src)), size)
  {
    WriteKeepsInv(l.s, size, pid, src);
    var t := Write(l.s, size, pid, src).0;
    assert t.ends == l.s.ends;
    hide Write, SlotOf;
    forall i | 0 <= i < |l.s.ends| && l.s.ends[i].pid != FREE
      ensures t.data[..l.s.ends[i].cursor] == l.s.data[..l.s.ends[i].cursor]
    {
    }
  }

  lemma CloseExact(l: Ledger, size: nat, pid: nat, readEnd: bool)
    requires Exact(l, size)
    ensures Exact(Next(l, size, CloseOp(pid, readEnd)), size)
  {
    CloseKeepsInv(l.s, size, pid, readEnd);
  }

  lemma NextExact(l: Ledger, size: nat, op: Op)
    requires Exact(l, size)
    ensures Exact(Next(l, size, op), size)
  {
    hide SlotOf, Slowest;
    match op
    case ReadOp(pid, count) => ReadExact(l, size, pid, count);
    case WriteOp(pid, src) => WriteExact(l, size, pid, src);
    case FlushOp =>
      FlushKeepsInv(l.s, size);
      FlushExact(l.s, size);
    case ForkOp(ppid, pid) => ForkExact(l, size, ppid, pid);
    case CloseOp(pid, readEnd) => CloseExact(l, size, pid, readEnd);
  }

  predicate RunOk(l: Ledger, size: nat, ops: seq<Op>)
    decreases |ops|
  {
    ops == [] || (Inv(l.s, size) && RunOk(Next(l, size, ops[0]), size, ops[1..]))
  }

  function Run(l: Ledger, size: nat, ops: seq<Op>): Ledger
    requires RunOk(l, size, ops)
    decreases |ops|
  {
    if ops == [] then l else Run(Next(l, size, ops[0]), size, ops[1..])
  }

  /** A fresh pipe owned by process `pid`, both ends open. */
  function Create(slots: nat, pid: nat): Ledger
    requires slots > 0
  {
    Ledger(Stream([], 0, seq(slots, i => if i == 0 then End(pid, 0, true, true) else NO_END)), map[pid := []], 0, 0)
  }

  lemma CreateExact(slots: nat, size: nat, pid: nat)
    requires slots > 0
    ensures Exact(Create(slots, pid), size)
  {
  }

  /** Over every interleaving of reads, writes, flushes, forks and closes nothing
      is lost, repeated or overwritten for any process, and the space accounts
      balance: total written = total flushed + bytes in the buffer <= total flushed + size. */
  lemma {:induction false} StreamExact(l: Ledger, size: nat, ops: seq<Op>)
    requires Exact(l, size)
    ensures RunOk(l, size, ops) && Exact(Run(l, size, ops), size)
    decreases |ops|
  {
    if ops != [] {
      NextExact(l, size, ops[0]);
      StreamExact(Next(l, size, ops[0]), size, ops[1..]);
    }
  }

  // ---------------------------------------------------------------- what each call gives its caller

  /** Process `pid` has the read or the write end open. */
  ghost predicate HoldsEnd(s: Stream, pid: int, readEnd: bool) {
    exists i | 0 <= i < |s.ends| :: s.ends[i].pid == pid && if readEnd then s.ends[i].ropen else s.ends[i].wopen
  }

  ghost predicate HasSlot(s: Stream, pid: int) {
    exists i | 0 <= i < |s.ends| :: s.ends[i].pid == pid
  }

  lemma HolderSlot(s: Stream, size: nat, pid: nat)
    requires Inv(s, size)
    ensures var k := SlotOf(s.ends, pid);
            && (HasSlot(s, pid) <==> k < |s.ends|)
            && (HoldsEnd(s, pid, true) <==> k < |s.ends| && s.ends[k].ropen)
            && (HoldsEnd(s, pid, false) <==> k < |s.ends| && s.ends[k].wopen)
  {
    var k := SlotOf(s.ends, pid);
    forall i | 0 <= i < |s.ends| && s.ends[i].pid == pid ensures i == k {
      OnlySlot(s, size, i);
    }
  }

  /** A process with the read end gets exactly the next `count` bytes of the stream it
      has not had, or all there are; any other gets -EINVAL and changes nothing. */
  lemma ReadDelivers(l: Ledger, size: nat, pid: nat, count: nat)
    requires Exact(l, size)
    ensures var (l', r) := (Next(l, size, ReadOp(pid, count)), Read(l.s, pid, count).1);
            if HoldsEnd(l.s, pid, true) then
              && pid in l.got && |l.got[pid]| <= |l.s.data|
              && var upto := Min(|l.got[pid]| + count, |l.s.data|);
                 && r == Bytes(l.s.data[|l.got[pid]|..upto])
                 && l'.got == l.got[pid := l.s.data[..upto]]
                 && l'.s == l.s.(ends := l'.s.ends) && l' == l.(s := l'.s, got := l'.got)
                 && Pids(l'.s.ends) == Pids(l.s.ends)
            else r == ReadError(-EINVAL) && l' == l
  {
    HolderSlot(l.s, size, pid);
    var k := SlotOf(l.s.ends, pid);
    if HoldsEnd(l.s, pid, true) {
      var c := l.s.ends[k].cursor;
      var n := Min(count, |l.s.data| - c);
      assert l.got[pid] == l.s.data[..c];
      assert l.s.data[..c] + l.s.data[c..c + n] == l.s.data[..c + n];
    }
    hide SlotOf, HoldsEnd, HasSlot;
  }

  /** A process with the write end has as much accepted as there is room for bytes not
      yet reclaimed; any other gets -EINVAL and changes nothing. */
  lemma WriteAccepts(l: Ledger, size: nat, pid: nat, src: seq<byte>)
    requires Exact(l, size)
    ensures var (l', r) := (Next(l, size, WriteOp(pid, src)), Write(l.s, size, pid, src).1);
            if HoldsEnd(l.s, pid, false) then
              && r == Min(|src|, l.flushed + size - l.written) >= 0
              && l' == l.(s := l.s.(data := l.s.data + src[..r]), written := l.written + r)
            else r == -EINVAL && l' == l
  {
    HolderSlot(l.s, size, pid);
    hide SlotOf, HoldsEnd, HasSlot;
  }

  /** A forked process holds the ends its parent holds and has read what its parent has;
      the second of the two calls changes nothing; without a free slot, or a parent, the
      call fails. */
  lemma ForkCopies(l: Ledger, size: nat, ppid: nat, pid: nat)
    requires Exact(l, size)
    ensures var (l', r) := (Next(l, size, ForkOp(ppid, pid)), Fork(l.s, ppid, pid).1);
            && r == (if HasSlot(l.s, pid) || (HasSlot(l.s, FREE) && HasSlot(l.s, ppid)) then 0 else -EOTHERS)
            && (HasSlot(l.s, pid) || r != 0 ==> l' == l)
            && (!HasSlot(l.s, pid) && r == 0 ==>
                  && ppid in l.got && l' == l.(s := l.s.(ends := l'.s.ends), got := l.got[pid := l.got[ppid]])
                  && (forall e :: HoldsEnd(l'.s, pid, e) == HoldsEnd(l.s, ppid, e))
                  && (forall q: nat, e | q != pid :: HoldsEnd(l'.s, q, e) == HoldsEnd(l.s, q, e)))
  {
    HolderSlot(l.s, size, pid);
    HolderSlot(l.s, size, ppid);
    var t, free, parent := Fork(l.s, ppid, pid).0, SlotOf(l.s.ends, FREE), SlotOf(l.s.ends, ppid);
    assert HasSlot(l.s, FREE) <==> free < |l.s.ends|;
    if !HasSlot(l.s, pid) && HasSlot(l.s, FREE) && HasSlot(l.s, ppid) {
      assert t.ends[free].pid == pid != l.s.ends[free].pid;
      assert forall i | 0 <= i < |l.s.ends| && i != free :: t.ends[i] == l.s.ends[i];
      hide Inv;
      forall e ensures HoldsEnd(t, pid, e) == HoldsEnd(l.s, ppid, e) {
        assert forall i | 0 <= i < |l.s.ends| && i != free :: t.ends[i].pid != pid;
      }
      forall q: nat, e | q != pid ensures HoldsEnd(t, q, e) == HoldsEnd(l.s, q, e) {
        SameHolds(l.s, t, free, q, e);
      }
    }
    hide HoldsEnd, HasSlot, SlotOf;
  }

  /** Closing takes exactly that end from exactly that process; it fails exactly where
      there is none to take; and the pages go exactly when nobody holds an end any more. */
  lemma CloseShuts(l: Ledger, size: nat, pid: nat, readEnd: bool)
    requires Exact(l, size)
    ensures var (t, r, free) := Close(l.s, pid, readEnd);
            && r == (if HoldsEnd(l.s, pid, readEnd) then 0 else -EOTHERS)
            && (r != 0 ==> t == l.s && !free)
            && (r == 0 ==>
                  && t.data == l.s.data && t.frontier == l.s.frontier
                  && (forall q: nat, e :: HoldsEnd(t, q, e) <==> HoldsEnd(l.s, q, e) && !(q == pid && e == readEnd))
                  && (free <==> forall q: nat, e :: !HoldsEnd(t, q, e)))
  {
    HolderSlot(l.s, size, pid);
    var k := SlotOf(l.s.ends, pid);
    var (t, r, free) := Close(l.s, pid, readEnd);
    if r == 0 {
      CloseKeepsInv(l.s, size, pid, readEnd);
      assert forall i | 0 <= i < |l.s.ends| && i != k :: t.ends[i] == l.s.ends[i] && l.s.ends[i].pid != pid;
      forall q: nat, e ensures HoldsEnd(t, q, e) <==> HoldsEnd(l.s, q, e) && !(q == pid && e == readEnd) {
        if q == pid {
          assert HoldsEnd(t, q, e) <==> if e then t.ends[k].ropen && t.ends[k].pid == pid
                                             else t.ends[k].wopen && t.ends[k].pid == pid;
        } else {
          SameHolds(l.s, t, k, q, e);
        }
      }
      hide SlotOf, Close;
      forall i | 0 <= i < |t.ends| && (t.ends[i].ropen || t.ends[i].wopen)
        ensures exists q: nat, e :: HoldsEnd(t, q, e)
      {
        assert HoldsEnd(t, t.ends[i].pid as nat, t.ends[i].ropen);
      }
    }
  }

  lemma SameHolds(s: Stream, t: Stream, k: nat, q: nat, e: bool)
    requires |t.ends| == |s.ends| && k < |s.ends| && s.ends[k].pid != q && t.ends[k].pid != q
    requires forall i | 0 <= i < |s.ends| && i != k :: t.ends[i] == s.ends[i]
    ensures HoldsEnd(t, q, e) == HoldsEnd(s, q, e)
  {
  }

  /** Once every reader has had everything, a flush empties the buffer: the next
      write has all of it. */
  lemma FlushMakesRoom(l: Ledger, size: nat, pid: nat, src: seq<byte>)
    requires Exact(l, size) && HoldsEnd(l.s, pid, false) && HasReader(l.s.ends)
    requires forall i | 0 <= i < |l.s.ends| && l.s.ends[i].ropen :: l.got[l.s.ends[i].pid] == l.s.data
    ensures var t := Flush(l.s).0; Inv(t, size) && Write(t, size, pid, src).1 == Min(|src|, size)
  {
    FlushExact(l.s, size);
    FlushKeepsInv(l.s, size);
    NextExact(l, size, FlushOp);
    var t := Flush(l.s).0;
    forall i | 0 <= i < |l.s.ends| && l.s.ends[i].ropen ensures l.s.ends[i].cursor == |l.s.data| {
      assert l.got[l.s.ends[i].pid] == l.s.data[..l.s.ends[i].cursor];
    }
    assert HoldsEnd(t, pid, false);
    WriteAccepts(Next(l, size, FlushOp), size, pid, src);
  }
}
