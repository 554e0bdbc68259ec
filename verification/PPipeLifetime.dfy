/** The life of a persistent pipe: the file layer works on its slots as it does on
    a plain pipe's, whatever is read, written and flushed in between.  Forgetting
    the cursors turns every step into the step of PipeLifetime. */
module PPipeLifetime {
  import opened IpcBase
  import PS = PipeSpec
  import PPS = PPipeSpec
  import PL = PipeLifetime

  /** The stream with its slots, both file objects, the tables of open files, and
      how often the pages were given back. */
  datatype Life = Life(s: PPS.Stream, rd: PL.File, wr: PL.File, tables: map<int, seq<PL.Fd>>, freed: int)

  // ---------------------------------------------------------------- the operations

  /** ppipe_close through the read or the write file. */
  function PPipeClose(l: Life, pid: int, readEnd: bool): (Life, int) {
    var f := if readEnd then l.rd else l.wr;
    var (t, r, free) := PPS.Close(l.s, pid, readEnd);
    if f.refCount == 0 || r != 0 then (l, -EOTHERS)
    else
      var m := l.(s := t, freed := if free then l.freed + 1 else l.freed);
      (if readEnd then m.(rd := PL.Release(m.rd)) else m.(wr := PL.Release(m.wr)), 0)
  }

  function CloseEntry(l: Life, pid: int, fd: PL.Fd): Life {
    match fd
    case ReadFd => PPipeClose(l, pid, true).0
    case WriteFd => PPipeClose(l, pid, false).0
    case _ => l
  }

  /** close(fd) by process `pid`. */
  function CloseFd(l: Life, pid: int, fd: nat): Life
    requires pid in l.tables && fd < |l.tables[pid]|
  {
    CloseEntry(l.(tables := l.tables[pid := l.tables[pid][fd := PL.Empty]]), pid, l.tables[pid][fd])
  }

  /** One turn of do_file_fork for process `pid`, a copy of `ppid`. */
  function ForkEntry(l: Life, ppid: int, pid: int, fd: PL.Fd): Life {
    match fd
    case ReadFd => l.(rd := l.rd.(refCount := l.rd.refCount + 1), s := PPS.Fork(l.s, ppid, pid).0)
    case WriteFd => l.(wr := l.wr.(refCount := l.wr.refCount + 1), s := PPS.Fork(l.s, ppid, pid).0)
    case _ => l
  }

  function ForkEntries(l: Life, ppid: int, pid: int, table: seq<PL.Fd>, n: nat): Life
    requires n <= |table|
  {
    if n == 0 then l else ForkEntry(ForkEntries(l, ppid, pid, table, n - 1), ppid, pid, table[n - 1])
  }

  function Fork(l: Life, ppid: int, pid: int): Life
    requires ppid in l.tables
  {
    var table := l.tables[ppid];
    ForkEntries(l.(tables := l.tables[pid := table]), ppid, pid, table, |table|)
  }

  function ExitEntries(l: Life, pid: int, n: nat): (r: Life)
    requires pid in l.tables && n <= |l.tables[pid]|
    ensures pid in r.tables && |r.tables[pid]| == |l.tables[pid]|
  {
    if n == 0 then l else CloseFd(ExitEntries(l, pid, n - 1), pid, n - 1)
  }

  function Exit(l: Life, pid: int): Life
    requires pid in l.tables
  {
    var m := ExitEntries(l, pid, |l.tables[pid]|);
    m.(tables := m.tables - {pid})
  }

  // ---------------------------------------------------------------- forgetting the cursors

  function SlotsOf(ends: seq<PPS.End>): (slots: seq<PS.Slot>)
    ensures |slots| == |ends|
    ensures forall i | 0 <= i < |ends| :: slots[i] == PS.Slot(ends[i].pid, ends[i].ropen, ends[i].wopen)
  {
    seq(|ends|, i requires 0 <= i < |ends| => PS.Slot(ends[i].pid, ends[i].ropen, ends[i].wopen))
  }

  function Forget(l: Life): PL.Life {
    PL.Life(SlotsOf(l.s.ends), l.rd, l.wr, l.tables, l.freed)
  }

  lemma SameSearch(ends: seq<PPS.End>, pid: int)
    ensures PS.SlotOf(SlotsOf(ends), pid) == PPS.SlotOf(ends, pid)
  {
    assert PS.Pids(SlotsOf(ends)) == PPS.Pids(ends);
  }

  lemma CloseForgets(s: PPS.Stream, pid: int, readEnd: bool)
    ensures var (t, r, free) := PPS.Close(s, pid, readEnd);
            PS.CloseSlot(SlotsOf(s.ends), pid, readEnd) == (SlotsOf(t.ends), r, free)
  {
    SameSearch(s.ends, pid);
    hide PS.SlotOf, PPS.SlotOf;
    var k := PPS.SlotOf(s.ends, pid);
    if k < |s.ends| {
      assert SlotsOf(s.ends[k := PPS.ShutEnd(s.ends[k], readEnd)])
             == SlotsOf(s.ends)[k := PS.Shut(SlotsOf(s.ends)[k], readEnd)];
    }
  }

  lemma ForkForgets(s: PPS.Stream, ppid: int, pid: int)
    ensures PS.ForkSlots(SlotsOf(s.ends), ppid, pid).0 == SlotsOf(PPS.Fork(s, ppid, pid).0.ends)
  {
    SameSearch(s.ends, FREE);
    SameSearch(s.ends, ppid);
    SameSearch(s.ends, pid);
    hide PS.SlotOf, PPS.SlotOf;
    var free, parent := PPS.SlotOf(s.ends, FREE), PPS.SlotOf(s.ends, ppid);
    if free < |s.ends| && parent < |s.ends| {
      assert SlotsOf(s.ends[free := s.ends[parent].(pid := pid)])
             == SlotsOf(s.ends)[free := SlotsOf(s.ends)[parent].(pid := pid)];
    }
  }

  lemma CloseFdForgets(l: Life, pid: int, fd: nat)
    requires pid in l.tables && fd < |l.tables[pid]|
    ensures Forget(CloseFd(l, pid, fd)) == PL.CloseFd(Forget(l), pid, fd)
  {
    CloseForgets(l.s, pid, l.tables[pid][fd] == PL.ReadFd);
    hide PPS.Close, PS.CloseSlot, SlotsOf;
  }

  lemma {:induction false} ForkEntriesForget(l: Life, ppid: int, pid: int, table: seq<PL.Fd>, n: nat)
    requires n <= |table|
    ensures Forget(ForkEntries(l, ppid, pid, table, n)) == PL.ForkEntries(Forget(l), ppid, pid, table, n)
  {
    hide PPS.Fork, PS.ForkSlots, SlotsOf;
    if n > 0 {
      ForkEntriesForget(l, ppid, pid, table, n - 1);
      ForkForgets(ForkEntries(l, ppid, pid, table, n - 1).s, ppid, pid);
    }
  }

  lemma ForkForgetsCursors(l: Life, ppid: int, pid: int)
    requires ppid in l.tables
    ensures Forget(Fork(l, ppid, pid)) == PL.Fork(Forget(l), ppid, pid)
  {
    ForkEntriesForget(l.(tables := l.tables[pid := l.tables[ppid]]), ppid, pid, l.tables[ppid], |l.tables[ppid]|);
  }

  lemma {:induction false} ExitEntriesForget(l: Life, pid: int, n: nat)
    requires pid in l.tables && n <= |l.tables[pid]|
    ensures Forget(ExitEntries(l, pid, n)) == PL.ExitEntries(Forget(l), pid, n)
  {
    hide CloseFd, PL.CloseFd;
    if n > 0 {
      ExitEntriesForget(l, pid, n - 1);
      CloseFdForgets(ExitEntries(l, pid, n - 1), pid, n - 1);
    }
  }

  // ---------------------------------------------------------------- whole runs

  datatype Op =
    | Files(op: PL.Op)                        // fork, close or exit of a process
    | ReadOp(pid: nat, count: nat)
    | WriteOp(pid: nat, src: seq<byte>)
    | FlushOp

  /** Descriptors, slots and counts agree, and the stream is in order. */
  ghost predicate Inv(l: Life, size: nat) {
    PL.Inv(Forget(l)) && PPS.Inv(l.s, size)
  }

  predicate OpOk(l: Life, op: Op, procs: nat) {
    op.Files? ==> PL.OpOk(Forget(l), op.op, procs)
  }

  function NextFiles(l: Life, op: PL.Op, procs: nat): Life
    requires PL.OpOk(Forget(l), op, procs)
  {
    match op
    case ForkOp(ppid, pid) => Fork(l, ppid, pid)
    case CloseOp(pid, fd) => CloseFd(l, pid, fd)
    case ExitOp(pid) => Exit(l, pid)
  }

  function Next(l: Life, op: Op, size: nat, procs: nat): Life
    requires OpOk(l, op, procs) && PPS.Inv(l.s, size)
  {
    match op
    case Files(op) => NextFiles(l, op, procs)
    case ReadOp(pid, count) => l.(s := PPS.Read(l.s, pid, count).0)
    case WriteOp(pid, src) => l.(s := PPS.Write(l.s, size, pid, src).0)
    case FlushOp => l.(s := PPS.Flush(l.s).0)
  }

  lemma NextFilesForgets(l: Life, op: PL.Op, procs: nat)
    requires PL.OpOk(Forget(l), op, procs)
    ensures Forget(NextFiles(l, op, procs)) == PL.Next(Forget(l), op, procs)
  {
    match op
    case ForkOp(ppid, pid) => ForkForgetsCursors(l, ppid, pid);
    case CloseOp(pid, fd) => CloseFdForgets(l, pid, fd);
    case ExitOp(pid) => ExitEntriesForget(l, pid, |l.tables[pid]|);
  }

  /** Reading, writing and flushing change no slot but its cursor. */
  lemma DataForgets(l: Life, op: Op, size: nat, procs: nat)
    requires !op.Files? && PPS.Inv(l.s, size)
    ensures Forget(Next(l, op, size, procs)) == Forget(l) && PPS.Inv(Next(l, op, size, procs).s, size)
  {
    match op
    case ReadOp(pid, count) =>
      PPS.ReadKeepsInv(l.s, size, pid, count);
      hide PPS.SlotOf;
      assert SlotsOf(PPS.Read(l.s, pid, count).0.ends) == SlotsOf(l.s.ends);
    case WriteOp(pid, src) => PPS.WriteKeepsInv(l.s, size, pid, src);
    case FlushOp => PPS.FlushKeepsInv(l.s, size);
  }

  // ---------------------------------------------------------------- the stream under the file layer

  lemma CloseFdKeepsStream(l: Life, size: nat, pid: int, fd: nat)
    requires PPS.Inv(l.s, size) && pid in l.tables && fd < |l.tables[pid]| && pid >= 0
    ensures PPS.Inv(CloseFd(l, pid, fd).s, size)
  {
    PPS.CloseKeepsInv(l.s, size, pid, l.tables[pid][fd] == PL.ReadFd);
    hide PPS.Inv, PPS.Close;
  }

  lemma {:induction false} ForkEntriesKeepStream(l: Life, size: nat, ppid: int, pid: int, table: seq<PL.Fd>, n: nat)
    requires PPS.Inv(l.s, size) && n <= |table| && ppid >= 0 && pid >= 0
    ensures PPS.Inv(ForkEntries(l, ppid, pid, table, n).s, size)
  {
    hide PPS.Inv, PPS.Fork;
    if n > 0 {
      ForkEntriesKeepStream(l, size, ppid, pid, table, n - 1);
      PPS.ForkKeepsInv(ForkEntries(l, ppid, pid, table, n - 1).s, size, ppid, pid);
    }
  }

  lemma {:induction false} ExitEntriesKeepStream(l: Life, size: nat, pid: int, n: nat)
    requires PPS.Inv(l.s, size) && pid in l.tables && n <= |l.tables[pid]| && pid >= 0
    ensures PPS.Inv(ExitEntries(l, pid, n).s, size)
  {
    hide PPS.Inv, CloseFd;
    if n > 0 {
      ExitEntriesKeepStream(l, size, pid, n - 1);
      CloseFdKeepsStream(ExitEntries(l, pid, n - 1), size, pid, n - 1);
    }
  }

  lemma NextFilesKeepsStream(l: Life, op: PL.Op, size: nat, procs: nat)
    requires Inv(l, size) && PL.OpOk(Forget(l), op, procs)
    ensures PPS.Inv(NextFiles(l, op, procs).s, size)
  {
    match op
    case ForkOp(ppid, pid) =>
      assert ppid >= 0;
      ForkEntriesKeepStream(l.(tables := l.tables[pid := l.tables[ppid]]), size, ppid, pid, l.tables[ppid],
                            |l.tables[ppid]|);
    case CloseOp(pid, fd) =>
      assert pid >= 0;
      CloseFdKeepsStream(l, size, pid, fd);
    case ExitOp(pid) =>
      assert pid >= 0;
      ExitEntriesKeepStream(l, size, pid, |l.tables[pid]|);
  }

  lemma NextKeepsInv(l: Life, op: Op, size: nat, procs: nat)
    requires Inv(l, size) && OpOk(l, op, procs) && procs <= |l.s.ends|
    ensures Inv(Next(l, op, size, procs), size)
    ensures |Next(l, op, size, procs).s.ends| == |l.s.ends| && Next(l, op, size, procs).freed >= l.freed
  {
    hide PPS.Inv, PL.Inv, PL.OpOk, PL.Next, NextFiles, PPS.Read, PPS.Write, PPS.Flush;
    if op.Files? {
      NextFilesForgets(l, op.op, procs);
      NextFilesKeepsStream(l, op.op, size, procs);
      PL.NextKeepsInv(Forget(l), op.op, procs);
      PL.NextKeeps(Forget(l), op.op, procs);
    } else {
      DataForgets(l, op, size, procs);
    }
    assert |Forget(Next(l, op, size, procs)).slots| == |Forget(l).slots|;
  }

  /** Whatever state an operation finds, only what OpOk asks is asked of it. */
  predicate Follows(l: Life, ops: seq<Op>, size: nat, procs: nat)
    decreases |ops|
  {
    ops == []
    || (OpOk(l, ops[0], procs) && (PPS.Inv(l.s, size) ==> Follows(Next(l, ops[0], size, procs), ops[1..], size, procs)))
  }

  predicate RunOk(l: Life, ops: seq<Op>, size: nat, procs: nat)
    decreases |ops|
  {
    ops == []
    || (OpOk(l, ops[0], procs) && PPS.Inv(l.s, size) && RunOk(Next(l, ops[0], size, procs), ops[1..], size, procs))
  }

  function Run(l: Life, ops: seq<Op>, size: nat, procs: nat): Life
    requires RunOk(l, ops, size, procs)
    decreases |ops|
  {
    if ops == [] then l else Run(Next(l, ops[0], size, procs), ops[1..], size, procs)
  }

  /** A persistent pipe just created by process `pid`. */
  function Create(slots: nat, pid: nat, table: seq<PL.Fd>): Life
    requires slots > 0
  {
    Life(PPS.Create(slots, pid).s, PL.File(1, 0), PL.File(1, 0), map[pid := table], 0)
  }

  lemma CreateInv(slots: nat, size: nat, pid: nat, table: seq<PL.Fd>)
    requires slots > 0 && PL.TableOk(table) && PL.Open(table, PL.ReadFd) && PL.Open(table, PL.WriteFd)
    ensures Inv(Create(slots, pid, table), size)
  {
    PPS.CreateExact(slots, size, pid);
    PL.CreateInv(slots, pid, table);
    assert Forget(Create(slots, pid, table)) == PL.Create(slots, pid, table);
  }

  /** Over every run of forks, closes, exits, reads, writes and flushes by no more
      processes than slots: reference counts, slots and descriptors agree, pids are
      distinct, and the pages are given back exactly once, at the last close, and
      then both file objects are gone, each once. */
  lemma {:induction false} LifetimeExact(l: Life, ops: seq<Op>, size: nat, procs: nat)
    requires Inv(l, size) && Follows(l, ops, size, procs) && procs <= |l.s.ends|
    ensures RunOk(l, ops, size, procs)
    ensures var m := Run(l, ops, size, procs);
            && Inv(m, size)
            && m.freed == (if PL.Abandoned(Forget(m)) then 1 else 0)
            && (m.freed == 1 <==> m.rd.deleted == 1 && m.wr.deleted == 1)
            && (l.freed == 1 ==> m.freed == 1)
    decreases |ops|
  {
    hide Inv, OpOk, Next, PL.Abandoned, PPS.Inv, PL.Inv;
    Forgotten(l, size);
    PL.FreedExactlyWhenAbandoned(Forget(l));
    if ops != [] {
      var m := Next(l, ops[0], size, procs);
      NextKeepsInv(l, ops[0], size, procs);
      Forgotten(m, size);
      PL.FreedExactlyWhenAbandoned(Forget(m));
      LifetimeExact(m, ops[1..], size, procs);
    }
  }

  lemma Forgotten(l: Life, size: nat)
    requires Inv(l, size)
    ensures PL.Inv(Forget(l)) && PPS.Inv(l.s, size)
  {
  }
}
