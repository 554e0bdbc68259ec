/** The life of a pipe: file objects and their reference counts, the processes'
    tables of open files, fork, close and exit, and the freeing of the pipe's
    pages.  Duplicated descriptors are not part of this model. */
module PipeLifetime {
  import opened IpcBase
  import opened PipeSpec

  const MAX_OPEN_FILES: nat := 16

  /** An entry of a process's file table, as far as this pipe is concerned. */
  datatype Fd = Empty | ReadFd | WriteFd | OtherFd

  /** A file object; `deleted` counts how often its page was given back. */
  datatype File = File(refCount: int, deleted: int)

  /** `freed` counts how often the pipe's pages were given back. */
  datatype Life = Life(slots: seq<Slot>, rd: File, wr: File, tables: map<int, seq<Fd>>, freed: int)

  function EndFd(readEnd: bool): Fd {
    if readEnd then ReadFd else WriteFd
  }

  // ---------------------------------------------------------------- the operations

  /** file_close */
  function Release(f: File): File {
    f.(refCount := f.refCount - 1, deleted := if f.refCount == 1 then f.deleted + 1 else f.deleted)
  }

  /** pipe_close through the read or the write file. */
  function PipeClose(l: Life, pid: int, readEnd: bool): (Life, int) {
    var f := if readEnd then l.rd else l.wr;
    var (slots, r, free) := CloseSlot(l.slots, pid, readEnd);
    if f.refCount == 0 || r != 0 then (l, -EOTHERS)
    else
      var m := l.(slots := slots, freed := if free then l.freed + 1 else l.freed);
      (if readEnd then m.(rd := Release(m.rd)) else m.(wr := Release(m.wr)), 0)
  }

  /** The close handler of entry `fd`; files of other kinds are not modelled. */
  function CloseEntry(l: Life, pid: int, fd: Fd): Life {
    match fd
    case ReadFd => PipeClose(l, pid, true).0
    case WriteFd => PipeClose(l, pid, false).0
    case _ => l
  }

  /** close(fd) by process `pid`. */
  function CloseFd(l: Life, pid: int, fd: nat): Life
    requires pid in l.tables && fd < |l.tables[pid]|
  {
    CloseEntry(l.(tables := l.tables[pid := l.tables[pid][fd := Empty]]), pid, l.tables[pid][fd])
  }

  /** One turn of do_file_fork for process `pid`, a copy of `ppid`. */
  function ForkEntry(l: Life, ppid: int, pid: int, fd: Fd): Life {
    match fd
    case ReadFd => l.(rd := l.rd.(refCount := l.rd.refCount + 1), slots := ForkSlots(l.slots, ppid, pid).0)
    case WriteFd => l.(wr := l.wr.(refCount := l.wr.refCount + 1), slots := ForkSlots(l.slots, ppid, pid).0)
    case _ => l
  }

  /** do_file_fork over the first `n` entries of the copied table. */
  function ForkEntries(l: Life, ppid: int, pid: int, table: seq<Fd>, n: nat): Life
    requires n <= |table|
  {
    if n == 0 then l else ForkEntry(ForkEntries(l, ppid, pid, table, n - 1), ppid, pid, table[n - 1])
  }

  function Fork(l: Life, ppid: int, pid: int): Life
    requires ppid in l.tables
  {
    var table := l.tables[ppid];
    ForkEntries(l.(tables := l.tables[pid := table]), ppid, pid, table, |table|)
  }

  /** do_file_exit over the first `n` entries. */
  function ExitEntries(l: Life, pid: int, n: nat): (r: Life)
    requires pid in l.tables && n <= |l.tables[pid]|
    ensures pid in r.tables && |r.tables[pid]| == |l.tables[pid]|
    ensures forall i | n <= i < |l.tables[pid]| :: r.tables[pid][i] == l.tables[pid][i]
    ensures forall i | 0 <= i < n :: r.tables[pid][i] == Empty
  {
    if n == 0 then l else CloseFd(ExitEntries(l, pid, n - 1), pid, n - 1)
  }

  function Exit(l: Life, pid: int): Life
    requires pid in l.tables
  {
    var m := ExitEntries(l, pid, |l.tables[pid]|);
    m.(tables := m.tables - {pid})
  }

  // ---------------------------------------------------------------- the invariant

  predicate Open(table: seq<Fd>, fd: Fd) {
    exists i | 0 <= i < |table| :: table[i] == fd
  }

  predicate AtMostOnce(table: seq<Fd>, fd: Fd) {
    forall i, j | 0 <= i < j < |table| :: !(table[i] == fd && table[j] == fd)
  }

  predicate TableOk(table: seq<Fd>) {
    |table| == MAX_OPEN_FILES && AtMostOnce(table, ReadFd) && AtMostOnce(table, WriteFd)
  }

  /** Process `pid` holds the end in the pipe's slots. */
  predicate SlotHolds(slots: seq<Slot>, pid: int, readEnd: bool) {
    exists k | 0 <= k < |slots| :: slots[k].pid == pid && pid != FREE && Holds(slots[k], readEnd)
  }

  function Holders(slots: seq<Slot>, readEnd: bool): nat {
    if slots == [] then 0
    else Holders(slots[..|slots| - 1], readEnd) + if Holds(slots[|slots| - 1], readEnd) then 1 else 0
  }

  predicate FileOk(f: File, slots: seq<Slot>, readEnd: bool) {
    f.refCount == Holders(slots, readEnd) && f.deleted == if f.refCount == 0 then 1 else 0
  }

  /** Tables and slots agree. */
  ghost predicate Agreed(tables: map<int, seq<Fd>>, slots: seq<Slot>) {
    forall pid, readEnd | pid in tables :: Open(tables[pid], EndFd(readEnd)) <==> SlotHolds(slots, pid, readEnd)
  }

  /** Descriptors, slots and reference counts tell the same story, and memory
      has been given back exactly when nobody holds it any more. */
  ghost predicate Inv(l: Life) {
    && SlotsOk(l.slots)
    && (forall pid | pid in l.tables :: pid >= 0 && TableOk(l.tables[pid]))
    && Agreed(l.tables, l.slots)
    && (forall k | 0 <= k < |l.slots| :: l.slots[k].pid != FREE ==> l.slots[k].pid in l.tables)
    && FileOk(l.rd, l.slots, true) && FileOk(l.wr, l.slots, false)
    && l.freed == if NoneOpen(l.slots) then 1 else 0
  }

  // ---------------------------------------------------------------- counting

  lemma {:induction false} HoldersUpdate(slots: seq<Slot>, k: nat, s: Slot, readEnd: bool)
    requires k < |slots|
    ensures Holders(slots[k := s], readEnd)
            == Holders(slots, readEnd) - (if Holds(slots[k], readEnd) then 1 else 0)
               + if Holds(s, readEnd) then 1 else 0
    decreases |slots|
  {
    var n := |slots| - 1;
    if k == n {
      assert slots[k := s][..n] == slots[..n];
    } else {
      assert slots[k := s][..n] == slots[..n][k := s];
      HoldersUpdate(slots[..n], k, s, readEnd);
    }
  }

  lemma {:induction false} NoHolders(slots: seq<Slot>, readEnd: bool)
    ensures Holders(slots, readEnd) == 0 <==> forall k | 0 <= k < |slots| :: !Holds(slots[k], readEnd)
  {
    if slots != [] {
      NoHolders(slots[..|slots| - 1], readEnd);
    }
  }

  /** Nothing is open exactly when neither file is referenced. */
  lemma NoneOpenIsNoRefs(slots: seq<Slot>)
    ensures NoneOpen(slots) <==> Holders(slots, true) == 0 && Holders(slots, false) == 0
  {
    NoHolders(slots, true);
    NoHolders(slots, false);
    assert forall k | 0 <= k < |slots| ::
        Holds(slots[k], true) == slots[k].ropen && Holds(slots[k], false) == slots[k].wopen;
  }

  // ---------------------------------------------------------------- closing

  lemma SlotIs(slots: seq<Slot>, k: nat)
    requires SlotsOk(slots) && k < |slots| && slots[k].pid != FREE
    ensures SlotOf(slots, slots[k].pid) == k
  {
  }

  lemma HolderFound(slots: seq<Slot>, pid: int, readEnd: bool)
    requires SlotsOk(slots) && SlotHolds(slots, pid, readEnd)
    ensures var k := SlotOf(slots, pid); k < |slots| && Holds(slots[k], readEnd) && pid != FREE
  {
    var k :| 0 <= k < |slots| && slots[k].pid == pid && pid != FREE && Holds(slots[k], readEnd);
    SlotIs(slots, k);
  }

  lemma ShutHolds(slots: seq<Slot>, k: nat, readEnd: bool, pid: int, e: bool)
    requires SlotsOk(slots) && k < |slots| && slots[k].pid != FREE
    ensures SlotHolds(slots[k := Shut(slots[k], readEnd)], pid, e)
            <==> SlotHolds(slots, pid, e) && !(pid == slots[k].pid && e == readEnd)
  {
    var slots' := slots[k := Shut(slots[k], readEnd)];
    if SlotHolds(slots, pid, e) && !(pid == slots[k].pid && e == readEnd) {
      var j :| 0 <= j < |slots| && slots[j].pid == pid && pid != FREE && Holds(slots[j], e);
      assert slots'[j].pid == pid && Holds(slots'[j], e);
    }
    if SlotHolds(slots', pid, e) {
      var j :| 0 <= j < |slots'| && slots'[j].pid == pid && pid != FREE && Holds(slots'[j], e);
      assert slots[j].pid == pid && Holds(slots[j], e);
    }
  }

  lemma TableClose(table: seq<Fd>, i: nat, fd: Fd)
    requires TableOk(table) && i < |table| && (fd == ReadFd || fd == WriteFd)
    ensures TableOk(table[i := Empty])
    ensures Open(table[i := Empty], fd) <==> Open(table, fd) && table[i] != fd
  {
    var table' := table[i := Empty];
    if Open(table, fd) && table[i] != fd {
      var j :| 0 <= j < |table| && table[j] == fd;
      assert table'[j] == fd;
    }
    if Open(table', fd) {
      var j :| 0 <= j < |table'| && table'[j] == fd;
      assert table[j] == fd;
    }
  }

  /** Closing an end a process holds releases one reference and, with the last
      one, the memory. */
  lemma CloseCounts(l: Life, pid: int, readEnd: bool)
    requires SlotsOk(l.slots) && SlotHolds(l.slots, pid, readEnd)
    requires FileOk(l.rd, l.slots, true) && FileOk(l.wr, l.slots, false)
    requires l.freed == if NoneOpen(l.slots) then 1 else 0
    ensures var (m, r) := PipeClose(l, pid, readEnd);
            && r == 0 && m.tables == l.tables
            && m.slots == CloseSlot(l.slots, pid, readEnd).0
            && FileOk(m.rd, m.slots, true) && FileOk(m.wr, m.slots, false)
            && m.freed == if NoneOpen(m.slots) then 1 else 0
  {
    HolderFound(l.slots, pid, readEnd);
    hide SlotOf, SlotHolds, SlotsOk;
    var k := SlotOf(l.slots, pid);
    NoHolders(l.slots, readEnd);
    HoldersUpdate(l.slots, k, Shut(l.slots[k], readEnd), true);
    HoldersUpdate(l.slots, k, Shut(l.slots[k], readEnd), false);
    NoneOpenIsNoRefs(l.slots);
  }

  lemma CloseKeepsHolders(l: Life, pid: int, i: nat, q: int, e: bool)
    requires Inv(l) && pid in l.tables && i < |l.tables[pid]|
    requires l.tables[pid][i] == ReadFd || l.tables[pid][i] == WriteFd
    requires q in l.tables
    ensures SlotHolds(l.slots, pid, l.tables[pid][i] == ReadFd)
    ensures var table := if q == pid then l.tables[pid][i := Empty] else l.tables[q];
            Open(table, EndFd(e)) <==> SlotHolds(CloseSlot(l.slots, pid, l.tables[pid][i] == ReadFd).0, q, e)
  {
    var readEnd := l.tables[pid][i] == ReadFd;
    assert Open(l.tables[pid], EndFd(readEnd));
    HolderFound(l.slots, pid, readEnd);
    ShutHolds(l.slots, SlotOf(l.slots, pid), readEnd, q, e);
    TableClose(l.tables[pid], i, EndFd(e));
    assert Open(l.tables[q], EndFd(e)) <==> SlotHolds(l.slots, q, e);
  }

  lemma CloseAgreed(l: Life, pid: int, i: nat)
    requires Inv(l) && pid in l.tables && i < |l.tables[pid]|
    requires l.tables[pid][i] == ReadFd || l.tables[pid][i] == WriteFd
    ensures SlotHolds(l.slots, pid, l.tables[pid][i] == ReadFd)
    ensures Agreed(l.tables[pid := l.tables[pid][i := Empty]], CloseSlot(l.slots, pid, l.tables[pid][i] == ReadFd).0)
  {
    hide Inv, Open, SlotHolds, CloseSlot;
    CloseKeepsHolders(l, pid, i, pid, true);
    var tables := l.tables[pid := l.tables[pid][i := Empty]];
    var slots := CloseSlot(l.slots, pid, l.tables[pid][i] == ReadFd).0;
    forall q, e | q in tables ensures Open(tables[q], EndFd(e)) <==> SlotHolds(slots, q, e) {
      CloseKeepsHolders(l, pid, i, q, e);
    }
  }

  lemma CloseOtherAgreed(l: Life, pid: int, i: nat)
    requires Inv(l) && pid in l.tables && i < |l.tables[pid]|
    requires l.tables[pid][i] != ReadFd && l.tables[pid][i] != WriteFd
    ensures Agreed(l.tables[pid := l.tables[pid][i := Empty]], l.slots)
  {
    var tables := l.tables[pid := l.tables[pid][i := Empty]];
    hide SlotsOk, FileOk, NoneOpen, SlotHolds;
    forall q, e | q in tables ensures Open(tables[q], EndFd(e)) <==> SlotHolds(l.slots, q, e) {
      assert Open(l.tables[q], EndFd(e)) <==> SlotHolds(l.slots, q, e);
      TableClose(l.tables[pid], i, EndFd(e));
    }
  }

  lemma CloseFdKeepsInv(l: Life, pid: int, i: nat)
    requires Inv(l) && pid in l.tables && i < |l.tables[pid]|
    ensures Inv(CloseFd(l, pid, i))
  {
    hide Agreed, FileOk, NoneOpen, SlotsOk, CloseSlot, PipeClose, Open, SlotHolds, AtMostOnce;
    var fd := l.tables[pid][i];
    TableClose(l.tables[pid], i, ReadFd);
    if fd == ReadFd || fd == WriteFd {
      CloseAgreed(l, pid, i);
      CloseKeepsSlots(l.slots, pid, fd == ReadFd);
      CloseCounts(l.(tables := l.tables[pid := l.tables[pid][i := Empty]]), pid, fd == ReadFd);
      ClosedSlotsKnown(l, pid, fd == ReadFd);
    } else {
      CloseOtherAgreed(l, pid, i);
    }
  }

  lemma ClosedSlotsKnown(l: Life, pid: int, readEnd: bool)
    requires forall k | 0 <= k < |l.slots| :: l.slots[k].pid != FREE ==> l.slots[k].pid in l.tables
    ensures var slots := CloseSlot(l.slots, pid, readEnd).0;
            forall k | 0 <= k < |slots| :: slots[k].pid != FREE ==> slots[k].pid in l.tables
  {
  }

  // ---------------------------------------------------------------- forking

  function Bit(b: bool): int {
    if b then 1 else 0
  }

  /** Some process slot is free. */
  predicate HasFree(slots: seq<Slot>) {
    SlotOf(slots, FREE) < |slots|
  }

  lemma OpenPrefix(table: seq<Fd>, n: nat, fd: Fd)
    requires n < |table|
    ensures Open(table[..n + 1], fd) <==> Open(table[..n], fd) || table[n] == fd
    ensures AtMostOnce(table, fd) && table[n] == fd ==> !Open(table[..n], fd)
  {
    if Open(table[..n], fd) {
      var j :| 0 <= j < n && table[..n][j] == fd;
      assert table[..n + 1][j] == fd && table[j] == fd;
    }
    if table[n] == fd {
      assert table[..n + 1][n] == fd;
    }
    if Open(table[..n + 1], fd) && table[n] != fd {
      var j :| 0 <= j < n + 1 && table[..n + 1][j] == fd;
      assert table[..n][j] == fd;
    }
  }

  lemma ForkTwice(slots: seq<Slot>, ppid: int, pid: int)
    requires HasFree(slots) && SlotOf(slots, ppid) < |slots|
    ensures ForkSlots(ForkSlots(slots, ppid, pid).0, ppid, pid).0 == ForkSlots(slots, ppid, pid).0
  {
    var once := ForkSlots(slots, ppid, pid).0;
    if SlotOf(slots, pid) == |slots| {
      assert once[SlotOf(slots, FREE)].pid == pid;
    }
  }

  /** The state once the child has inherited the read end, the write end, both or none. */
  function Inherited(l: Life, ppid: int, pid: int, r: bool, w: bool): Life {
    l.(rd := l.rd.(refCount := l.rd.refCount + Bit(r)), wr := l.wr.(refCount := l.wr.refCount + Bit(w)),
       slots := if r || w then ForkSlots(l.slots, ppid, pid).0 else l.slots)
  }

  lemma ForkEntryIs(l: Life, ppid: int, pid: int, r: bool, w: bool, fd: Fd)
    requires fd == ReadFd || fd == WriteFd ==> HasFree(l.slots) && SlotOf(l.slots, ppid) < |l.slots|
    requires (fd == ReadFd ==> !r) && (fd == WriteFd ==> !w)
    ensures ForkEntry(Inherited(l, ppid, pid, r, w), ppid, pid, fd)
            == Inherited(l, ppid, pid, r || fd == ReadFd, w || fd == WriteFd)
  {
    hide ForkSlots, SlotOf, HasFree;
    if fd == ReadFd || fd == WriteFd {
      ForkTwice(l.slots, ppid, pid);
    }
  }

  /** The loop of do_file_fork: one more reference per inherited end, one slot
      for the child if it inherits any. */
  lemma {:induction false} ForkEntriesIs(l: Life, ppid: int, pid: int, table: seq<Fd>, n: nat)
    requires n <= |table| && AtMostOnce(table, ReadFd) && AtMostOnce(table, WriteFd)
    requires Open(table, ReadFd) || Open(table, WriteFd) ==> HasFree(l.slots) && SlotOf(l.slots, ppid) < |l.slots|
    ensures ForkEntries(l, ppid, pid, table, n)
            == Inherited(l, ppid, pid, Open(table[..n], ReadFd), Open(table[..n], WriteFd))
  {
    if n > 0 {
      assert table[n - 1] == ReadFd || table[n - 1] == WriteFd ==> Open(table, table[n - 1]);
      OpenPrefix(table, n - 1, ReadFd);
      OpenPrefix(table, n - 1, WriteFd);
      hide ForkSlots, AtMostOnce, Open, Inherited, ForkEntry, HasFree, SlotOf;
      ForkEntriesIs(l, ppid, pid, table, n - 1);
      ForkEntryIs(l, ppid, pid, Open(table[..n - 1], ReadFd), Open(table[..n - 1], WriteFd), table[n - 1]);
    }
  }

  /** The child's slot holds what the parent's holds; nobody else's changes. */
  lemma ForkHolds(slots: seq<Slot>, ppid: int, pid: int, q: int, e: bool)
    requires SlotsOk(slots) && HasFree(slots) && SlotOf(slots, ppid) < |slots| == SlotOf(slots, pid)
    requires pid >= 0 && ppid >= 0
    ensures SlotHolds(ForkSlots(slots, ppid, pid).0, q, e) <==> SlotHolds(slots, if q == pid then ppid else q, e)
  {
    var free, parent := SlotOf(slots, FREE), SlotOf(slots, ppid);
    var slots' := ForkSlots(slots, ppid, pid).0;
    var o := if q == pid then ppid else q;
    if SlotHolds(slots, o, e) {
      HolderFound(slots, o, e);
      var k := SlotOf(slots, o);
      assert k != free && Holds(slots[k], e);
      assert slots'[if q == pid then free else k].pid == q && Holds(slots'[if q == pid then free else k], e);
    }
    if SlotHolds(slots', q, e) {
      var k :| 0 <= k < |slots'| && slots'[k].pid == q && q != FREE && Holds(slots'[k], e);
      if k == free {
        assert slots[parent].pid == ppid && Holds(slots[parent], e);
      } else {
        assert slots[k].pid == q && Holds(slots[k], e);
      }
    }
  }

  lemma ForkCounts(slots: seq<Slot>, ppid: int, pid: int, e: bool)
    requires SlotsOk(slots) && HasFree(slots) && SlotOf(slots, ppid) < |slots| == SlotOf(slots, pid) && ppid >= 0
    ensures Holders(ForkSlots(slots, ppid, pid).0, e) == Holders(slots, e) + Bit(SlotHolds(slots, ppid, e))
    ensures SlotHolds(slots, ppid, e) ==> Holders(slots, e) > 0
  {
    var free, parent := SlotOf(slots, FREE), SlotOf(slots, ppid);
    HoldersUpdate(slots, free, slots[parent].(pid := pid), e);
    NoHolders(slots, e);
    if SlotHolds(slots, ppid, e) {
      HolderFound(slots, ppid, e);
    } else {
      assert !Holds(slots[parent], e);
    }
  }

  predicate ForkOk(l: Life, ppid: int, pid: int) {
    && ppid in l.tables && pid !in l.tables && pid >= 0
    && (Open(l.tables[ppid], ReadFd) || Open(l.tables[ppid], WriteFd) ==> HasFree(l.slots))
  }

  lemma ChildUnknown(l: Life, pid: int)
    requires Inv(l) && pid !in l.tables && pid >= 0
    ensures SlotOf(l.slots, pid) == |l.slots| && forall e :: !SlotHolds(l.slots, pid, e)
  {
  }

  /** After the fork every table, the child's included, agrees with the slots. */
  lemma ForkKeepsHolders(l: Life, ppid: int, pid: int, q: int, e: bool)
    requires Inv(l) && ForkOk(l, ppid, pid) && (q in l.tables || q == pid)
    requires Open(l.tables[ppid], ReadFd) || Open(l.tables[ppid], WriteFd)
    ensures SlotOf(l.slots, ppid) < |l.slots| == SlotOf(l.slots, pid) && ppid >= 0
    ensures Open(l.tables[if q == pid then ppid else q], EndFd(e)) <==> SlotHolds(ForkSlots(l.slots, ppid, pid).0, q, e)
  {
    var side := Open(l.tables[ppid], ReadFd);
    assert Open(l.tables[ppid], EndFd(side)) && SlotHolds(l.slots, ppid, side);
    HolderFound(l.slots, ppid, side);
    ChildUnknown(l, pid);
    ForkHolds(l.slots, ppid, pid, q, e);
    var o := if q == pid then ppid else q;
    assert Open(l.tables[o], EndFd(e)) <==> SlotHolds(l.slots, o, e);
  }

  lemma ForkFileOk(f: File, slots: seq<Slot>, ppid: int, pid: int, e: bool)
    requires SlotsOk(slots) && HasFree(slots) && SlotOf(slots, ppid) < |slots| == SlotOf(slots, pid) && ppid >= 0
    requires FileOk(f, slots, e)
    ensures FileOk(f.(refCount := f.refCount + Bit(SlotHolds(slots, ppid, e))), ForkSlots(slots, ppid, pid).0, e)
  {
    ForkCounts(slots, ppid, pid, e);
  }

  lemma ParentHolds(l: Life, ppid: int, pid: int)
    requires Inv(l) && ForkOk(l, ppid, pid)
    ensures SlotHolds(l.slots, ppid, true) <==> Open(l.tables[ppid], ReadFd)
    ensures SlotHolds(l.slots, ppid, false) <==> Open(l.tables[ppid], WriteFd)
    ensures Open(l.tables[ppid], ReadFd) || Open(l.tables[ppid], WriteFd) ==> SlotOf(l.slots, ppid) < |l.slots|
  {
    hide Open, SlotHolds, SlotOf, HasFree, SlotsOk;
    assert EndFd(true) == ReadFd && EndFd(false) == WriteFd;
    assert forall e :: Open(l.tables[ppid], EndFd(e)) <==> SlotHolds(l.slots, ppid, e);
    if Open(l.tables[ppid], ReadFd) || Open(l.tables[ppid], WriteFd) {
      ForkKeepsHolders(l, ppid, pid, ppid, true);
    }
  }

  /** What a fork leaves behind, in closed form. */
  lemma ForkIs(l: Life, ppid: int, pid: int)
    requires Inv(l) && ForkOk(l, ppid, pid)
    ensures var r, w := SlotHolds(l.slots, ppid, true), SlotHolds(l.slots, ppid, false);
            && (r <==> Open(l.tables[ppid], ReadFd)) && (w <==> Open(l.tables[ppid], WriteFd))
            && Fork(l, ppid, pid)
               == Life(if r || w then ForkSlots(l.slots, ppid, pid).0 else l.slots,
                       l.rd.(refCount := l.rd.refCount + Bit(r)), l.wr.(refCount := l.wr.refCount + Bit(w)),
                       l.tables[pid := l.tables[ppid]], l.freed)
  {
    var table := l.tables[ppid];
    assert TableOk(table);
    assert table[..|table|] == table;
    ParentHolds(l, ppid, pid);
    hide Inv, SlotHolds, Open, ForkSlots, SlotOf, HasFree, AtMostOnce;
    ForkEntriesIs(l.(tables := l.tables[pid := table]), ppid, pid, table, |table|);
  }

  lemma ForkAgreed(l: Life, ppid: int, pid: int)
    requires Inv(l) && ForkOk(l, ppid, pid)
    ensures var some := SlotHolds(l.slots, ppid, true) || SlotHolds(l.slots, ppid, false);
            Agreed(l.tables[pid := l.tables[ppid]], if some then ForkSlots(l.slots, ppid, pid).0 else l.slots)
  {
    assert EndFd(true) == ReadFd && EndFd(false) == WriteFd;
    assert forall e :: Open(l.tables[ppid], EndFd(e)) <==> SlotHolds(l.slots, ppid, e);
    var some := SlotHolds(l.slots, ppid, true) || SlotHolds(l.slots, ppid, false);
    ChildUnknown(l, pid);
    hide SlotsOk, ForkSlots, FileOk, NoneOpen, TableOk, SlotHolds, SlotOf, Open;
    var tables := l.tables[pid := l.tables[ppid]];
    forall q, e | q in tables
      ensures Open(tables[q], EndFd(e)) <==> SlotHolds(if some then ForkSlots(l.slots, ppid, pid).0 else l.slots, q, e)
    {
      if some {
        ForkKeepsHolders(l, ppid, pid, q, e);
      } else if q != pid {
        assert Open(l.tables[q], EndFd(e)) <==> SlotHolds(l.slots, q, e);
      }
    }
  }

  lemma ForkFilesOk(l: Life, ppid: int, pid: int)
    requires Inv(l) && ForkOk(l, ppid, pid)
    requires SlotHolds(l.slots, ppid, true) || SlotHolds(l.slots, ppid, false)
    ensures var slots := ForkSlots(l.slots, ppid, pid).0;
            && FileOk(l.rd.(refCount := l.rd.refCount + Bit(SlotHolds(l.slots, ppid, true))), slots, true)
            && FileOk(l.wr.(refCount := l.wr.refCount + Bit(SlotHolds(l.slots, ppid, false))), slots, false)
            && !NoneOpen(slots) && !NoneOpen(l.slots)
  {
    var e := SlotHolds(l.slots, ppid, true);
    assert EndFd(true) == ReadFd && EndFd(false) == WriteFd;
    assert Open(l.tables[ppid], EndFd(e));
    ForkKeepsHolders(l, ppid, pid, ppid, e);
    SomebodyHolds(l.slots, ppid, e);
    SomebodyHolds(ForkSlots(l.slots, ppid, pid).0, ppid, e);
    hide ForkSlots, NoneOpen, SlotHolds, SlotOf, FileOk, Open;
    ForkFileOk(l.rd, l.slots, ppid, pid, true);
    ForkFileOk(l.wr, l.slots, ppid, pid, false);
  }

  lemma ForkKeepsInv(l: Life, ppid: int, pid: int)
    requires Inv(l) && ForkOk(l, ppid, pid)
    ensures Inv(Fork(l, ppid, pid))
  {
    ForkIs(l, ppid, pid);
    ForkKeepsSlots(l.slots, ppid, pid);
    ForkedSlotsKnown(l, ppid, pid);
    ForkAgreed(l, ppid, pid);
    hide SlotsOk, Open, ForkSlots, FileOk, NoneOpen, Fork, TableOk, SlotHolds, SlotOf;
    if SlotHolds(l.slots, ppid, true) || SlotHolds(l.slots, ppid, false) {
      ForkFilesOk(l, ppid, pid);
    }
  }

  lemma SomebodyHolds(slots: seq<Slot>, pid: int, e: bool)
    requires SlotHolds(slots, pid, e)
    ensures !NoneOpen(slots)
  {
  }

  lemma ForkedSlotsKnown(l: Life, ppid: int, pid: int)
    requires forall k | 0 <= k < |l.slots| :: l.slots[k].pid != FREE ==> l.slots[k].pid in l.tables
    ensures var slots := ForkSlots(l.slots, ppid, pid).0;
            forall k | 0 <= k < |slots| :: slots[k].pid != FREE ==> slots[k].pid in l.tables || slots[k].pid == pid
  {
  }

  function PidSet(slots: seq<Slot>): set<int> {
    set k | 0 <= k < |slots| :: slots[k].pid
  }

  lemma {:induction false} DistinctPids(slots: seq<Slot>)
    requires forall i, j | 0 <= i < j < |slots| :: slots[i].pid != slots[j].pid
    ensures |PidSet(slots)| == |slots|
    decreases |slots|
  {
    if slots != [] {
      var front, top := slots[..|slots| - 1], slots[|slots| - 1];
      DistinctPids(front);
      assert PidSet(slots) == PidSet(front) + {top.pid};
      assert top.pid !in PidSet(front);
    }
  }

  lemma SubsetSize(a: set<int>, b: set<int>)
    requires a <= b
    ensures |a| <= |b|
  {
    assert b == a + (b - a);
  }

  /** With fewer processes than slots there is always a free slot: the used ones
      have distinct pids, and each belongs to a process. */
  lemma AlwaysFree(l: Life)
    requires Inv(l) && |l.tables| < |l.slots|
    ensures HasFree(l.slots)
  {
    if !HasFree(l.slots) {
      DistinctPids(l.slots);
      SubsetSize(PidSet(l.slots), l.tables.Keys);
    }
  }

  /** Without a free slot the loop of do_file_fork counts references but gives the child no slot. */
  lemma {:induction false} ForkEntriesNoSlot(l: Life, ppid: int, pid: int, table: seq<Fd>, n: nat)
    requires n <= |table| && !HasFree(l.slots) && SlotOf(l.slots, pid) == |l.slots|
    ensures ForkEntries(l, ppid, pid, table, n).slots == l.slots
    ensures ForkEntries(l, ppid, pid, table, n).tables == l.tables
  {
    hide SlotOf;
    if n > 0 {
      ForkEntriesNoSlot(l, ppid, pid, table, n - 1);
    }
  }

  /** A fork keeps descriptors, slots and counts in agreement exactly when a
      process slot is free or the parent holds no end: do_file_fork counts a
      reference even where do_pipe_fork fails. */
  lemma ForkKeepsInvExactly(l: Life, ppid: int, pid: int)
    requires Inv(l) && ppid in l.tables && pid !in l.tables && pid >= 0
    ensures Inv(Fork(l, ppid, pid)) <==>
              HasFree(l.slots) || (!Open(l.tables[ppid], ReadFd) && !Open(l.tables[ppid], WriteFd))
  {
    if ForkOk(l, ppid, pid) {
      ForkKeepsInv(l, ppid, pid);
    } else {
      var table := l.tables[ppid];
      ChildUnknown(l, pid);
      ForkEntriesNoSlot(l.(tables := l.tables[pid := table]), ppid, pid, table, |table|);
      var m := Fork(l, ppid, pid);
      var e := Open(table, ReadFd);
      assert m.tables[pid] == table && m.slots == l.slots;
      assert Open(m.tables[pid], EndFd(e)) && !SlotHolds(m.slots, pid, e);
    }
  }

  // ---------------------------------------------------------------- exiting

  lemma {:induction false} ExitEntriesKeepInv(l: Life, pid: int, n: nat)
    requires Inv(l) && pid in l.tables && n <= |l.tables[pid]|
    ensures Inv(ExitEntries(l, pid, n))
  {
    if n > 0 {
      ExitEntriesKeepInv(l, pid, n - 1);
      CloseFdKeepsInv(ExitEntries(l, pid, n - 1), pid, n - 1);
    }
  }

  lemma NothingHeldNoSlot(slots: seq<Slot>, pid: int)
    requires SlotsOk(slots) && pid != FREE && !SlotHolds(slots, pid, true) && !SlotHolds(slots, pid, false)
    ensures forall k | 0 <= k < |slots| :: slots[k].pid != pid
  {
    forall k | 0 <= k < |slots| && slots[k].pid == pid ensures Holds(slots[k], true) || Holds(slots[k], false) {
    }
  }

  lemma ExitKeepsInv(l: Life, pid: int)
    requires Inv(l) && pid in l.tables
    ensures Inv(Exit(l, pid))
  {
    ExitEntriesKeepInv(l, pid, |l.tables[pid]|);
    var m := ExitEntries(l, pid, |l.tables[pid]|);
    forall e ensures !SlotHolds(m.slots, pid, e) {
      assert !Open(m.tables[pid], EndFd(e));
    }
    NothingHeldNoSlot(m.slots, pid);
  }

  // ---------------------------------------------------------------- whole runs

  datatype Op = ForkOp(ppid: int, pid: int) | CloseOp(pid: int, fd: nat) | ExitOp(pid: int)

  /** At most `procs` processes: a fork needs a free context. */
  predicate OpOk(l: Life, op: Op, procs: nat) {
    match op
    case ForkOp(ppid, pid) => ppid in l.tables && pid !in l.tables && pid >= 0 && |l.tables| < procs
    case CloseOp(pid, fd) => pid in l.tables && fd < |l.tables[pid]|
    case ExitOp(pid) => pid in l.tables
  }

  function Next(l: Life, op: Op, procs: nat): Life
    requires OpOk(l, op, procs)
  {
    match op
    case ForkOp(ppid, pid) => Fork(l, ppid, pid)
    case CloseOp(pid, fd) => CloseFd(l, pid, fd)
    case ExitOp(pid) => Exit(l, pid)
  }

  /** What each call does to the processes' tables: the child's is its parent's, a closed
      entry is empty, and an exit leaves none.  With the invariant this settles slots,
      counts and pages too. */
  lemma NextTables(l: Life, op: Op, procs: nat)
    requires OpOk(l, op, procs)
    ensures Next(l, op, procs).tables ==
              match op
              case ForkOp(ppid, pid) => l.tables[pid := l.tables[ppid]]
              case CloseOp(pid, fd) => l.tables[pid := l.tables[pid][fd := Empty]]
              case ExitOp(pid) => l.tables - {pid}
  {
    hide CloseSlot, ForkSlots, SlotOf;
    match op
    case ForkOp(ppid, pid) =>
      var table := l.tables[ppid];
      ForkEntriesTables(l.(tables := l.tables[pid := table]), ppid, pid, table, |table|);
    case CloseOp(pid, fd) =>
    case ExitOp(pid) => ExitEntriesTables(l, pid, |l.tables[pid]|);
  }

  lemma {:induction false} ForkEntriesTables(l: Life, ppid: int, pid: int, table: seq<Fd>, n: nat)
    requires n <= |table|
    ensures ForkEntries(l, ppid, pid, table, n).tables == l.tables
  {
    hide ForkSlots;
    if n > 0 { ForkEntriesTables(l, ppid, pid, table, n - 1); }
  }

  lemma {:induction false} ExitEntriesTables(l: Life, pid: int, n: nat)
    requires pid in l.tables && n <= |l.tables[pid]|
    ensures ExitEntries(l, pid, n).tables - {pid} == l.tables - {pid}
  {
    hide CloseSlot;
    if n > 0 {
      ExitEntriesTables(l, pid, n - 1);
      var m := ExitEntries(l, pid, n - 1);
      assert CloseFd(m, pid, n - 1).tables == m.tables[pid := m.tables[pid][n - 1 := Empty]];
    }
  }

  /** The processes with a descriptor for the end. */
  ghost function Openers(tables: map<int, seq<Fd>>, readEnd: bool): set<int> {
    set pid | pid in tables && Open(tables[pid], EndFd(readEnd))
  }

  function HolderPids(slots: seq<Slot>, readEnd: bool): set<int> {
    if slots == [] then {}
    else
      var last := slots[|slots| - 1];
      HolderPids(slots[..|slots| - 1], readEnd) + if Holds(last, readEnd) then {last.pid} else {}
  }

  lemma {:induction false} HolderPidsAre(slots: seq<Slot>, readEnd: bool, pid: int)
    ensures pid in HolderPids(slots, readEnd) <==>
              exists k | 0 <= k < |slots| :: slots[k].pid == pid && Holds(slots[k], readEnd)
  {
    if slots != [] {
      var front := slots[..|slots| - 1];
      HolderPidsAre(front, readEnd, pid);
      assert forall k | 0 <= k < |front| :: front[k] == slots[k];
    }
  }

  lemma {:induction false} HoldersAreDistinct(slots: seq<Slot>, readEnd: bool)
    requires SlotsOk(slots)
    ensures |HolderPids(slots, readEnd)| == Holders(slots, readEnd)
  {
    if slots != [] {
      var front, last := slots[..|slots| - 1], slots[|slots| - 1];
      HoldersAreDistinct(front, readEnd);
      HolderPidsAre(front, readEnd, last.pid);
      if Holds(last, readEnd) {
        assert last.pid !in HolderPids(front, readEnd);
      }
    }
  }

  /** A file's reference count is the number of processes with a descriptor for it. */
  lemma CountsAreDescriptors(l: Life)
    requires Inv(l)
    ensures l.rd.refCount == |Openers(l.tables, true)| && l.wr.refCount == |Openers(l.tables, false)|
  {
    HoldersAreOpeners(l, true);
    HoldersAreOpeners(l, false);
    HoldersAreDistinct(l.slots, true);
    HoldersAreDistinct(l.slots, false);
  }

  lemma HoldersAreOpeners(l: Life, e: bool)
    requires Inv(l)
    ensures HolderPids(l.slots, e) == Openers(l.tables, e)
  {
    hide Open;
    forall pid ensures pid in HolderPids(l.slots, e) <==> pid in Openers(l.tables, e) {
      HolderPidsAre(l.slots, e, pid);
      if pid in HolderPids(l.slots, e) {
        assert SlotHolds(l.slots, pid, e) && pid in l.tables;
      }
      if pid in Openers(l.tables, e) {
        assert SlotHolds(l.slots, pid, e);
      }
    }
  }

  predicate RunOk(l: Life, ops: seq<Op>, procs: nat)
    decreases |ops|
  {
    ops == [] || (OpOk(l, ops[0], procs) && RunOk(Next(l, ops[0], procs), ops[1..], procs))
  }

  function Run(l: Life, ops: seq<Op>, procs: nat): Life
    requires RunOk(l, ops, procs)
    decreases |ops|
  {
    if ops == [] then l else Run(Next(l, ops[0], procs), ops[1..], procs)
  }

  /** No process has an end of the pipe open. */
  predicate Abandoned(l: Life) {
    forall pid | pid in l.tables :: !Open(l.tables[pid], ReadFd) && !Open(l.tables[pid], WriteFd)
  }

  lemma NextKeepsInv(l: Life, op: Op, procs: nat)
    requires Inv(l) && OpOk(l, op, procs) && procs <= |l.slots|
    ensures Inv(Next(l, op, procs))
  {
    match op
    case ForkOp(ppid, pid) =>
      AlwaysFree(l);
      ForkKeepsInv(l, ppid, pid);
    case CloseOp(pid, fd) => CloseFdKeepsInv(l, pid, fd);
    case ExitOp(pid) => ExitKeepsInv(l, pid);
  }

  /** The pages are given back exactly once, exactly when the last descriptor is
      gone, and then both file objects are gone too, each once. */
  lemma FreedExactlyWhenAbandoned(l: Life)
    requires Inv(l)
    ensures l.freed == (if Abandoned(l) then 1 else 0)
    ensures l.freed == 1 <==> l.rd.deleted == 1 && l.wr.deleted == 1
    ensures 0 <= l.rd.deleted <= 1 && 0 <= l.wr.deleted <= 1
  {
    NoneOpenIsNoRefs(l.slots);
    assert EndFd(true) == ReadFd && EndFd(false) == WriteFd;
    if Abandoned(l) {
      forall q | q in l.tables ensures forall k | 0 <= k < |l.slots| :: l.slots[k].pid != q {
        assert !Open(l.tables[q], EndFd(true)) && !Open(l.tables[q], EndFd(false));
        NothingHeldNoSlot(l.slots, q);
      }
    } else {
      var q :| q in l.tables && !(!Open(l.tables[q], ReadFd) && !Open(l.tables[q], WriteFd));
      var e := Open(l.tables[q], ReadFd);
      assert Open(l.tables[q], EndFd(e)) && SlotHolds(l.slots, q, e);
      HolderFound(l.slots, q, e);
      NoHolders(l.slots, e);
    }
  }

  /** A pipe just created by process `pid`, read end at fd `r`, write end at `w`. */
  function Create(slots: nat, pid: nat, table: seq<Fd>): Life
    requires slots > 0
  {
    Life(seq(slots, i => if i == 0 then Slot(pid, true, true) else NO_SLOT),
         File(1, 0), File(1, 0), map[pid := table], 0)
  }

  lemma {:induction false} OneHolder(slots: seq<Slot>, e: bool)
    requires slots != [] && Holds(slots[0], e) && forall i | 1 <= i < |slots| :: slots[i] == NO_SLOT
    ensures Holders(slots, e) == 1
  {
    if |slots| > 1 {
      OneHolder(slots[..|slots| - 1], e);
    } else {
      assert slots[..0] == [];
    }
  }

  lemma CreateInv(slots: nat, pid: nat, table: seq<Fd>)
    requires slots > 0 && TableOk(table) && Open(table, ReadFd) && Open(table, WriteFd)
    ensures Inv(Create(slots, pid, table))
  {
    var l := Create(slots, pid, table);
    OneHolder(l.slots, true);
    OneHolder(l.slots, false);
    NoneOpenIsNoRefs(l.slots);
    forall e ensures SlotHolds(l.slots, pid, e) && Open(table, EndFd(e)) {
      assert l.slots[0].pid == pid && Holds(l.slots[0], e);
    }
  }

  /** Over every run of forks, closes and exits from creation on, descriptors,
      slots and counts agree and memory is given back exactly once, at the last
      close.  The kernel has 7 contexts and 16 slots. */
  lemma {:induction false} LifetimeExact(l: Life, ops: seq<Op>, procs: nat)
    requires Inv(l) && RunOk(l, ops, procs) && procs <= |l.slots|
    ensures Inv(Run(l, ops, procs))
    ensures Run(l, ops, procs).freed == (if Abandoned(Run(l, ops, procs)) then 1 else 0)
    ensures l.freed == 1 ==> Run(l, ops, procs).freed == 1
    decreases |ops|
  {
    FreedExactlyWhenAbandoned(l);
    if ops != [] {
      NextKeepsInv(l, ops[0], procs);
      FreedExactlyWhenAbandoned(Next(l, ops[0], procs));
      NextKeeps(l, ops[0], procs);
      LifetimeExact(Next(l, ops[0], procs), ops[1..], procs);
    }
  }

  lemma CloseKeeps(l: Life, pid: int, fd: nat)
    requires pid in l.tables && fd < |l.tables[pid]|
    ensures CloseFd(l, pid, fd).freed >= l.freed && |CloseFd(l, pid, fd).slots| == |l.slots|
  {
    hide SlotOf, NoneOpen;
  }

  lemma {:induction false} ExitKeeps(l: Life, pid: int, n: nat)
    requires pid in l.tables && n <= |l.tables[pid]|
    ensures ExitEntries(l, pid, n).freed >= l.freed && |ExitEntries(l, pid, n).slots| == |l.slots|
  {
    hide CloseFd;
    if n > 0 {
      ExitKeeps(l, pid, n - 1);
      CloseKeeps(ExitEntries(l, pid, n - 1), pid, n - 1);
    }
  }

  lemma {:induction false} ForkKeeps(l: Life, ppid: int, pid: int, table: seq<Fd>, n: nat)
    requires n <= |table|
    ensures ForkEntries(l, ppid, pid, table, n).freed == l.freed
    ensures |ForkEntries(l, ppid, pid, table, n).slots| == |l.slots|
  {
    hide SlotOf;
    if n > 0 {
      ForkKeeps(l, ppid, pid, table, n - 1);
    }
  }

  /** Freed pages stay freed, and the slots stay as many. */
  lemma NextKeeps(l: Life, op: Op, procs: nat)
    requires OpOk(l, op, procs)
    ensures Next(l, op, procs).freed >= l.freed && |Next(l, op, procs).slots| == |l.slots|
  {
    hide CloseFd, ForkEntries, ExitEntries;
    match op
    case ForkOp(ppid, pid) =>
      ForkKeeps(l.(tables := l.tables[pid := l.tables[ppid]]), ppid, pid, l.tables[ppid], |l.tables[ppid]|);
    case CloseOp(pid, fd) => CloseKeeps(l, pid, fd);
    case ExitOp(pid) => ExitKeeps(l, pid, |l.tables[pid]|);
  }
}
