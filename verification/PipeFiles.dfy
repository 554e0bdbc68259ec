/** The file layer around a pipe as the kernel runs it: file objects updated in
    place and loops over a process's table of open files, proved to be the
    operations of PipeLifetime. */
module PipeFiles {
  import opened IpcBase
  import opened PipeSpec
  import opened PipeLifetime
  import Pipe

  /** The counted part of a file object. */
  class FileObject {
    var refCount: int
    ghost var deleted: int      // how often delete_file was called on it

    /** alloc_file */
    constructor ()
      ensures refCount == 1 && deleted == 0
    {
      refCount, deleted := 1, 0;
    }

    ghost function View(): File
      reads this
    {
      File(refCount, deleted)
    }

    /** file_close */
    method Close()
      modifies this
      ensures View() == Release(old(View()))
    {
      refCount := refCount - 1;
      if refCount == 0 {
        deleted := deleted + 1;
      }
    }
  }

  class Files {
    const pipe: Pipe.PipeInfo
    const rd: FileObject
    const wr: FileObject
    var tables: map<int, seq<Fd>>
    ghost var freed: int        // how often free_pipe was called

    constructor (pipe: Pipe.PipeInfo, pid: nat, table: seq<Fd>)
      ensures this.pipe == pipe && fresh(rd) && fresh(wr) && rd != wr
      ensures View() == Life(pipe.slots[..], File(1, 0), File(1, 0), map[pid := table], 0)
    {
      this.pipe := pipe;
      rd := new FileObject();
      wr := new FileObject();
      tables, freed := map[pid := table], 0;
    }

    ghost function View(): Life
      reads this, pipe.slots, rd, wr
    {
      Life(pipe.slots[..], rd.View(), wr.View(), tables, freed)
    }

    /** pipe_close, called on the read or the write file by process `pid`. */
    method PipeClose(pid: nat, readEnd: bool) returns (r: int)
      requires rd != wr && SlotsOk(pipe.slots[..])
      modifies pipe.slots, rd, wr, `freed
      ensures (View(), r) == PipeLifetime.PipeClose(old(View()), pid, readEnd)
      ensures SlotsOk(pipe.slots[..])
    {
      CloseKeepsSlots(pipe.slots[..], pid, readEnd);
      hide CloseSlot, SlotsOk;
      var f := if readEnd then rd else wr;
      if f.refCount == 0 {
        return -EOTHERS;
      }
      CloseFails(pipe.slots[..], pid, readEnd);
      var code, free := pipe.Close(pid, readEnd);
      if code != 0 {
        return -EOTHERS;
      }
      if free {
        freed := freed + 1;
      }
      f.Close();
      return 0;
    }

    /** do_close */
    method DoClose(pid: nat, fd: nat)
      requires rd != wr && SlotsOk(pipe.slots[..]) && pid in tables && fd < |tables[pid]|
      modifies pipe.slots, rd, wr, this
      ensures View() == CloseFd(old(View()), pid, fd) && SlotsOk(pipe.slots[..])
    {
      hide SlotsOk, PipeLifetime.PipeClose;
      var entry := tables[pid][fd];
      tables := tables[pid := tables[pid][fd := Empty]];
      if entry == ReadFd || entry == WriteFd {
        var code := PipeClose(pid, entry == ReadFd);
      }
    }

    /** One entry of the child's table in do_file_fork. */
    method ForkOne(ppid: nat, pid: nat, entry: Fd)
      requires rd != wr && SlotsOk(pipe.slots[..])
      modifies pipe.slots, rd, wr
      ensures View() == ForkEntry(old(View()), ppid, pid, entry) && SlotsOk(pipe.slots[..])
    {
      hide SlotsOk, ForkSlots;
      if entry == ReadFd {
        rd.refCount := rd.refCount + 1;
        var code := pipe.Fork(ppid, pid);
      } else if entry == WriteFd {
        wr.refCount := wr.refCount + 1;
        var code := pipe.Fork(ppid, pid);
      }
    }

    /** do_file_fork for child `pid`, whose table is a copy of its parent's. */
    method DoFileFork(ppid: nat, pid: nat)
      requires rd != wr && ppid in tables && SlotsOk(pipe.slots[..])
      modifies pipe.slots, rd, wr, this
      ensures View() == Fork(old(View()), ppid, pid) && SlotsOk(pipe.slots[..])
    {
      tables := tables[pid := tables[ppid]];
      var table := tables[ppid];
      ghost var start := View();
      hide ForkEntry, SlotsOk;
      var fd := 0;
      while fd < |table|
        invariant 0 <= fd <= |table| && SlotsOk(pipe.slots[..])
        invariant View() == ForkEntries(start, ppid, pid, table, fd)
      {
        ForkOne(ppid, pid, table[fd]);
        fd := fd + 1;
      }
    }

    /** do_file_exit, after which the process is gone. */
    method DoFileExit(pid: nat)
      requires rd != wr && SlotsOk(pipe.slots[..]) && pid in tables
      modifies pipe.slots, rd, wr, this
      ensures View() == Exit(old(View()), pid) && SlotsOk(pipe.slots[..])
    {
      ghost var start := View();
      var n := |tables[pid]|;
      hide SlotsOk, CloseFd;
      var fd := 0;
      while fd < n
        invariant 0 <= fd <= n && SlotsOk(pipe.slots[..])
        invariant View() == ExitEntries(start, pid, fd)
      {
        DoClose(pid, fd);
        fd := fd + 1;
      }
      tables := tables - {pid};
    }
  }

  /** A close that fails changes no slot. */
  lemma CloseFails(slots: seq<Slot>, pid: int, readEnd: bool)
    ensures CloseSlot(slots, pid, readEnd).1 != 0 ==> CloseSlot(slots, pid, readEnd).0 == slots
  {
  }
}
