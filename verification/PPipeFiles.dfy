/** The file layer around a persistent pipe as the kernel runs it, proved to be the
    operations of PPipeLifetime. */
module PPipeFiles {
  import opened IpcBase
  import PipeFiles
  import opened PPipeLifetime
  import PL = PipeLifetime
  import PPS = PPipeSpec
  import P = PPipe

  class Files {
    const pipe: P.PPipe
    const rd: PipeFiles.FileObject
    const wr: PipeFiles.FileObject
    var tables: map<int, seq<PL.Fd>>
    ghost var freed: int        // how often free_ppipe was called

    constructor (pipe: P.PPipe, pid: nat, table: seq<PL.Fd>)
      ensures this.pipe == pipe && fresh(rd) && fresh(wr) && rd != wr
      ensures View() == Life(pipe.View(), PL.File(1, 0), PL.File(1, 0), map[pid := table], 0)
    {
      this.pipe := pipe;
      rd := new PipeFiles.FileObject();
      wr := new PipeFiles.FileObject();
      tables, freed := map[pid := table], 0;
    }

    ghost function View(): Life
      reads this, pipe, pipe.procs, rd, wr
    {
      Life(pipe.View(), rd.View(), wr.View(), tables, freed)
    }

    ghost predicate Valid()
      reads pipe, pipe.buff, pipe.procs
    {
      rd != wr && pipe.Valid()
    }

    /** ppipe_close, called on the read or the write file by process `pid`. */
    method PPipeClose(pid: nat, readEnd: bool) returns (r: int)
      requires Valid()
      modifies pipe.procs, rd, wr, `freed
      ensures Valid() && (View(), r) == PPipeLifetime.PPipeClose(old(View()), pid, readEnd)
    {
      hide PPS.Close, P.PPipe.Valid;
      var f := if readEnd then rd else wr;
      if f.refCount == 0 {
        return -EOTHERS;
      }
      FailedCloseKeeps(pipe.View(), pid, readEnd);
      var code, free := pipe.Close(pid, readEnd);
      if code != 0 {
        return -EOTHERS;
      }
      if free {
        freed := freed + 1;
      }
      f.Close();
      return 0;
    }

    /** do_close */
    method DoClose(pid: nat, fd: nat)
      requires Valid() && pid in tables && fd < |tables[pid]|
      modifies pipe.procs, rd, wr, this
      ensures Valid() && View() == CloseFd(old(View()), pid, fd)
    {
      hide P.PPipe.Valid, PPipeLifetime.PPipeClose;
      var entry := tables[pid][fd];
      tables := tables[pid := tables[pid][fd := PL.Empty]];
      if entry == PL.ReadFd || entry == PL.WriteFd {
        var code := PPipeClose(pid, entry == PL.ReadFd);
      }
    }

    /** One entry of the child's table in do_file_fork. */
    method ForkOne(ppid: nat, pid: nat, entry: PL.Fd)
      requires Valid()
      modifies pipe.procs, rd, wr
      ensures Valid() && View() == ForkEntry(old(View()), ppid, pid, entry)
    {
      hide P.PPipe.Valid, PPS.Fork;
      if entry == PL.ReadFd {
        rd.refCount := rd.refCount + 1;
        var code := pipe.Fork(ppid, pid);
      } else if entry == PL.WriteFd {
        wr.refCount := wr.refCount + 1;
        var code := pipe.Fork(ppid, pid);
      }
    }

    /** do_file_fork for child `pid`, whose table is a copy of its parent's. */
    method DoFileFork(ppid: nat, pid: nat)
      requires Valid() && ppid in tables
      modifies pipe.procs, rd, wr, this
      ensures Valid() && View() == Fork(old(View()), ppid, pid)
    {
      tables := tables[pid := tables[ppid]];
      var table := tables[ppid];
      ghost var start := View();
      hide P.PPipe.Valid, ForkEntry;
      var fd := 0;
      while fd < |table|
        invariant 0 <= fd <= |table| && Valid()
        invariant View() == ForkEntries(start, ppid, pid, table, fd)
      {
        ForkOne(ppid, pid, table[fd]);
        fd := fd + 1;
      }
    }

    /** do_file_exit, after which the process is gone. */
    method DoFileExit(pid: nat)
      requires Valid() && pid in tables
      modifies pipe.procs, rd, wr, this
      ensures Valid() && View() == Exit(old(View()), pid)
    {
      ghost var start := View();
      var n := |tables[pid]|;
      hide P.PPipe.Valid, CloseFd;
      var fd := 0;
      while fd < n
        invariant 0 <= fd <= n && Valid()
        invariant View() == ExitEntries(start, pid, fd)
      {
        DoClose(pid, fd);
        fd := fd + 1;
      }
      tables := tables - {pid};
    }
  }

  /** A close that fails changes nothing. */
  lemma FailedCloseKeeps(s: PPS.Stream, pid: int, readEnd: bool)
    ensures PPS.Close(s, pid, readEnd).1 != 0 ==> PPS.Close(s, pid, readEnd).0 == s
  {
  }
}
