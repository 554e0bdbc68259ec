/** Threads of one process and their private areas, as values: what clone,
    private mmap and unmap, a page fault, a context switch and an exit do. */
module ThreadSpec {
  import opened PageEntry
  import opened PageTable
  import opened PageWalk

  const MAX_THREADS: nat := 4
  const MAX_PRIVATE_AREAS: nat := 4

  const TP_SIBLINGS_RDONLY: bv32 := 0x20
  const TP_SIBLINGS_RDWR: bv32 := 0x40
  const PF_ERROR_WR: bv32 := 0x2
  const PF_PROTECTED_WRITE: bv32 := 0x7   // a write from user mode to a present page

  /** A private area; `live` stands for a non-null owner. */
  datatype Area = Area(live: bool, start: nat, length: nat, flags: bv32)

  datatype Thread = Thread(pid: int, used: bool, areas: seq<Area>)

  type Threads = seq<Thread>

  predicate RdWr(flags: bv32) { flags & TP_SIBLINGS_RDWR != 0 }

  predicate RdOnly(flags: bv32) { flags & TP_SIBLINGS_RDONLY != 0 }

  predicate Contains(area: Area, addr: nat) {
    area.live && area.start <= addr < area.start + area.length
  }

  predicate InArea(ts: Threads, i: nat, j: nat, addr: nat) {
    i < |ts| && ts[i].used && j < |ts[i].areas| && Contains(ts[i].areas[j], addr)
  }

  /** The rule of a private area: the process and the owner read and write, a
      sibling what the flags grant it. */
  function Rule(proc: int, running: int, owner: int, flags: bv32): Access {
    if running == proc || running == owner || RdWr(flags) then ReadWrite
    else if RdOnly(flags) then ReadOnly
    else NoAccess
  }

  // ---------------------------------------------------------------- threads

  /** find_thread_from_pid from slot `i` on: the first slot with that pid, used or not. */
  function FindFrom(ts: Threads, pid: int, i: nat): (r: nat)
    requires i <= |ts|
    ensures i <= r <= |ts| && (r < |ts| ==> ts[r].pid == pid) && (forall k | i <= k < r :: ts[k].pid != pid)
    decreases |ts| - i
  {
    if i == |ts| || ts[i].pid == pid then i else FindFrom(ts, pid, i + 1)
  }

  /** do_clone's search: the lowest unused slot. */
  function UnusedFrom(ts: Threads, i: nat): (r: nat)
    requires i <= |ts|
    ensures i <= r <= |ts| && (r < |ts| ==> !ts[r].used) && (forall k | i <= k < r :: ts[k].used)
    decreases |ts| - i
  {
    if i == |ts| || !ts[i].used then i else UnusedFrom(ts, i + 1)
  }

  /** find_unused_map: the first area without owner. */
  function FreeAreaFrom(areas: seq<Area>, j: nat): (r: nat)
    requires j <= |areas|
    ensures j <= r <= |areas| && (r < |areas| ==> !areas[r].live) && (forall k | j <= k < r :: areas[k].live)
    decreases |areas| - j
  {
    if j == |areas| || !areas[j].live then j else FreeAreaFrom(areas, j + 1)
  }

  predicate MatchesMap(area: Area, addr: nat, length: nat) {
    area.live && area.start == addr && (length == 0 || area.length == length)
  }

  /** find_thmap: the first owned area recorded under that address (and length, unless 0). */
  function FindMapFrom(areas: seq<Area>, addr: nat, length: nat, j: nat): (r: nat)
    requires j <= |areas|
    ensures j <= r <= |areas| && (r < |areas| ==> MatchesMap(areas[r], addr, length))
    ensures forall k | j <= k < r :: !MatchesMap(areas[k], addr, length)
    decreases |areas| - j
  {
    if j == |areas| || MatchesMap(areas[j], addr, length) then j else FindMapFrom(areas, addr, length, j + 1)
  }

  /** find_thread_from_address: the first used thread with a matching area. */
  function FindOwnerFrom(ts: Threads, addr: nat, length: nat, i: nat): (r: nat)
    requires i <= |ts|
    ensures i <= r <= |ts| && (r < |ts| ==> ts[r].used && FindMapFrom(ts[r].areas, addr, length, 0) < |ts[r].areas|)
    decreases |ts| - i
  {
    if i == |ts| || (ts[i].used && FindMapFrom(ts[i].areas, addr, length, 0) < |ts[i].areas|) then i
    else FindOwnerFrom(ts, addr, length, i + 1)
  }

  /** do_clone: the lowest unused slot takes the new pid; -1 when there is none. */
  function Clone(ts: Threads, pid: int): (Threads, int) {
    var i := UnusedFrom(ts, 0);
    if i == |ts| then (ts, -1) else (ts[i := ts[i].(used := true, pid := pid)], pid)
  }

  function Drop(area: Area): Area { area.(live := false) }

  function DropAll(areas: seq<Area>): (r: seq<Area>)
    ensures |r| == |areas| && forall j | 0 <= j < |r| :: r[j] == Drop(areas[j])
  {
    seq(|areas|, j requires 0 <= j < |areas| => Drop(areas[j]))
  }

  /** handle_thread_exit: the areas are unmapped and the slot is given up. */
  function Exit(ts: Threads, pid: int): Threads {
    var i := FindFrom(ts, pid, 0);
    if i == |ts| then ts else ts[i := ts[i].(used := false, areas := DropAll(ts[i].areas))]
  }

  /** handle_thread_private_mmap by the running context. */
  function Mmap(ts: Threads, proc: int, running: int, addr: nat, length: nat, flags: bv32): (Threads, int) {
    var i := FindFrom(ts, running, 0);
    if running == proc || i == |ts| then (ts, -1)
    else
      var j := FreeAreaFrom(ts[i].areas, 0);
      if j == |ts[i].areas| then (ts, -1)
      else (ts[i := ts[i].(areas := ts[i].areas[j := Area(true, addr, length, flags)])], 0)
  }

  datatype UnmapResult = NotPrivate | Segfault | Dropped(thread: nat, area: nat)

  /** handle_thread_private_unmmap: which area it gives up. */
  function UnmapTarget(ts: Threads, proc: int, running: int, addr: nat, length: nat): (r: UnmapResult)
    ensures r.Dropped? ==> r.thread < |ts| && r.area < |ts[r.thread].areas|
  {
    var i := if running == proc then FindOwnerFrom(ts, addr, length, 0) else FindFrom(ts, running, 0);
    if i == |ts| then if running == proc then NotPrivate else Segfault
    else
      var j := FindMapFrom(ts[i].areas, addr, length, 0);
      if j == |ts[i].areas| then Segfault else Dropped(i, j)
  }

  function Unmap(ts: Threads, proc: int, running: int, addr: nat, length: nat): Threads {
    match UnmapTarget(ts, proc, running, addr, length)
    case Dropped(i, j) => ts[i := ts[i].(areas := ts[i].areas[j := Drop(ts[i].areas[j])])]
    case _ => ts
  }

  // ---------------------------------------------------------------- the page fault

  /** The first area of a thread that holds the address. */
  function HitFrom(areas: seq<Area>, addr: nat, j: nat): (r: nat)
    requires j <= |areas|
    ensures j <= r <= |areas| && (r < |areas| ==> Contains(areas[r], addr))
    ensures (forall k | j <= k < r :: !Contains(areas[k], addr))
    decreases |areas| - j
  {
    if j == |areas| || Contains(areas[j], addr) then j else HitFrom(areas, addr, j + 1)
  }

  datatype Hit = Miss | Hit(thread: nat, area: nat)

  /** The fault handler's search over the first `n` threads: only the loop over a
      thread's areas is left early, so the last thread that holds the address counts. */
  function LastHit(ts: Threads, addr: nat, n: nat): (h: Hit)
    requires n <= |ts|
    ensures h.Hit? ==> h.thread < n && InArea(ts, h.thread, h.area, addr)
    ensures h.Miss? ==> forall i, j {:trigger InArea(ts, i, j, addr)} | 0 <= i < n && 0 <= j :: !InArea(ts, i, j, addr)
  {
    if n == 0 then Miss
    else
      var t := ts[n - 1];
      if t.used && HitFrom(t.areas, addr, 0) < |t.areas| then Hit(n - 1, HitFrom(t.areas, addr, 0))
      else LastHit(ts, addr, n - 1)
  }

  /** C's truth values. */
  function Truth(b: bool): bv32 { if b then 1 else 0 }

  /** How handle_thread_private_fault decides: refuse, or map the page, with or
      without the write right.  The mask of the last test is `0x2 == 0`, as the
      code's precedence reads it. */
  datatype Verdict = Refuse | Grant(remove: bool)

  function Judge(ts: Threads, proc: int, running: int, addr: nat, error: bv32): Verdict {
    if error == PF_PROTECTED_WRITE then Refuse
    else match LastHit(ts, addr, |ts|)
      case Miss => Refuse
      case Hit(i, j) =>
        if running == proc || running == ts[i].pid || RdWr(ts[i].areas[j].flags) then Grant(false)
        else if RdOnly(ts[i].areas[j].flags) && error & Truth(PF_ERROR_WR == 0) != 0 then Grant(true)
        else Refuse
  }

  function Fault(m: Memory, root: Frame, ts: Threads, proc: int, running: int, addr: nat, error: bv32,
                 pool: seq<Frame>): (Memory, int)
    requires 4 <= |pool|
  {
    match Judge(ts, proc, running, addr, error)
    case Refuse => (m, -1)
    case Grant(remove) => (PtWalk(m, root, addr, remove, false, false, pool), 1)
  }

  // ---------------------------------------------------------------- the context switch

  /** The pass over the pages of one area, from page `k` on. */
  function SwitchPages(m: Memory, root: Frame, area: Area, remove: bool, compOff: bool, k: nat): Memory
    requires k <= area.length / PAGE_SIZE
    decreases area.length / PAGE_SIZE - k
  {
    if k == area.length / PAGE_SIZE then m
    else SwitchPages(PtWalk(m, root, area.start + k * PAGE_SIZE, remove, true, compOff, []),
                     root, area, remove, compOff, k + 1)
  }

  /** The flags pt_walk gets for an area of `owner` when `next` is to run. */
  function SwitchMode(proc: int, next: int, owner: int, flags: bv32): (bool, bool) {
    if next == proc || owner == next || RdWr(flags) then (false, false)
    else if RdOnly(flags) then (true, false)
    else (false, true)
  }

  function SwitchAreas(m: Memory, root: Frame, t: Thread, proc: int, next: int, j: nat): Memory
    requires j <= |t.areas|
    decreases |t.areas| - j
  {
    if j == |t.areas| then m
    else if !t.areas[j].live then SwitchAreas(m, root, t, proc, next, j + 1)
    else
      var (remove, compOff) := SwitchMode(proc, next, t.pid, t.areas[j].flags);
      SwitchAreas(SwitchPages(m, root, t.areas[j], remove, compOff, 0), root, t, proc, next, j + 1)
  }

  /** handle_private_ctxswitch from thread `i` on. */
  function SwitchThreads(m: Memory, root: Frame, ts: Threads, proc: int, next: int, i: nat): Memory
    requires i <= |ts|
    decreases |ts| - i
  {
    if i == |ts| then m
    else
      var m' := if ts[i].used then SwitchAreas(m, root, ts[i], proc, next, 0) else m;
      SwitchThreads(m', root, ts, proc, next, i + 1)
  }
}
