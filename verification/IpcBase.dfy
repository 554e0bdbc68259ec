/** What pipes and persistent pipes share: bytes, error codes, read results, and
    the search for a process's slot. */
module IpcBase {
  const EINVAL: int := 1
  const EACCES: int := 4
  const EOTHERS: int := 7

  /** The pid of a process slot nobody uses. */
  const FREE: int := -1

  newtype byte = x: int | 0 <= x < 256

  /** The bytes a read delivers, or an error code. */
  datatype ReadResult = ReadError(code: int) | Bytes(bytes: seq<byte>)

  function Min(a: int, b: int): int {
    if a < b then a else b
  }

  /** The first place of `pid` among the slots' pids, or their number. */
  function FirstOf(pids: seq<int>, pid: int): (k: nat)
    ensures k <= |pids| && (k < |pids| ==> pids[k] == pid)
    ensures forall i | 0 <= i < k :: pids[i] != pid
  {
    if pids == [] || pids[0] == pid then 0 else 1 + FirstOf(pids[1..], pid)
  }
}
