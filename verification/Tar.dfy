/** The archiver's loops: create, extract all, extract one, list. */
module Tar {
  import opened IpcBase
  import opened TarSpec

  /** Counting the digits of a number. */
  method CountDigits(n: nat) returns (length: nat)
    ensures length == |Decimal(n)|
  {
    length := 0;
    var temp := n;
    while temp != 0
      invariant if n == 0 then temp == length == 0
                else length + (if temp == 0 then 0 else |Decimal(temp)|) == |Decimal(n)|
    {
      length := length + 1;
      temp := temp / 10;
    }
    if n == 0 { length := 1; }
  }

  /** snprintf into a buffer of as many digits as were counted: none is cut off. */
  method Print(n: nat) returns (s: Text)
    ensures s == Decimal(n)
  {
    var length := CountDigits(n);
    s := Decimal(n)[..Min(length, |Decimal(n)|)];
  }

  /** write: the bytes go where the file position stands. */
  method Write(prior: Text, ghost written: Text, disk: Text, pos: nat, data: Text) returns (disk': Text, pos': nat)
    requires disk == Overwrite(prior, written) && pos == |written|
    ensures disk' == Overwrite(prior, written + data) && pos' == |written + data|
  {
    WritesAppend(prior, written, data);
    disk', pos' := WriteAt(disk, pos, data), pos + |data|;
  }

  /** The loop that copies a file's contents into the archive, chunk by chunk. */
  method CopyIn(prior: Text, ghost written: Text, disk: Text, pos: nat, data: Text) returns (disk': Text, pos': nat)
    requires disk == Overwrite(prior, written) && pos == |written|
    ensures disk' == Overwrite(prior, written + data) && pos' == |written + data|
  {
    hide Overwrite;
    disk', pos' := disk, pos;
    var at := 0;
    assert written + data[..0] == written;
    while at < |data|
      invariant at <= |data|
      invariant disk' == Overwrite(prior, written + data[..at]) && pos' == |written + data[..at]|
    {
      var bytesRead := Min(CHUNK, |data| - at);
      disk', pos' := Write(prior, written + data[..at], disk', pos', data[at..at + bytesRead]);
      ChunkAdded(written, data, at, at + bytesRead);
      at := at + bytesRead;
    }
    assert data[..at] == data;
  }

  lemma ChunkAdded(written: Text, data: Text, at: nat, to: nat)
    requires at <= to <= |data|
    ensures written + data[..at] + data[at..to] == written + data[..to]
  {
    assert data[..at] + data[at..to] == data[..to];
  }

  /** The create loop, over the files of a directory in the order they are listed,
      into a file that held `prior`. */
  method Create(prior: Text, files: seq<File>) returns (disk: Text)
    ensures disk == Overwrite(prior, Archive(files))
  {
    hide Overwrite, Entry;
    ghost var a: Text := [];
    var pos := 0;
    disk := prior;
    assert Overwrite(prior, []) == prior by { NothingWritten(prior); }
    var i := 0;
    while i < |files|
      invariant i <= |files| && a == Archive(files[..i])
      invariant disk == Overwrite(prior, a) && pos == |a|
    {
      var f := files[i];
      var fsz := Print(|f.data|);
      disk, pos := Write(prior, a, disk, pos, f.name + [NL] + fsz);
      a := a + (f.name + [NL] + fsz);
      disk, pos := Write(prior, a, disk, pos, [NL]);
      a := a + [NL];
      disk, pos := CopyIn(prior, a, disk, pos, f.data);
      a := a + f.data;
      EntryPieces(Archive(files[..i]), f);
      assert files[..i + 1][..i] == files[..i];
      i := i + 1;
    }
    assert files[..i] == files;
  }

  lemma NothingWritten(prior: Text)
    ensures Overwrite(prior, []) == prior
  {
    assert prior[0..] == prior;
  }

  lemma EntryPieces(before: Text, f: File)
    ensures before + (f.name + [NL] + Decimal(|f.data|)) + [NL] + f.data == before + Entry(f)
  {
    hide Decimal;
  }

  // ---------------------------------------------------------------- reading

  lemma StringSnoc(s: Text, b: byte)
    ensures AsString(s + [b]) == if b == 0 then AsString(s) else AsString(s) + [b]
  {
    assert (s + [b])[..|s|] == s;
  }

  /** The loop that collects a name byte by byte. */
  method ReadName(a: Text, pos: nat) returns (name: Text, next: nat)
    requires pos <= |a| && LineEnd(a, pos) < |a|
    ensures next == LineEnd(a, pos) + 1 && name == AsString(a[pos..LineEnd(a, pos)])
  {
    hide AsString, LineEnd;
    ghost var e := LineEnd(a, pos);
    name, next := [], pos;
    assert a[pos..pos] == [];
    assert AsString([]) == [] by { EmptyString(); }
    while true
      invariant pos <= next <= e && name == AsString(a[pos..next])
      decreases |a| - next
    {
      var buff := a[next];
      if buff != NL {
        StringSnoc(a[pos..next], buff);
        assert a[pos..next] + [buff] == a[pos..next + 1];
        next := next + 1;
        if buff != 0 { name := name + [buff]; }
      } else {
        next := next + 1;
        break;
      }
    }
  }

  lemma EmptyString()
    ensures AsString([]) == []
  {
  }

  lemma ValueSnoc(s: Text, d: byte)
    requires AllDigits(s) && ZERO <= d < ZERO + 10
    ensures AllDigits(s + [d]) && Value(s + [d]) == Value(s) * 10 + (d - ZERO) as nat
  {
    assert (s + [d])[..|s|] == s;
  }

  /** The loop that reads a size digit by digit; the listing also keeps the digits.
      At the end of the archive a read leaves the newline of the name in the buffer. */
  method ReadSize(a: Text, pos: nat) returns (digits: Text, sz: nat, next: nat)
    requires pos <= |a| && (pos < |a| ==> LineEnd(a, pos) < |a| && AllDigits(a[pos..LineEnd(a, pos)]))
    ensures pos == |a| ==> digits == [] && sz == 0 && next == |a|
    ensures pos < |a| ==> next == LineEnd(a, pos) + 1 && digits == a[pos..LineEnd(a, pos)] && sz == Value(digits)
  {
    hide LineEnd, Value, AllDigits;
    ghost var e := LineEnd(a, pos);
    ghost var line := a[pos..e];
    digits, sz, next := [], 0, pos;
    NoDigits();
    var buff := NL;
    while true
      invariant pos <= next <= e && digits == line[..next - pos] && AllDigits(digits) && sz == Value(digits)
      invariant pos == |a| ==> buff == NL
      decreases |a| - next
    {
      if next < |a| {
        buff := a[next];
      }
      if buff != NL {
        assert line[next - pos] == buff;
        DigitAt(line, next - pos);
        ValueSnoc(digits, buff);
        sz := sz * 10 + (buff - ZERO) as nat;
        digits := digits + [buff];
        next := next + 1;
      } else {
        assert next == e;
        if next < |a| { next := next + 1; }
        break;
      }
    }
  }

  lemma NoDigits()
    ensures AllDigits([]) && Value([]) == 0
  {
  }

  lemma DigitAt(s: Text, k: nat)
    requires AllDigits(s) && k < |s|
    ensures ZERO <= s[k] < ZERO + 10
  {
  }

  /** The chunked copy of `size` bytes, or of those that are there. */
  method CopyOut(a: Text, pos: nat, size: nat) returns (out: Text, next: nat)
    requires pos <= |a|
    ensures next == Upto(a, pos + size) && out == a[pos..next]
  {
    out, next := [], pos;
    var sz := size;
    var toRead := Min(CHUNK, sz);
    while toRead != 0
      invariant 0 <= sz <= size && pos <= next <= |a| && out == a[pos..next]
      invariant next == Upto(a, pos + size - sz)
      invariant toRead == Min(CHUNK, sz)
      decreases sz
    {
      var r := Min(toRead, |a| - next);
      out := out + a[next..next + r];
      next := next + r;
      sz := sz - toRead;
      toRead := Min(CHUNK, sz);
    }
  }

  /** One turn of the reading loops up to the contents. */
  method ReadHeader(a: Text, pos: nat) returns (name: Text, digits: Text, sz: nat, start: nat)
    requires pos <= |a| && ParseEntry(a, pos).Some?
    ensures var item := ParseEntry(a, pos).value;
            name == item.file.name && digits == item.size && start == item.start && start + sz == item.next
  {
    hide AsString, Value, LineEnd;
    var next;
    name, next := ReadName(a, pos);
    digits, sz, start := ReadSize(a, next);
  }

  /** An archive is its first entry and what follows. */
  lemma ParseStep(a: Text, pos: nat)
    requires pos <= |a| && Parse(a, pos).Some?
    ensures ParseEntry(a, pos).Some?
    ensures var item := ParseEntry(a, pos).value;
            if item.next >= |a| then Parse(a, pos).value == [item.file]
            else Parse(a, item.next).Some? && Parse(a, pos).value == [item.file] + Parse(a, item.next).value
  {
    hide ParseEntry;
  }

  lemma PutFirst(dir: Dir, f: File, rest: seq<File>)
    ensures PutAll(dir, [f] + rest) == PutAll(Put(dir, f), rest)
    ensures PutAll(dir, [f]) == Put(dir, f)
  {
    assert ([f] + rest)[1..] == rest;
    assert [f][1..] == [];
  }

  /** Extracting everything into a directory. */
  method Extract(a: Text, dir: Dir) returns (out: Dir)
    requires Parse(a, 0).Some?
    ensures out == PutAll(dir, Parse(a, 0).value)
  {
    hide Parse, ParseEntry, PutAll, Put;
    out := dir;
    var pos := 0;
    while true
      invariant pos <= |a| && Parse(a, pos).Some?
      invariant PutAll(out, Parse(a, pos).value) == PutAll(dir, Parse(a, 0).value)
      decreases |a| - pos
    {
      ParseStep(a, pos);
      var name, digits, sz, start := ReadHeader(a, pos);
      var data, next := CopyOut(a, start, sz);
      PutFirst(out, File(name, data), if next == |a| then [] else Parse(a, next).value);
      out := Put(out, File(name, data));
      if next == |a| {
        break;
      }
      pos := next;
    }
  }

  /** Extracting the first file of a given name; other contents are skipped by seeking. */
  method ExtractOne(a: Text, wanted: Text, dir: Dir) returns (found: bool, out: Dir)
    requires Search(a, 0, wanted).Some?
    ensures var r := Search(a, 0, wanted).value;
            found == r.Some? && out == if r.Some? then Put(dir, r.value) else dir
  {
    hide ParseEntry, Put;
    out := dir;
    var pos := 0;
    while true
      invariant pos <= |a| && out == dir
      invariant Search(a, pos, wanted).Some? && Search(a, pos, wanted) == Search(a, 0, wanted)
      decreases |a| - pos
    {
      var name, digits, sz, start := ReadHeader(a, pos);
      if |name| == |wanted| && name == wanted {
        var data, next := CopyOut(a, start, sz);
        out := Put(out, File(name, data));
        return true, out;
      }
      var next := start + sz;
      if next == |a| {
        return false, out;
      }
      pos := next;
    }
  }

  // ---------------------------------------------------------------- listing

  /** Seeking past an entry. */
  lemma SeekStep(a: Text, pos: nat)
    requires pos <= |a| && Seekable(a, pos)
    ensures ParseEntry(a, pos).Some? && ParseEntry(a, pos).value.next <= |a|
    ensures ParseEntry(a, pos).value.next < |a| ==> Seekable(a, ParseEntry(a, pos).value.next)
  {
    hide ParseEntry;
  }

  /** The counting pass of the listing. */
  method CountFiles(a: Text) returns (cnt: nat)
    requires Seekable(a, 0)
    ensures Parse(a, 0).Some? && cnt == |Parse(a, 0).value|
  {
    hide ParseEntry, Parse, Seekable;
    SeekableParses(a, 0);
    cnt := 0;
    var pos := 0;
    while true
      invariant pos <= |a| && Seekable(a, pos) && Parse(a, pos).Some?
      invariant cnt + |Parse(a, pos).value| == |Parse(a, 0).value|
      decreases |a| - pos
    {
      SeekStep(a, pos);
      ParseStep(a, pos);
      var name, digits, sz, start := ReadHeader(a, pos);
      cnt := cnt + 1;
      pos := start + sz;
      if pos == |a| {
        break;
      }
    }
  }

  /** The listing of an archive, written into a file that held `prior`. */
  method List(prior: Text, a: Text) returns (disk: Text)
    requires Seekable(a, 0)
    ensures Parse(a, 0).Some? && disk == Overwrite(prior, Listing(|a|, |Parse(a, 0).value|, Lines(a, 0)))
  {
    hide Overwrite, Parse, Lines, Seekable;
    assert Overwrite(prior, []) == prior by { NothingWritten(prior); }
    var fsz := Print(|a|);
    var pos;
    disk, pos := Write(prior, [], prior, 0, fsz + [0]);
    disk, pos := Write(prior, [] + (fsz + [0]), disk, pos, [NL]);
    var cnt := CountFiles(a);
    var fz := Print(cnt);
    ghost var head := [] + (fsz + [0]) + [NL];
    disk, pos := Write(prior, head, disk, pos, fz + [0]);
    disk, pos := Write(prior, head + (fz + [0]), disk, pos, [NL]);
    head := head + (fz + [0]) + [NL];
    assert head == Decimal(|a|) + [0] + [NL] + Decimal(cnt) + [0] + [NL];
    disk := ListLines(prior, head, disk, pos, a);
  }

  /** The second pass of the listing. */
  method ListLines(prior: Text, ghost head: Text, start: Text, startPos: nat, a: Text) returns (disk: Text)
    requires Seekable(a, 0) && start == Overwrite(prior, head) && startPos == |head|
    ensures disk == Overwrite(prior, head + Lines(a, 0))
  {
    hide ParseEntry, Overwrite, Lines, Seekable;
    ghost var out := head;
    var outPos := startPos;
    disk := start;
    var pos := 0;
    while true
      invariant pos <= |a| && Seekable(a, pos) && out + Lines(a, pos) == head + Lines(a, 0)
      invariant disk == Overwrite(prior, out) && outPos == |out|
      decreases |a| - pos
    {
      SeekStep(a, pos);
      var name, digits, sz, next := ReadHeader(a, pos);
      LineOut(out, a, pos);
      disk, outPos := Write(prior, out, disk, outPos, name);
      out := out + name;
      disk, outPos := Write(prior, out, disk, outPos, [SPACE]);
      out := out + [SPACE];
      disk, outPos := Write(prior, out, disk, outPos, digits);
      out := out + digits;
      disk, outPos := Write(prior, out, disk, outPos, [NL]);
      out := out + [NL];
      pos := next + sz;
      if pos == |a| {
        break;
      }
    }
  }

  lemma LineOut(out: Text, a: Text, pos: nat)
    requires pos <= |a| && Seekable(a, pos)
    ensures var item := ParseEntry(a, pos).value;
            var line := out + item.file.name + [SPACE] + item.size + [NL];
            && (item.next < |a| ==> out + Lines(a, pos) == line + Lines(a, item.next))
            && (item.next == |a| ==> out + Lines(a, pos) == line)
  {
    hide ParseEntry;
    var item := ParseEntry(a, pos).value;
    LineParts(out, item.file.name, item.size, if item.next < |a| then Lines(a, item.next) else []);
  }

  lemma LineParts(out: Text, name: Text, size: Text, rest: Text)
    ensures out + (name + [SPACE] + size + [NL] + rest) == out + name + [SPACE] + size + [NL] + rest
    ensures out + (name + [SPACE] + size + [NL] + []) == out + name + [SPACE] + size + [NL]
  {
  }
}
