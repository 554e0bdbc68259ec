/** The archive format: for each file its name, a newline, its size in decimal,
    a newline, and its contents. */
module TarSpec {
  import opened IpcBase

  const NL: byte := 10
  const SPACE: byte := 32
  const ZERO: byte := 48      // the digit 0
  const CHUNK: nat := 2048

  type Text = seq<byte>

  datatype File = File(name: Text, data: Text)

  datatype Option<T> = None | Some(value: T)

  // ---------------------------------------------------------------- decimal numbers

  function Decimal(n: nat): (s: Text)
    ensures s != [] && AllDigits(s)
  {
    if n < 10 then [ZERO + n as byte] else Decimal(n / 10) + [ZERO + (n % 10) as byte]
  }

  predicate AllDigits(s: Text) {
    forall i | 0 <= i < |s| :: ZERO <= s[i] < ZERO + 10
  }

  /** Reading digits one by one, as the extraction loops do. */
  function Value(s: Text): nat
    requires AllDigits(s)
  {
    if s == [] then 0 else Value(s[..|s| - 1]) * 10 + (s[|s| - 1] - ZERO) as nat
  }

  lemma {:induction false} ValueOfDecimal(n: nat)
    ensures Value(Decimal(n)) == n
  {
    var s := Decimal(n);
    if n < 10 {
      assert s[..|s| - 1] == [];
    } else {
      assert s[..|s| - 1] == Decimal(n / 10);
      ValueOfDecimal(n / 10);
    }
  }

  // ---------------------------------------------------------------- writing

  function Entry(f: File): Text {
    f.name + [NL] + Decimal(|f.data|) + [NL] + f.data
  }

  function Archive(files: seq<File>): Text {
    if files == [] then [] else Archive(files[..|files| - 1]) + Entry(files[|files| - 1])
  }

  /** A file opened without truncation, after `data` is written from its start. */
  function Overwrite(prior: Text, data: Text): Text {
    data + if |data| < |prior| then prior[|data|..] else []
  }

  /** One write at position `pos`. */
  function WriteAt(disk: Text, pos: nat, data: Text): Text
    requires pos <= |disk|
  {
    disk[..pos] + Overwrite(disk[pos..], data)
  }

  /** Writes in sequence are one write of everything. */
  lemma WritesAppend(prior: Text, written: Text, data: Text)
    ensures |written| <= |Overwrite(prior, written)|
    ensures WriteAt(Overwrite(prior, written), |written|, data) == Overwrite(prior, written + data)
  {
    var disk := Overwrite(prior, written);
    assert disk[..|written|] == written;
    var rest := disk[|written|..];
    assert rest == if |written| < |prior| then prior[|written|..] else [];
    if |data| < |rest| {
      assert rest[|data|..] == prior[|written| + |data|..];
    }
    assert written + (data + if |data| < |rest| then rest[|data|..] else [])
           == (written + data) + if |data| < |rest| then rest[|data|..] else [];
  }

  lemma OverwriteIs(prior: Text, data: Text)
    ensures Overwrite(prior, data) == data <==> |prior| <= |data|
  {
    assert |Overwrite(prior, data)| == if |data| < |prior| then |prior| else |data|;
  }

  /** Byte by byte: the data, and behind it what the file held there before. */
  lemma OverwriteAt(prior: Text, data: Text, k: nat)
    requires k < |Overwrite(prior, data)|
    ensures |Overwrite(prior, data)| == if |data| < |prior| then |prior| else |data|
    ensures Overwrite(prior, data)[k] == if k < |data| then data[k] else prior[k]
  {
  }

  /** A write changes exactly the bytes at its position, and makes the file longer
      only as far as it reaches. */
  lemma WriteAtIs(disk: Text, pos: nat, data: Text, k: nat)
    requires pos <= |disk| && k < |WriteAt(disk, pos, data)|
    ensures |WriteAt(disk, pos, data)| == if pos + |data| < |disk| then |disk| else pos + |data|
    ensures WriteAt(disk, pos, data)[k] == if pos <= k < pos + |data| then data[k - pos] else disk[k]
  {
    if k >= pos {
      OverwriteAt(disk[pos..], data, k - pos);
    }
  }

  predicate ValidName(name: Text) { NL !in name && 0 !in name }

  // ---------------------------------------------------------------- reading

  /** The first newline at or after `pos`, or the end. */
  function LineEnd(a: Text, pos: nat): (e: nat)
    requires pos <= |a|
    ensures pos <= e <= |a| && (e < |a| ==> a[e] == NL) && (forall i | pos <= i < e :: a[i] != NL)
    decreases |a| - pos
  {
    if pos == |a| || a[pos] == NL then pos else LineEnd(a, pos + 1)
  }

  /** Appending byte by byte to a C string: a zero byte adds nothing. */
  function AsString(s: Text): Text {
    if s == [] then []
    else if s[|s| - 1] == 0 then AsString(s[..|s| - 1])
    else AsString(s[..|s| - 1]) + [s[|s| - 1]]
  }

  lemma {:induction false} NoZerosIsString(s: Text)
    requires 0 !in s
    ensures AsString(s) == s
  {
    if s != [] {
      NoZerosIsString(s[..|s| - 1]);
      assert s == s[..|s| - 1] + [s[|s| - 1]];
    }
  }

  /** `size` is the text of the size, `next` where the entry would end: contents
      that are cut short end with the archive. */
  datatype Item = Item(file: File, size: Text, start: nat, next: nat)

  function Upto(a: Text, next: nat): nat {
    if next < |a| then next else |a|
  }

  /** The entry at `pos`, or None where the program would read the end of the
      archive over and over or meet a size that is not a number.  An archive that
      ends behind a name yields an empty file: the newline just read is still in
      the buffer and ends the size. */
  function ParseEntry(a: Text, pos: nat): (r: Option<Item>)
    requires pos <= |a|
    ensures r.Some? ==> pos < r.value.start <= |a| && r.value.start <= r.value.next
    ensures r.Some? ==> r.value.file.data == a[r.value.start..Upto(a, r.value.next)]
  {
    var e := LineEnd(a, pos);
    if e == |a| then None
    else if e + 1 == |a| then Some(Item(File(AsString(a[pos..e]), []), [], |a|, |a|))
    else
      var e2 := LineEnd(a, e + 1);
      if e2 == |a| || !AllDigits(a[e + 1..e2]) then None
      else
        var next := e2 + 1 + Value(a[e + 1..e2]);
        Some(Item(File(AsString(a[pos..e]), a[e2 + 1..Upto(a, next)]), a[e + 1..e2], e2 + 1, next))
  }

  /** All entries from `pos` on; at least one. */
  function Parse(a: Text, pos: nat): Option<seq<File>>
    requires pos <= |a|
    decreases |a| - pos
  {
    match ParseEntry(a, pos)
    case None => None
    case Some(item) =>
      if item.next >= |a| then Some([item.file])
      else
        match Parse(a, item.next)
        case None => None
        case Some(files) => Some([item.file] + files)
  }

  /** What the listing writes for the entries from `pos` on: names, and sizes as they
      stand in the archive. */
  function Lines(a: Text, pos: nat): Text
    requires pos <= |a|
    decreases |a| - pos
  {
    match ParseEntry(a, pos)
    case None => []
    case Some(item) =>
      item.file.name + [SPACE] + item.size + [NL] + if item.next < |a| then Lines(a, item.next) else []
  }

  /** The same for an archive of given files. */
  function FileLines(files: seq<File>): Text {
    if files == [] then []
    else files[0].name + [SPACE] + Decimal(|files[0].data|) + [NL] + FileLines(files[1..])
  }

  /** The listing: size of the archive and number of files, each with the string's
      final zero byte, and a line for each file. */
  function Listing(size: nat, count: nat, lines: Text): Text {
    Decimal(size) + [0] + [NL] + Decimal(count) + [0] + [NL] + lines
  }

  /** Seeking over the contents comes to the very end: none of them is cut short. */
  predicate Seekable(a: Text, pos: nat)
    requires pos <= |a|
    decreases |a| - pos
  {
    match ParseEntry(a, pos)
    case None => false
    case Some(item) => item.next == |a| || (item.next < |a| && Seekable(a, item.next))
  }

  lemma {:induction false} SeekableParses(a: Text, pos: nat)
    requires pos <= |a| && Seekable(a, pos)
    ensures Parse(a, pos).Some?
    decreases |a| - pos
  {
    hide ParseEntry;
    if ParseEntry(a, pos).value.next < |a| {
      SeekableParses(a, ParseEntry(a, pos).value.next);
    }
  }

  // ---------------------------------------------------------------- round trip

  lemma LineEndIs(a: Text, pos: nat, e: nat)
    requires pos <= e < |a| && a[e] == NL && forall i | pos <= i < e :: a[i] != NL
    ensures LineEnd(a, pos) == e
  {
  }

  lemma DigitsHoldNoNewline(s: Text)
    requires AllDigits(s)
    ensures NL !in s
  {
  }

  lemma LineCut(before: Text, line: Text, after: Text)
    ensures var a := before + line + [NL] + after;
            a[|before|..|before| + |line|] == line && a[|before| + |line|] == NL
  {
  }

  lemma LineEndAt(a: Text, p: nat, e: nat)
    requires p <= e < |a| && NL !in a[p..e] && a[e] == NL
    ensures LineEnd(a, p) == e
  {
    forall i | p <= i < e ensures a[i] != NL { assert a[i] == a[p..e][i - p]; }
    LineEndIs(a, p, e);
  }

  /** A line in the middle of the archive is delimited by its newline. */
  lemma LineReadBack(before: Text, line: Text, after: Text)
    requires NL !in line
    ensures var a := before + line + [NL] + after;
            LineEnd(a, |before|) == |before| + |line| && a[|before|..|before| + |line|] == line
  {
    LineCut(before, line, after);
    LineEndAt(before + line + [NL] + after, |before|, |before| + |line|);
  }

  lemma SliceReadBack(before: Text, part: Text, after: Text)
    ensures (before + part + after)[|before|..|before| + |part|] == part
  {
  }

  /** The line at `pos` is a number and a zero byte. */
  predicate NumberLine(a: Text, pos: nat, n: nat)
    requires pos <= |a|
  {
    var e := LineEnd(a, pos);
    && pos < e < |a| && a[e - 1] == 0 && AllDigits(a[pos..e - 1]) && Value(a[pos..e - 1]) == n
  }

  lemma NumberLineIs(a: Text, pos: nat, n: nat)
    requires pos <= |a| && LineEnd(a, pos) < |a| && a[pos..LineEnd(a, pos)] == Decimal(n) + [0]
    ensures NumberLine(a, pos, n)
  {
    ValueOfDecimal(n);
    hide Value, Decimal, AllDigits, LineEnd;
    WithoutLast(a, pos, LineEnd(a, pos), Decimal(n), 0);
  }

  lemma NumberLineAt(before: Text, n: nat, after: Text)
    ensures var a := before + (Decimal(n) + [0]) + [NL] + after;
            NumberLine(a, |before|, n) && LineEnd(a, |before|) == |before| + |Decimal(n)| + 1
  {
    var line := Decimal(n) + [0];
    var a := before + line + [NL] + after;
    DigitsHoldNoNewline(Decimal(n));
    hide Value, Decimal, AllDigits, LineEnd, NumberLine;
    LineReadBack(before, line, after);
    NumberLineIs(a, |before|, n);
  }

  lemma WithoutLast(a: Text, from: nat, to: nat, front: Text, last: byte)
    requires from <= to <= |a| && a[from..to] == front + [last]
    ensures from < to && a[to - 1] == last && a[from..to - 1] == front
  {
    assert a[to - 1] == a[from..to][to - from - 1];
    assert a[from..to - 1] == a[from..to][..to - from - 1];
  }

  /** From a listing whoever reads it line by line gets the archive's size first, the
      number of files second, and then the files' lines. */
  lemma ListingReadBack(size: nat, count: nat, lines: Text)
    ensures var l := Listing(size, count, lines);
            && NumberLine(l, 0, size) && LineEnd(l, 0) < |l|
            && var second := LineEnd(l, 0) + 1;
               && NumberLine(l, second, count) && LineEnd(l, second) < |l|
               && l[LineEnd(l, second) + 1..] == lines
  {
    var l, head := Listing(size, count, lines), Decimal(size) + [0] + [NL];
    assert l == [] + (Decimal(size) + [0]) + [NL] + (Decimal(count) + [0] + [NL] + lines);
    assert l == head + (Decimal(count) + [0]) + [NL] + lines;
    NumberLineAt([], size, Decimal(count) + [0] + [NL] + lines);
    NumberLineAt(head, count, lines);
    hide Value, Decimal, AllDigits, LineEnd, Listing;
  }

  /** The first of the files' lines: the name, a space, the size. */
  lemma FileLineReadBack(files: seq<File>)
    requires files != [] && ValidName(files[0].name)
    ensures var l, n, e := FileLines(files), |files[0].name|, LineEnd(FileLines(files), 0);
            && n < e < |l| && l[..n] == files[0].name && l[n] == SPACE
            && AllDigits(l[n + 1..e]) && Value(l[n + 1..e]) == |files[0].data|
            && l[e + 1..] == FileLines(files[1..])
  {
    var name, digits, rest := files[0].name, Decimal(|files[0].data|), FileLines(files[1..]);
    var l, line := FileLines(files), name + [SPACE] + digits;
    DigitsHoldNoNewline(digits);
    ValueOfDecimal(|files[0].data|);
    hide Value, Decimal, AllDigits, LineEnd;
    assert l == line + [NL] + rest;
    hide FileLines;
    FirstLine(line, rest);
    ThreeParts(l, |line|, name, SPACE, digits);
  }

  lemma FirstLine(line: Text, rest: Text)
    requires NL !in line
    ensures var a := line + [NL] + rest;
            LineEnd(a, 0) == |line| < |a| && a[0..|line|] == line && a[|line| + 1..] == rest
  {
    LineReadBack([], line, rest);
    assert [] + line == line;
  }

  lemma ThreeParts(a: Text, e: nat, x: Text, mid: byte, y: Text)
    requires e <= |a| && a[0..e] == x + [mid] + y
    ensures |x| < e && a[..|x|] == x && a[|x|] == mid && a[|x| + 1..e] == y
  {
    var line := a[0..e];
    assert a[..|x|] == line[..|x|];
    assert a[|x|] == line[|x|];
    assert a[|x| + 1..e] == line[|x| + 1..];
  }

  lemma NameCut(before: Text, f: File, after: Text)
    requires ValidName(f.name)
    ensures var a, p := before + Entry(f) + after, |before|;
            LineEnd(a, p) == p + |f.name| < |a| && a[p..p + |f.name|] == f.name
  {
    var rest := Decimal(|f.data|) + [NL] + f.data + after;
    assert before + Entry(f) + after == before + f.name + [NL] + rest by { hide Decimal; }
    LineReadBack(before, f.name, rest);
  }

  lemma SizeCut(before: Text, f: File, after: Text)
    ensures var a, digits, p := before + Entry(f) + after, Decimal(|f.data|), |before| + |f.name| + 1;
            p <= |a| && LineEnd(a, p) == p + |digits| < |a| && a[p..p + |digits|] == digits
  {
    var digits, front := Decimal(|f.data|), before + f.name + [NL];
    assert before + Entry(f) + after == front + digits + [NL] + (f.data + after) by { hide Decimal; }
    DigitsHoldNoNewline(digits);
    LineReadBack(front, digits, f.data + after);
  }

  lemma DataCut(before: Text, f: File, after: Text)
    ensures var a, p := before + Entry(f) + after, |before| + |f.name| + 1 + |Decimal(|f.data|)| + 1;
            p + |f.data| == |before + Entry(f)| <= |a| && a[p..p + |f.data|] == f.data
  {
    var front := before + f.name + [NL] + Decimal(|f.data|) + [NL];
    assert before + Entry(f) + after == front + f.data + after by { hide Decimal; }
    SliceReadBack(front, f.data, after);
  }

  lemma ParseAt(a: Text, pos: nat, e: nat, e2: nat, digits: Text, f: File)
    requires pos <= |a| && LineEnd(a, pos) == e < |a| && a[pos..e] == f.name && AsString(f.name) == f.name
    requires e + 1 < |a| && LineEnd(a, e + 1) == e2 < |a|
    requires a[e + 1..e2] == digits && AllDigits(digits) && Value(digits) == |f.data|
    requires e2 + 1 + |f.data| <= |a| && a[e2 + 1..e2 + 1 + |f.data|] == f.data
    ensures ParseEntry(a, pos) == Some(Item(f, digits, e2 + 1, e2 + 1 + |f.data|))
  {
    hide LineEnd, Value, AllDigits, AsString;
  }

  lemma NameIsString(f: File)
    requires ValidName(f.name)
    ensures AsString(f.name) == f.name
  {
    NoZerosIsString(f.name);
  }

  /** An entry in the middle of an archive is read back. */
  lemma EntryReadBack(before: Text, f: File, after: Text)
    requires ValidName(f.name)
    ensures var a := before + Entry(f) + after;
            ParseEntry(a, |before|) ==
              Some(Item(f, Decimal(|f.data|), |before + Entry(f)| - |f.data|, |before + Entry(f)|))
  {
    hide Entry, LineEnd, Decimal, Value, AllDigits, ValidName, ParseEntry, AsString;
    NameCut(before, f, after);
    SizeCut(before, f, after);
    DataCut(before, f, after);
    ValueOfDecimal(|f.data|);
    NameIsString(f);
    var e := |before| + |f.name|;
    ParseAt(before + Entry(f) + after, |before|, e, e + 1 + |Decimal(|f.data|)|, Decimal(|f.data|), f);
  }

  lemma Associative(x: Text, y: Text, z: Text)
    ensures x + (y + z) == x + y + z
  {
  }

  lemma {:induction false} ArchiveAppend(xs: seq<File>, ys: seq<File>)
    ensures Archive(xs + ys) == Archive(xs) + Archive(ys)
    decreases |ys|
  {
    hide Entry;
    if ys == [] {
      assert xs + ys == xs;
    } else {
      var y, front := ys[|ys| - 1], ys[..|ys| - 1];
      assert (xs + ys)[..|xs + ys| - 1] == xs + front;
      ArchiveAppend(xs, front);
      Associative(Archive(xs), Archive(front), Entry(y));
    }
  }

  lemma {:induction false} ParseFrom(before: Text, files: seq<File>)
    requires files != [] && forall f | f in files :: ValidName(f.name)
    ensures Parse(before + Archive(files), |before|) == Some(files)
    ensures Seekable(before + Archive(files), |before|)
    ensures Lines(before + Archive(files), |before|) == FileLines(files)
    decreases |files|
  {
    var rest := files[1..];
    assert files == [files[0]] + rest;
    ArchiveAppend([files[0]], rest);
    assert Archive([files[0]]) == Entry(files[0]) by { assert [files[0]][..0] == []; }
    var a := before + Archive(files);
    assert a == before + Entry(files[0]) + Archive(rest);
    EntryReadBack(before, files[0], Archive(rest));
    if rest != [] {
      ParseFrom(before + Entry(files[0]), rest);
      NonEmpty(rest);
    } else {
      assert files == [files[0]];
    }
  }

  lemma NonEmpty(files: seq<File>)
    requires files != []
    ensures |Archive(files)| > 0
  {
  }

  /** Round trip: parsing the created bytes yields the same files in order. */
  lemma RoundTrip(files: seq<File>)
    requires files != [] && forall f | f in files :: ValidName(f.name)
    ensures Parse(Archive(files), 0) == Some(files) && Seekable(Archive(files), 0)
    ensures Lines(Archive(files), 0) == FileLines(files)
  {
    ParseFrom([], files);
    assert [] + Archive(files) == Archive(files);
  }

  /** What follows the entries is read as further entries. */
  lemma {:induction false} ParseGoesOn(before: Text, files: seq<File>, tail: Text)
    requires files != [] && tail != [] && forall f | f in files :: ValidName(f.name)
    ensures var a := before + Archive(files) + tail;
            Parse(a, |before|) == match Parse(a, |before + Archive(files)|)
                                  case None => None
                                  case Some(more) => Some(files + more)
    decreases |files|
  {
    hide Entry, ParseEntry, Archive;
    var rest := files[1..];
    CutFirst(before, files);
    var a := before + Archive(files) + tail;
    assert a == before + Entry(files[0]) + (Archive(rest) + tail) by {
      Associative(before + Entry(files[0]), Archive(rest), tail);
    }
    EntryReadBack(before, files[0], Archive(rest) + tail);
    var next := before + Entry(files[0]);
    assert a == next + Archive(rest) + tail;
    if rest != [] {
      ParseGoesOn(next, rest, tail);
      Prepended(files, Parse(a, |before + Archive(files)|));
    } else {
      EmptyArchive();
      assert next + [] == next;
      assert files == [files[0]];
    }
  }

  /** An archive whose last contents are cut short is read as far as it goes. */
  lemma CutShort(files: seq<File>, f: File, n: nat)
    requires n <= |f.data| && ValidName(f.name) && forall g | g in files :: ValidName(g.name)
    ensures var a := Archive(files) + (f.name + [NL] + Decimal(|f.data|) + [NL] + f.data[..n]);
            Parse(a, 0) == Some(files + [File(f.name, f.data[..n])])
  {
    var before, tail := Archive(files), f.name + [NL] + Decimal(|f.data|) + [NL] + f.data[..n];
    var a := before + tail;
    var whole := LastEntry(before, f, f.data[..n]);
    hide Archive, ParseEntry;
    ParsePast(files, tail);
  }

  /** An archive that ends right behind a name has one more file, with no contents; one
      that ends inside a name, or inside a size, is never read to its end. */
  lemma CutInHeader(files: seq<File>, name: Text, digits: Text)
    requires ValidName(name) && NL !in digits && forall g | g in files :: ValidName(g.name)
    ensures name != [] ==> Parse(Archive(files) + name, 0) == None
    ensures Parse(Archive(files) + (name + [NL]), 0) == Some(files + [File(name, [])])
    ensures digits != [] ==> Parse(Archive(files) + (name + [NL] + digits), 0) == None
  {
    var before := Archive(files);
    HeaderEntries(before, name, digits);
    hide Archive, ParseEntry, ValidName;
    if name != [] { ParsePast(files, name); }
    ParsePast(files, name + [NL]);
    ParsePast(files, name + [NL] + digits);
    assert files == [] ==> files + [File(name, [])] == [File(name, [])];
  }

  lemma ParsePast(files: seq<File>, tail: Text)
    requires tail != [] && forall g | g in files :: ValidName(g.name)
    ensures var a := Archive(files) + tail;
            Parse(a, 0) == match Parse(a, |Archive(files)|)
                           case None => None
                           case Some(more) => Some(files + more)
  {
    hide Archive, ParseEntry, Parse;
    if files != [] {
      ParseGoesOn([], files, tail);
      assert [] + Archive(files) == Archive(files) && |[] + Archive(files)| == |Archive(files)|;
    } else {
      EmptyArchive();
      var more := Parse(Archive(files) + tail, 0);
      assert more.Some? ==> files + more.value == more.value;
    }
  }

  lemma NoLineEnd(a: Text, pos: nat)
    requires pos <= |a| && NL !in a[pos..]
    ensures LineEnd(a, pos) == |a|
  {
    forall i | pos <= i < |a| ensures a[i] != NL {
      assert a[i] == a[pos..][i - pos];
    }
  }

  lemma HeaderEntries(before: Text, name: Text, digits: Text)
    requires ValidName(name) && NL !in digits
    ensures ParseEntry(before + name, |before|) == None
    ensures var a := before + (name + [NL]); ParseEntry(a, |before|) == Some(Item(File(name, []), [], |a|, |a|))
    ensures digits != [] ==> ParseEntry(before + (name + [NL] + digits), |before|) == None
  {
    assert (before + name)[|before|..] == name;
    NoLineEnd(before + name, |before|);
    NoZerosIsString(name);
    HeaderLine(before, name, []);
    assert name + [NL] + [] == name + [NL];
    HeaderLine(before, name, digits);
    var a := before + (name + [NL] + digits);
    NoLineEnd(a, |before| + |name| + 1);
    hide LineEnd, AsString, Value, AllDigits;
  }

  lemma HeaderLine(before: Text, name: Text, rest: Text)
    requires NL !in name
    ensures var a := before + (name + [NL] + rest);
            && LineEnd(a, |before|) == |before| + |name| < |a| && a[|before|..|before| + |name|] == name
            && a[|before| + |name| + 1..] == rest
  {
    var a, head := before + (name + [NL] + rest), before + name + [NL];
    Associative(before + name, [NL], rest);
    Associative(before, name, [NL] + rest);
    Associative(name, [NL], rest);
    assert a == head + rest;
    LineReadBack(before, name, rest);
    assert (head + rest)[|head|..] == rest;
  }

  lemma LastEntry(before: Text, f: File, data: Text) returns (a: Text)
    requires |data| <= |f.data| && ValidName(f.name)
    ensures a == before + (f.name + [NL] + Decimal(|f.data|) + [NL] + data)
    ensures |before| < |a| && ParseEntry(a, |before|).Some?
    ensures ParseEntry(a, |before|).value.file == File(f.name, data) && ParseEntry(a, |before|).value.next >= |a|
  {
    var digits, e, e2 := Decimal(|f.data|), 0, 0;
    DigitsHoldNoNewline(digits);
    ValueOfDecimal(|f.data|);
    NameIsString(f);
    hide Value, Decimal, AllDigits, AsString, ParseEntry, LineEnd, ValidName;
    a, e, e2 := TwoLines(before, f.name, digits, data);
    ParseCut(a, |before|, e, e2, digits, File(f.name, data));
  }

  lemma TwoLines(before: Text, x: Text, y: Text, after: Text) returns (a: Text, e: nat, e2: nat)
    requires NL !in x && NL !in y
    ensures a == before + (x + [NL] + y + [NL] + after)
    ensures |before| <= e < e2 < |a| && LineEnd(a, |before|) == e && LineEnd(a, e + 1) == e2
    ensures a[|before|..e] == x && a[e + 1..e2] == y && a[e2 + 1..] == after
  {
    e, e2 := |before| + |x|, |before| + |x| + 1 + |y|;
    hide LineEnd;
    var head := before + x + [NL];
    a := head + y + [NL] + after;
    LineReadBack(head, y, after);
    assert a[|head| + |y| + 1..] == after;
    assert a == before + x + [NL] + (y + [NL] + after) by {
      Associative(head + y, [NL], after);
      Associative(head, y, [NL] + after);
      Associative(y, [NL], after);
    }
    LineReadBack(before, x, y + [NL] + after);
    assert a == before + (x + [NL] + y + [NL] + after) by {
      Associative(before, x + [NL], y + [NL] + after);
      Associative(before, x, [NL]);
      Associative(x + [NL] + y, [NL], after);
      Associative(x + [NL], y, [NL] + after);
      Associative(y, [NL], after);
    }
  }

  lemma ParseCut(a: Text, pos: nat, e: nat, e2: nat, digits: Text, f: File)
    requires pos <= |a| && LineEnd(a, pos) == e < |a| && a[pos..e] == f.name && AsString(f.name) == f.name
    requires digits != [] && e + 1 < |a| && LineEnd(a, e + 1) == e2 < |a|
    requires a[e + 1..e2] == digits && AllDigits(digits) && Value(digits) >= |f.data|
    requires a[e2 + 1..] == f.data
    ensures ParseEntry(a, pos) == Some(Item(f, digits, e2 + 1, e2 + 1 + Value(digits)))
    ensures e2 + 1 + Value(digits) >= |a|
  {
    hide AsString, LineEnd, Value, AllDigits;
    assert a[e2 + 1..|a|] == f.data;
  }

  lemma CutFirst(before: Text, files: seq<File>)
    requires files != []
    ensures before + Archive(files) == before + Entry(files[0]) + Archive(files[1..])
  {
    assert files == [files[0]] + files[1..];
    ArchiveAppend([files[0]], files[1..]);
    assert Archive([files[0]]) == Entry(files[0]) by { assert [files[0]][..0] == []; }
    Associative(before, Entry(files[0]), Archive(files[1..]));
  }

  lemma EmptyArchive()
    ensures Archive([]) == []
  {
  }

  lemma Prepended(files: seq<File>, more: Option<seq<File>>)
    requires files != []
    ensures more.Some? ==> [files[0]] + (files[1..] + more.value) == files + more.value
  {
  }

  lemma ParseIsNonempty(a: Text, pos: nat)
    requires pos <= |a|
    ensures Parse(a, pos).Some? ==> Parse(a, pos).value != []
  {
    hide ParseEntry;
  }

  /** Round trip through a file that held `prior`: the archive is opened without
      truncation, and parsing it yields the files exactly when nothing is left over. */
  lemma RoundTripExactly(prior: Text, files: seq<File>)
    requires files != [] && forall f | f in files :: ValidName(f.name)
    ensures Parse(Overwrite(prior, Archive(files)), 0) == Some(files) <==> |prior| <= |Archive(files)|
  {
    hide Parse, Archive;
    RoundTrip(files);
    var a := Archive(files);
    if |prior| <= |a| {
      assert Overwrite(prior, a) == a by { OverwriteIs(prior, a); }
    } else {
      var tail := prior[|a|..];
      ParseGoesOn([], files, tail);
      assert [] + a == a;
      assert Overwrite(prior, a) == a + tail;
      ParseIsNonempty(a + tail, |a|);
    }
  }

  /** Two lists of files never give the same archive. */
  lemma ArchiveInjective(xs: seq<File>, ys: seq<File>)
    requires xs != [] && ys != [] && (forall f | f in xs + ys :: ValidName(f.name)) && Archive(xs) == Archive(ys)
    ensures xs == ys
  {
    forall f | f in xs ensures ValidName(f.name) { assert f in xs + ys; }
    forall f | f in ys ensures ValidName(f.name) { assert f in xs + ys; }
    RoundTrip(xs);
    RoundTrip(ys);
  }

  // ---------------------------------------------------------------- extraction

  type Dir = map<Text, Text>

  function Contents(dir: Dir, name: Text): Text {
    if name in dir then dir[name] else []
  }

  /** Opening without truncation, and writing. */
  function Put(dir: Dir, f: File): Dir {
    dir[f.name := Overwrite(Contents(dir, f.name), f.data)]
  }

  function PutAll(dir: Dir, files: seq<File>): Dir
    decreases |files|
  {
    if files == [] then dir else PutAll(Put(dir, files[0]), files[1..])
  }

  predicate Distinct(files: seq<File>) {
    forall i, j | 0 <= i < j < |files| :: files[i].name != files[j].name
  }

  lemma {:induction false} PutAllUntouched(dir: Dir, files: seq<File>, name: Text)
    requires forall f | f in files :: f.name != name
    ensures name in PutAll(dir, files) <==> name in dir
    ensures name in dir ==> PutAll(dir, files)[name] == dir[name]
    decreases |files|
  {
    if files != [] {
      assert files[0] in files;
      PutAllUntouched(Put(dir, files[0]), files[1..], name);
    }
  }

  /** Extraction writes each archived file over whatever bore its name. */
  lemma {:induction false} PutAllWrites(dir: Dir, files: seq<File>, i: nat)
    requires Distinct(files) && i < |files|
    ensures var f := files[i];
            f.name in PutAll(dir, files) && PutAll(dir, files)[f.name] == Overwrite(Contents(dir, f.name), f.data)
    decreases |files|
  {
    var rest := files[1..];
    if i > 0 {
      assert rest[i - 1] == files[i];
      PutAllWrites(Put(dir, files[0]), rest, i - 1);
    } else {
      forall f | f in rest ensures f.name != files[0].name {
        var k :| 0 <= k < |rest| && rest[k] == f;
        assert files[k + 1] == f;
      }
      PutAllUntouched(Put(dir, files[0]), rest, files[0].name);
    }
  }

  /** The extracted directory holds every archived file exactly, if and only if the
      directory held no longer file of the same name. */
  lemma ExtractionIsExactly(dir: Dir, files: seq<File>)
    requires Distinct(files)
    ensures (forall f | f in files :: f.name in PutAll(dir, files) && PutAll(dir, files)[f.name] == f.data) <==>
            (forall f | f in files && f.name in dir :: |dir[f.name]| <= |f.data|)
  {
    forall f | f in files
      ensures f.name in PutAll(dir, files) && PutAll(dir, files)[f.name] == Overwrite(Contents(dir, f.name), f.data)
      ensures PutAll(dir, files)[f.name] == f.data <==> (f.name in dir ==> |dir[f.name]| <= |f.data|)
    {
      var i :| 0 <= i < |files| && files[i] == f;
      PutAllWrites(dir, files, i);
      OverwriteIs(Contents(dir, f.name), f.data);
    }
  }

  /** Archiving a directory into a file that held no more than the archive, and
      extracting into an empty directory, gives the same files and nothing else. */
  lemma ArchiveThenExtract(prior: Text, files: seq<File>)
    requires files != [] && Distinct(files) && forall f | f in files :: ValidName(f.name)
    requires |prior| <= |Archive(files)|
    ensures var parsed := Parse(Overwrite(prior, Archive(files)), 0);
            && parsed.Some?
            && var dir := PutAll(map[], parsed.value);
               && (forall f | f in files :: f.name in dir && dir[f.name] == f.data)
               && (forall name | name in dir :: exists f :: f in files && f.name == name)
  {
    RoundTripExactly(prior, files);
    hide Parse, Archive, Overwrite;
    ExtractionIsExactly(map[], files);
    forall name | name in PutAll(map[], files) ensures exists f :: f in files && f.name == name {
      if forall f | f in files :: f.name != name {
        PutAllUntouched(map[], files, name);
      }
    }
  }

  // ---------------------------------------------------------------- one file

  /** The first file of that name. */
  function Find(files: seq<File>, name: Text): Option<File> {
    if files == [] then None else if files[0].name == name then Some(files[0]) else Find(files[1..], name)
  }

  lemma {:induction false} FindIsThere(files: seq<File>, name: Text)
    ensures Find(files, name).Some? <==> exists f :: f in files && f.name == name
    ensures Find(files, name).Some? ==> Find(files, name).value in files && Find(files, name).value.name == name
  {
    if files != [] {
      FindIsThere(files[1..], name);
      assert files == [files[0]] + files[1..];
      if f :| f in files && f.name == name {
        assert f == files[0] || f in files[1..];
      }
    }
  }

  /** And it is the first of them. */
  lemma {:induction false} FindIsFirst(files: seq<File>, name: Text) returns (i: nat)
    requires Find(files, name).Some?
    ensures i < |files| && files[i] == Find(files, name).value
    ensures files[i].name == name && forall j | 0 <= j < i :: files[j].name != name
  {
    if files[0].name == name {
      i := 0;
    } else {
      var k := FindIsFirst(files[1..], name);
      i := k + 1;
      assert forall j | 1 <= j < i :: files[j] == files[1..][j - 1];
    }
  }

  /** The search for one file, seeking over the contents of others: None where it
      would read the end of the archive over and over, else what it found. */
  function Search(a: Text, pos: nat, name: Text): Option<Option<File>>
    requires pos <= |a|
    decreases |a| - pos
  {
    match ParseEntry(a, pos)
    case None => None
    case Some(item) =>
      if item.file.name == name then Some(Some(item.file))
      else if item.next == |a| then Some(None)
      else if item.next > |a| then None
      else Search(a, item.next, name)
  }

  /** In an archive that is not cut short the search finds the first file of the name. */
  lemma {:induction false} SearchFinds(a: Text, pos: nat, name: Text)
    requires pos <= |a| && Seekable(a, pos)
    ensures Parse(a, pos).Some? && Search(a, pos, name) == Some(Find(Parse(a, pos).value, name))
    decreases |a| - pos
  {
    hide ParseEntry;
    var item := ParseEntry(a, pos).value;
    if item.next < |a| {
      SearchFinds(a, item.next, name);
      assert ([item.file] + Parse(a, item.next).value)[1..] == Parse(a, item.next).value;
    }
  }

  /** Extracting one file gives the bytes a full extraction gives that name. */
  lemma OneAgreesWithAll(dir: Dir, files: seq<File>, name: Text)
    requires Distinct(files)
    ensures match Find(files, name)
            case Some(f) =>
              f.name == name && name in PutAll(dir, files) && PutAll(dir, files)[name] == Put(dir, f)[name]
            case None => (forall f | f in files :: f.name != name) && (name in PutAll(dir, files) <==> name in dir)
  {
    FindIsThere(files, name);
    match Find(files, name)
    case Some(f) =>
      var i :| 0 <= i < |files| && files[i] == f;
      PutAllWrites(dir, files, i);
    case None =>
      PutAllUntouched(dir, files, name);
  }
}
