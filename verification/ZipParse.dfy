/** Zip entries (zip/ZipEntry.h) and parse_apk (zip/shadow_zip.cpp). */
module ZipParse {
  import opened Bytes
  import opened Options
  import opened Stdio
  import opened ZipFormat
  import opened ZipRecords

  const NUL: Byte := 0
  const SLASH: Byte := 0x2f
  const STORED: nat := 0
  const DATA_DESCRIPTOR_LEN: nat := 16

  /** The C string in a buffer: what lies before the first zero byte. */
  predicate StringIn(buf: Bytes, s: Bytes) {
    s <= buf && 0 !in s && (|s| < |buf| ==> buf[|s|] == 0)
  }

  /** A name buffer as the C string it is used as. */
  function CName(name: Bytes): (s: Bytes)
    ensures StringIn(name, s)
  {
    if name == [] || name[0] == NUL then [] else [name[0]] + CName(name[1..])
  }

  datatype Entry = Entry(lfh: LocalHeader, cde: CentralEntry) {
    function Name(): Bytes {
      CName(cde.fileName)
    }

    predicate IsDirectory() {
      Name() == [] || Name()[|Name()| - 1] == SLASH
    }

    predicate IsCompressed() {
      cde.compressionMethod != STORED
    }

    /** Bit 3 of the general purpose flags. */
    predicate HasDD() {
      lfh.gpBitFlag / 8 % 2 == 1
    }

    function EntryBegin(): nat {
      cde.localHeaderRelOffset
    }

    function FileOffset(): nat {
      cde.localHeaderRelOffset + LFH_LEN + |lfh.fileName| + |lfh.extraField|
    }

    function EntryEnd(): nat {
      FileOffset() + cde.compressedSize + if HasDD() then DATA_DESCRIPTOR_LEN else 0
    }
  }

  // ---------- finding the end record ----------

  predicate SignatureAt(buf: Bytes, i: nat)
    requires i + 4 <= |buf|
  {
    buf[i] == 0x50 && GetLongLE(buf, i) == EOCD_SIGNATURE
  }

  /** The last place, at i or before, where the signature starts. */
  function FindSignature(buf: Bytes, i: int): (r: int)
    requires i + 4 <= |buf|
    ensures -1 <= r && (i < 0 ==> r == -1) && (i >= 0 ==> r <= i)
    ensures r >= 0 ==> SignatureAt(buf, r)
    ensures forall j: nat :: r < j <= i ==> !SignatureAt(buf, j)
    decreases i + 1
  {
    if i < 0 then -1 else if SignatureAt(buf, i) then i else FindSignature(buf, i - 1)
  }

  const MAX_SEARCH: nat := 65557

  function Tail(file: Bytes): (buf: Bytes)
    ensures |buf| <= |file|
  {
    if |file| > MAX_SEARCH then file[|file| - MAX_SEARCH..] else file
  }

  function FindEocd(file: Bytes): Option<EndOfCentralDir> {
    if |file| < EOCD_LEN then None else
    var i := FindSignature(Tail(file), |Tail(file)| - 4);
    if i < 0 then None else ReadEocd(Tail(file)[i..])
  }

  // ---------- reading the directory ----------

  /** ZipEntry::initFromCDE at a position of the file. */
  function ReadEntry(file: Bytes, pos: nat): Option<Entry> {
    match ReadCentral(From(file, pos))
    case None => None
    case Some(c) =>
      if c.localHeaderRelOffset >= 0x8000_0000_0000_0000 then None else
      match ReadLocal(From(file, c.localHeaderRelOffset))
      case None => None
      case Some(h) => Some(Entry(h, c))
  }

  /** The next n entries, directories left out, and the position after them. An entry whose name
      field is empty leaves a null pointer, and the code goes on to take its strlen. */
  function ReadEntries(file: Bytes, pos: nat, n: nat): Outcome<(seq<Entry>, nat)>
    decreases n
  {
    if n == 0 then Done(([], pos)) else
    match ReadEntry(file, pos)
    case None => Failed
    case Some(e) =>
      if e.cde.fileName == [] then Undefined else
      Prepend(if e.IsDirectory() then [] else [e], ReadEntries(file, pos + e.cde.Len(), n - 1))
  }

  function Prepend(head: seq<Entry>, rest: Outcome<(seq<Entry>, nat)>): Outcome<(seq<Entry>, nat)> {
    match rest
    case Done(r) => Done((head + r.0, r.1))
    case Failed => Failed
    case Undefined => Undefined
  }

  /** Whether the end record's signature is at a position. */
  predicate EocdAtPos(file: Bytes, pos: nat) {
    |From(file, pos)| >= 4 && GetLongLE(From(file, pos), 0) == EOCD_SIGNATURE
  }

  function ParseApk(file: Bytes): Outcome<seq<Entry>> {
    match FindEocd(file)
    case None => Failed
    case Some(e) =>
      if e.diskNumber != 0 || e.diskWithCentralDir != 0 || e.numEntries != e.totalNumEntries
         || e.centralDirOffset >= 0x8000_0000_0000_0000
      then Failed else
      match ReadEntries(file, e.centralDirOffset, e.totalNumEntries)
      case Done(r) => if EocdAtPos(file, r.1) then Done(r.0) else Failed
      case Failed => Failed
      case Undefined => Undefined
  }

  lemma ParseNone(v: Bytes)
    requires FindEocd(v) == None
    ensures ParseApk(v) == Failed
  {
  }

  // ---------- the code ----------

  method InitFromCDE(fp: Stream) returns (e: Option<Entry>)
    modifies fp`pos
    ensures e == ReadEntry(fp.data, old(fp.pos))
    ensures e.Some? ==> fp.pos == old(fp.pos) + e.value.cde.Len()
  {
    hide ReadLocal, ReadCentral, From;
    var c := ReadCentralEntry(fp);
    if c == None { return None; }
    var posn := fp.pos;
    var ok := fp.Fseek(c.value.localHeaderRelOffset);
    if !ok { return None; }
    var h := ReadLocalHeader(fp);
    if h == None { return None; }
    fp.pos := posn;
    return Some(Entry(h.value, c.value));
  }

  method ScanBackwards(buf: Bytes) returns (i: int)
    requires |buf| >= 4
    ensures i == FindSignature(buf, |buf| - 4)
  {
    i := |buf| - 4;
    while i >= 0
      invariant -1 <= i <= |buf| - 4
      invariant FindSignature(buf, i) == FindSignature(buf, |buf| - 4)
    {
      if buf[i] == 0x50 && GetLongLE(buf, i) == EOCD_SIGNATURE { return; }
      i := i - 1;
    }
  }

  lemma {:induction false} CNameEnds(name: Bytes, k: nat)
    requires k <= |name| && (k < |name| ==> name[k] == NUL) && forall i :: 0 <= i < k ==> name[i] != NUL
    ensures CName(name) == name[..k]
    decreases k
  {
    if k > 0 {
      CNameEnds(name[1..], k - 1);
      assert name[..k] == [name[0]] + name[1..][..k - 1];
    }
  }

  /** strlen and the last character, as parse_apk looks at them. */
  method IsDirectoryName(name: Bytes) returns (directory: bool)
    ensures directory <==> CName(name) == [] || CName(name)[|CName(name)| - 1] == 0x2f
  {
    var length := 0;
    while length < |name| && name[length] != NUL
      invariant length <= |name| && forall i :: 0 <= i < length ==> name[i] != NUL
    {
      length := length + 1;
    }
    CNameEnds(name, length);
    directory := if length > 0 then name[length - 1] == SLASH else true;
  }

  method ReadDirectory(fp: Stream, n: nat) returns (r: Outcome<seq<Entry>>)
    modifies fp`pos
    ensures match ReadEntries(fp.data, old(fp.pos), n)
      case Done(d) => r == Done(d.0) && fp.pos == d.1
      case Failed => r == Failed
      case Undefined => r == Undefined
  {
    hide ReadEntry, Entry.IsDirectory;
    var entries: seq<Entry>, k := [], 0;
    ghost var start, file := fp.pos, fp.data;
    PrependNothing(ReadEntries(file, start, n));
    while k < n
      invariant k <= n && fp.data == file
      invariant ReadEntries(file, start, n) == Prepend(entries, ReadEntries(file, fp.pos, n - k))
    {
      ghost var rest := ReadEntries(file, fp.pos, n - k);
      var e := InitFromCDE(fp);
      if e == None { return Failed; }
      if e.value.cde.fileName == [] { return Undefined; }
      var directory := IsDirectoryName(e.value.cde.fileName);
      DirectoryName(e.value);
      PrependTwice(entries, if directory then [] else [e.value], ReadEntries(file, fp.pos, n - k - 1));
      if !directory { entries := entries + [e.value]; }
      k := k + 1;
    }
    assert entries + [] == entries;
    return Done(entries);
  }

  lemma DirectoryName(e: Entry)
    ensures e.IsDirectory() <==> CName(e.cde.fileName) == [] ||
                                 CName(e.cde.fileName)[|CName(e.cde.fileName)| - 1] == SLASH
  {
  }

  lemma PrependNothing(rest: Outcome<(seq<Entry>, nat)>)
    ensures Prepend([], rest) == rest
  {
    if rest.Done? { assert [] + rest.value.0 == rest.value.0; }
  }

  lemma PrependTwice(a: seq<Entry>, b: seq<Entry>, rest: Outcome<(seq<Entry>, nat)>)
    ensures Prepend(a, Prepend(b, rest)) == Prepend(a + b, rest)
    ensures a + [] == a
  {
    if rest.Done? { assert a + (b + rest.value.0) == a + b + rest.value.0; }
  }

  /** The first half of parse_apk: the end record in the last 65557 bytes. */
  method FindEnd(fp: Stream) returns (eocd: Option<EndOfCentralDir>)
    requires |fp.data| < 0x8000_0000_0000_0000
    modifies fp`pos
    ensures eocd == FindEocd(fp.data)
  {
    hide FindSignature, ReadEocd;
    var fileLength := |fp.data|;
    if fileLength < EOCD_LEN { return None; }
    var seekStart, readAmount := 0, fileLength;
    if fileLength > MAX_SEARCH { seekStart, readAmount := fileLength - MAX_SEARCH, MAX_SEARCH; }
    var ok := fp.Fseek(seekStart);
    if !ok { return None; }
    var buf := fp.Fread(readAmount);
    assert buf == Tail(fp.data);
    var i := ScanBackwards(buf);
    if i < 0 { return None; }
    eocd := ReadEndRecord(buf[i..]);
  }

  /** parse_apk; the size of a file is a signed 64-bit number. */
  method Parse(file: Bytes) returns (r: Outcome<seq<Entry>>)
    requires |file| < 0x8000_0000_0000_0000
    ensures r == ParseApk(file)
  {
    hide FindEocd, ReadEntries, GetField;
    var fp := new Stream(file);
    var eocd := FindEnd(fp);
    if eocd == None { return Failed; }
    var e := eocd.value;
    if e.diskNumber != 0 || e.diskWithCentralDir != 0 || e.numEntries != e.totalNumEntries { return Failed; }
    var ok := fp.Fseek(e.centralDirOffset);
    if !ok { return Failed; }
    r := ReadDirectory(fp, e.totalNumEntries);
    if !r.Done? { return; }
    ghost var before := fp.pos;
    var check := fp.Fread(4);
    if |check| != 4 { return Failed; }
    assert check[0..4] == check == From(file, before)[0..4];
    if GetLongLE(check, 0) != EOCD_SIGNATURE { return Failed; }
  }
}
