/** parse_apk (zip/shadow_zip.cpp) against the zip format: which files it takes, and the entries it gives. */
module ZipInput {
  import opened Bytes
  import opened EndRecordScan
  import opened Options
  import opened Stdio
  import opened ZipFormat
  import opened ZipParse

  // ---------- the files that are taken ----------

  /** An entry whose fields fit their places, with its local header in the file where it says. */
  predicate HeaderOf(file: Bytes, e: Entry) {
    e.cde.Ok() && e.lfh.Ok() && Holds(file, e.cde.localHeaderRelOffset, e.lfh.Written())
  }

  /** A row of the directory. */
  predicate RowAt(file: Bytes, pos: nat, e: Entry) {
    HeaderOf(file, e) && Holds(file, pos, e.cde.Written())
  }

  predicate RowsAt(file: Bytes, pos: nat, rows: seq<Entry>)
    decreases |rows|
  {
    rows != [] ==> RowAt(file, pos, rows[0]) && RowsAt(file, pos + |rows[0].cde.Written()|, rows[1..])
  }

  /** The position behind the rows. */
  function RowsEnd(pos: nat, rows: seq<Entry>): nat
    decreases |rows|
  {
    if rows == [] then pos else RowsEnd(pos + |rows[0].cde.Written()|, rows[1..])
  }

  predicate Signature(file: Bytes, q: nat) {
    q + 4 <= |file| && file[q] == 0x50 && file[q + 1] == 0x4b && file[q + 2] == 0x05 && file[q + 3] == 0x06
  }

  /** The end record at the last place where its signature is spelled, not too far from the end. */
  predicate EndAt(file: Bytes, q: nat, end: EndOfCentralDir) {
    && end.Ok() && Holds(file, q, end.Written()) && |file| <= q + 65557
    && forall j :: q < j < |file| ==> !Signature(file, j)
  }

  /** A file with these rows in its directory. */
  predicate IsZip(file: Bytes, q: nat, end: EndOfCentralDir, rows: seq<Entry>) {
    && EndAt(file, q, end)
    && end.diskNumber == end.diskWithCentralDir == 0 && end.numEntries == end.totalNumEntries == |rows|
    && RowsAt(file, end.centralDirOffset, rows) && Signature(file, RowsEnd(end.centralDirOffset, rows))
  }

  /** A name that is not empty and does not end in a slash. */
  ghost predicate NamesFile(name: Bytes) {
    exists s :: StringIn(name, s) && s != [] && s[|s| - 1] != 0x2f
  }

  /** The rows that are entries, in order. */
  ghost function Kept(rows: seq<Entry>): seq<Entry> {
    if rows == [] then [] else (if NamesFile(rows[0].cde.fileName) then [rows[0]] else []) + Kept(rows[1..])
  }

  predicate AllNamed(rows: seq<Entry>) {
    forall e :: e in rows ==> e.cde.fileName != []
  }

  lemma OneString(buf: Bytes, s: Bytes, t: Bytes)
    requires StringIn(buf, s) && StringIn(buf, t)
    ensures s == t
  {
    assert s == buf[..|s|] && t == buf[..|t|];
  }

  /** The test that parse_apk makes. */
  lemma DirectoryRow(e: Entry)
    ensures e.IsDirectory() <==> !NamesFile(e.cde.fileName)
  {
    var name := e.cde.fileName;
    if NamesFile(name) {
      var s :| StringIn(name, s) && s != [] && s[|s| - 1] != 0x2f;
      OneString(name, s, CName(name));
    }
  }

  // ---------- the rows ----------

  lemma RowRead(file: Bytes, pos: nat, e: Entry)
    requires RowAt(file, pos, e) && |file| < 0x8000_0000_0000_0000
    ensures ReadEntry(file, pos) == Some(e)
  {
    hide ReadCentral, ReadLocal, CentralEntry.Ok, LocalHeader.Ok, CentralEntry.Written, LocalHeader.Written;
    var at := e.cde.localHeaderRelOffset;
    PrefixAt(file, pos, e.cde.Written());
    PrefixAt(file, at, e.lfh.Written());
    ReadWrittenCentral(e.cde, file[pos + |e.cde.Written()|..]);
    ReadWrittenLocal(e.lfh, file[at + |e.lfh.Written()|..]);
  }

  lemma HeldAt(file: Bytes, pos: nat, w: Bytes)
    requires |w| <= |From(file, pos)| && From(file, pos)[..|w|] == w && w != []
    ensures Holds(file, pos, w)
  {
  }

  lemma ReadIsRow(file: Bytes, pos: nat, e: Entry)
    requires ReadEntry(file, pos) == Some(e)
    ensures RowAt(file, pos, e)
  {
    hide ReadCentral, ReadLocal, CentralEntry.Ok, LocalHeader.Ok, CentralEntry.Written, LocalHeader.Written, From,
      Holds;
    WrittenReadCentral(From(file, pos));
    WrittenReadLocal(From(file, e.cde.localHeaderRelOffset));
    HeldAt(file, pos, e.cde.Written());
    HeldAt(file, e.cde.localHeaderRelOffset, e.lfh.Written());
  }

  /** Reading the rows keeps those that name a file; one without any name is read through a null pointer. */
  lemma {:induction false} RowsRead(file: Bytes, pos: nat, rows: seq<Entry>)
    requires RowsAt(file, pos, rows) && |file| < 0x8000_0000_0000_0000
    ensures ReadEntries(file, pos, |rows|) ==
      if AllNamed(rows) then Done((Kept(rows), RowsEnd(pos, rows))) else Undefined
    decreases |rows|
  {
    hide ReadEntry, RowAt, Entry.IsDirectory, NamesFile, CentralEntry.Written;
    if rows != [] {
      var e := rows[0];
      RowRead(file, pos, e);
      RowsRead(file, pos + |e.cde.Written()|, rows[1..]);
      DirectoryRow(e);
      assert rows == [e] + rows[1..];
    }
  }

  /** What was read are rows. */
  lemma {:induction false} ReadAreRows(file: Bytes, pos: nat, n: nat) returns (rows: seq<Entry>)
    requires ReadEntries(file, pos, n).Done?
    ensures |rows| == n && RowsAt(file, pos, rows)
    decreases n
  {
    hide ReadEntry, RowAt, Entry.IsDirectory, CentralEntry.Written;
    if n == 0 {
      rows := [];
    } else {
      var e := ReadEntry(file, pos).value;
      ReadIsRow(file, pos, e);
      var rest := ReadAreRows(file, pos + e.cde.Len(), n - 1);
      rows := [e] + rest;
      assert rows[1..] == rest;
    }
  }

  // ---------- the end record ----------

  lemma SignatureInTail(file: Bytes, d: nat, j: nat)
    requires d <= |file| && j + 4 <= |file| - d
    ensures SignatureAt(file[d..], j) <==> Signature(file, d + j)
  {
    hide SignatureAt;
    SignatureBytes(file[d..], j);
  }

  lemma EndFound(file: Bytes, q: nat, end: EndOfCentralDir)
    requires EndAt(file, q, end)
    ensures FindEocd(file) == Some(end)
  {
    hide SignatureAt, FindSignature, EndOfCentralDir.Written, ReadEocd, EndOfCentralDir.Ok, Signature;
    var d := |file| - |Tail(file)|;
    RecordStarts(file, q, end);
    forall j: nat | j + 4 <= |Tail(file)| ensures SignatureAt(Tail(file), j) <==> Signature(file, d + j) {
      SignatureInTail(file, d, j);
    }
    var r := FindSignature(Tail(file), |Tail(file)| - 4);
    assert SignatureAt(Tail(file), q - d);
    assert r == q - d;
    PrefixAt(file, q, end.Written());
    assert Tail(file)[r..] == From(file, q);
    ReadWrittenEocd(end, file[q + |end.Written()|..]);
  }

  lemma RecordStarts(file: Bytes, q: nat, end: EndOfCentralDir)
    requires Holds(file, q, end.Written())
    ensures Signature(file, q)
  {
    hide Le, EndOfCentralDir.Written;
    var w := end.Written();
    EocdBytes(end);
    assert w[0..4] == Le(0x0605_4b50, 4);
    QuadAt(w, 0, 0x0605_4b50);
    assert file[q..q + |w|][0] == w[0] && file[q..q + |w|][1] == w[1];
    assert file[q..q + |w|][2] == w[2] && file[q..q + |w|][3] == w[3];
  }

  lemma FoundIsEnd(file: Bytes, end: EndOfCentralDir) returns (q: nat)
    requires FindEocd(file) == Some(end)
    ensures EndAt(file, q, end)
  {
    hide SignatureAt, FindSignature, EndOfCentralDir.Written, ReadEocd, EndOfCentralDir.Ok, Signature;
    var d := |file| - |Tail(file)|;
    var r := FindSignature(Tail(file), |Tail(file)| - 4);
    q := d + r;
    WrittenReadEocd(Tail(file)[r..]);
    assert Tail(file)[r..] == file[q..];
    SignatureFits(file);
    forall j | q < j < |file| ensures !Signature(file, j) {
      if j + 4 <= |file| { SignatureInTail(file, d, j - d); }
    }
  }

  lemma SignatureFits(file: Bytes)
    ensures forall j: nat :: Signature(file, j) ==> j + 4 <= |file|
  {
  }

  lemma SignatureBehind(file: Bytes, pos: nat)
    ensures EocdAtPos(file, pos) <==> Signature(file, pos)
  {
    if pos + 4 <= |file| {
      SignatureBytes(file, pos);
      assert file[pos..pos + 4] == From(file, pos)[0..4];
    }
  }

  // ---------- the main result ----------

  /** Such a file parses to its rows without the directories. */
  lemma ZipParses(file: Bytes, q: nat, end: EndOfCentralDir, rows: seq<Entry>)
    requires IsZip(file, q, end, rows) && |file| < 0x8000_0000_0000_0000
    ensures ParseApk(file) == if AllNamed(rows) then Done(Kept(rows)) else Undefined
  {
    hide FindEocd, ReadEntries, EndAt, RowsAt, Signature, EocdAtPos, Kept, AllNamed;
    EndFound(file, q, end);
    RowsRead(file, end.centralDirOffset, rows);
    SignatureBehind(file, RowsEnd(end.centralDirOffset, rows));
    OffsetInFile(file, end.centralDirOffset, rows);
  }

  lemma {:induction false} OffsetInFile(file: Bytes, pos: nat, rows: seq<Entry>)
    requires Signature(file, RowsEnd(pos, rows))
    ensures pos <= |file|
    decreases |rows|
  {
    hide CentralEntry.Written;
    if rows != [] { OffsetInFile(file, pos + |rows[0].cde.Written()|, rows[1..]); }
  }

  lemma ParsedParts(file: Bytes, end: EndOfCentralDir)
    requires ParseApk(file).Done? && FindEocd(file) == Some(end)
    ensures end.diskNumber == end.diskWithCentralDir == 0 && end.numEntries == end.totalNumEntries
    ensures var r := ReadEntries(file, end.centralDirOffset, end.totalNumEntries);
      r.Done? && ParseApk(file) == Done(r.value.0) && EocdAtPos(file, r.value.1)
  {
    hide FindEocd, ReadEntries, EocdAtPos;
  }

  /** parse_apk gives entries exactly for the zip files whose rows all have a name, and it gives the rows that
      name files. */
  lemma ParsesExactly(file: Bytes, es: seq<Entry>)
    requires |file| < 0x8000_0000_0000_0000
    ensures ParseApk(file) == Done(es) <==>
      exists q, end, rows :: IsZip(file, q, end, rows) && AllNamed(rows) && es == Kept(rows)
  {
    hide *;
    forall q, end, rows | IsZip(file, q, end, rows)
      ensures ParseApk(file) == if AllNamed(rows) then Done(Kept(rows)) else Undefined
    {
      ZipParses(file, q, end, rows);
    }
    if ParseApk(file) == Done(es) {
      var q, end, rows := ZipOf(file, es);
    }
  }

  lemma ZipOf(file: Bytes, es: seq<Entry>) returns (q: nat, end: EndOfCentralDir, rows: seq<Entry>)
    requires |file| < 0x8000_0000_0000_0000 && ParseApk(file) == Done(es)
    ensures IsZip(file, q, end, rows) && AllNamed(rows) && es == Kept(rows)
  {
    hide FindEocd, ReadEntries, EndAt, RowsAt, Signature, EocdAtPos, Kept, AllNamed, ParseApk;
    assert FindEocd(file).Some? by { ParsedFound(file); }
    end := FindEocd(file).value;
    ParsedParts(file, end);
    q := FoundIsEnd(file, end);
    rows := ReadAreRows(file, end.centralDirOffset, end.totalNumEntries);
    RowsRead(file, end.centralDirOffset, rows);
    SignatureBehind(file, RowsEnd(end.centralDirOffset, rows));
  }

  lemma ParsedFound(file: Bytes)
    requires ParseApk(file).Done?
    ensures FindEocd(file).Some?
  {
  }

  // ---------- files put together ----------

  function Table(rows: seq<Entry>): Bytes {
    if rows == [] then [] else rows[0].cde.Written() + Table(rows[1..])
  }

  /** An end record; the size of the directory is not looked at. */
  function Closing(n: nat, size: Bytes, offset: nat, comment: Bytes): Bytes {
    [0x50, 0x4b, 0x05, 0x06, 0, 0, 0, 0] + Le(n, 2) + Le(n, 2) + size + Le(offset, 4) + Le(|comment|, 2) + comment
  }

  lemma ClosingStarts()
    ensures Le(0x0605_4b50, 4) + Le(0, 2) + Le(0, 2) == [0x50, 0x4b, 0x05, 0x06, 0, 0, 0, 0]
  {
    hide Le;
    LeFour(0x0605_4b50);
    LeTwo(0);
  }

  lemma ClosingIs(n: nat, size: Bytes, offset: nat, comment: Bytes)
    requires |size| == 4
    ensures Closing(n, size, offset, comment)
            == EndOfCentralDir(0, 0, n, n, GetField(4, size), offset, comment).Written()
  {
    hide Le, GetField, EndOfCentralDir.Written;
    EocdBytes(EndOfCentralDir(0, 0, n, n, GetField(4, size), offset, comment));
    PutGet(4, size);
    ClosingStarts();
  }

  lemma ClosingOk(n: nat, size: Bytes, offset: nat, comment: Bytes)
    requires n < 0x1_0000 && |size| == 4 && offset < 0x8000_0000 && |comment| < 0x1_0000
    ensures EndOfCentralDir(0, 0, n, n, GetField(4, size), offset, comment).Ok()
  {
    hide Size, GetField;
    EocdSize();
    PutGet(4, size);
    var e, l := EndOfCentralDir(0, 0, n, n, GetField(4, size), offset, comment), EocdLayout();
    forall i | 0 <= i < |l| ensures FieldOk(l[i], e.Fields()[i]) {}
  }

  lemma {:induction false} TableAt(file: Bytes, pos: nat, rows: seq<Entry>)
    requires Holds(file, pos, Table(rows))
    requires forall e :: e in rows ==> HeaderOf(file, e)
    ensures RowsAt(file, pos, rows) && RowsEnd(pos, rows) == pos + |Table(rows)|
    decreases |rows|
  {
    hide CentralEntry.Written, LocalHeader.Written, CentralEntry.Ok, LocalHeader.Ok;
    if rows != [] {
      var w, rest := rows[0].cde.Written(), Table(rows[1..]);
      HoldsBoth(file, pos, w, rest);
      assert HeaderOf(file, rows[0]);
      TableAt(file, pos + |w|, rows[1..]);
    }
  }

  lemma HoldsBoth(s: Bytes, o: nat, a: Bytes, b: Bytes)
    requires Holds(s, o, a + b)
    ensures Holds(s, o, a) && Holds(s, o + |a|, b)
  {
    assert s[o..o + |a|] == (a + b)[..|a|];
    assert s[o + |a|..o + |a| + |b|] == (a + b)[|a|..];
  }

  /** Any bytes, a directory whose local headers are among them, an end record, and a little more: parsing gives
      the rows that name files, in order, unless the signature is spelled again further back. */
  lemma PutTogether(pre: Bytes, rows: seq<Entry>, size: Bytes, comment: Bytes, after: Bytes, file: Bytes)
    requires |size| == 4
    requires file == pre + Table(rows) + Closing(|rows|, size, |pre|, comment) + after
    requires |file| < 0x8000_0000_0000_0000
    requires |pre| < 0x8000_0000 && |rows| < 65536 && |comment| + |after| <= 65535
    requires forall e :: e in rows ==> HeaderOf(file, e) && e.cde.fileName != []
    requires forall j :: |pre| + |Table(rows)| < j < |file| ==> !Signature(file, j)
    ensures ParseApk(file) == Done(Kept(rows))
  {
    hide *;
    var q := |pre| + |Table(rows)|;
    var end := EndOfCentralDir(0, 0, |rows|, |rows|, GetField(4, size), |pre|, comment);
    ClosingIs(|rows|, size, |pre|, comment);
    ClosingOk(|rows|, size, |pre|, comment);
    FourParts(pre, Table(rows), end.Written(), after);
    TableAt(file, |pre|, rows);
    EndsThere(file, q, end, after);
    RecordStarts(file, q, end);
    ThisZip(file, q, end, rows);
    ZipParses(file, q, end, rows);
    NamedRows(rows);
  }

  lemma NamedRows(rows: seq<Entry>)
    requires forall e :: e in rows ==> e.cde.fileName != []
    ensures AllNamed(rows)
  {
  }

  lemma EndsThere(file: Bytes, q: nat, end: EndOfCentralDir, after: Bytes)
    requires end.Ok() && Holds(file, q, end.Written()) && |file| == q + |end.Written()| + |after|
    requires |end.comment| + |after| <= 65535 && forall j :: q < j < |file| ==> !Signature(file, j)
    ensures EndAt(file, q, end)
  {
    hide EndOfCentralDir.Ok, Signature;
  }

  lemma ThisZip(file: Bytes, q: nat, end: EndOfCentralDir, rows: seq<Entry>)
    requires EndAt(file, q, end) && end.diskNumber == end.diskWithCentralDir == 0
    requires end.numEntries == end.totalNumEntries == |rows|
    requires RowsAt(file, end.centralDirOffset, rows) && RowsEnd(end.centralDirOffset, rows) == q && Signature(file, q)
    ensures IsZip(file, q, end, rows)
  {
  }

  lemma FourParts(a: Bytes, b: Bytes, c: Bytes, d: Bytes)
    ensures Holds(a + b + c + d, |a|, b) && Holds(a + b + c + d, |a| + |b|, c)
    ensures |a + b + c + d| == |a| + |b| + |c| + |d|
  {
  }

  /** Without the signature in the last 65557 bytes a file is no zip file. */
  lemma NoSignature(file: Bytes)
    requires forall j :: 0 <= j < |file| && |file| - 65557 <= j ==> !Signature(file, j)
    ensures ParseApk(file) == Failed
  {
    hide *;
    if FindEocd(file) == None {
      ParseNone(file);
    } else {
      var q := FoundIsEnd(file, FindEocd(file).value);
      TooFar(file, q, FindEocd(file).value);
    }
  }

  lemma TooFar(file: Bytes, q: nat, end: EndOfCentralDir)
    requires EndAt(file, q, end)
    ensures |file| - 65557 <= q < |file| && Signature(file, q)
  {
    RecordStarts(file, q, end);
  }
}
