/** Parsing the virtual apk gives back the merged directory. */
module ShadowParse {
  import opened Bytes
  import opened EndRecordScan
  import opened Options
  import opened ShadowLayout
  import opened Stdio
  import opened ZipFormat
  import opened ZipParse

  // ---------- strings of pieces ----------

  function Concat(parts: seq<Bytes>): Bytes {
    if parts == [] then [] else Concat(parts[..|parts| - 1]) + parts[|parts| - 1]
  }

  /** Piece k lies after the pieces before it. */
  lemma {:induction false} ConcatAt(parts: seq<Bytes>, k: nat)
    requires k < |parts|
    ensures var o := |Concat(parts[..k])|;
      && o + |parts[k]| <= |Concat(parts)| && Concat(parts)[o..o + |parts[k]|] == parts[k]
      && |Concat(parts[..k + 1])| == o + |parts[k]|
    decreases |parts|
  {
    assert parts[..k + 1][..k] == parts[..k];
    var init := parts[..|parts| - 1];
    if k < |parts| - 1 {
      assert init[..k] == parts[..k] && init[..k + 1] == parts[..k + 1];
      ConcatAt(init, k);
    } else {
      assert parts[..k] == init && parts[..k + 1] == parts;
    }
  }

  // ---------- the virtual file as a whole ----------

  datatype Source = Source(entry: Entry, file: nat)

  function FileOf(files: seq<Bytes>, i: nat): Bytes {
    if i < |files| then files[i] else []
  }

  predicate AllGood(es: seq<Source>, files: seq<Bytes>) {
    forall k :: 0 <= k < |es| ==> es[k].file < |files| && Good(es[k].entry, FileOf(files, es[k].file))
  }

  /** What each entry contributes, in order. */
  function Pieces(es: seq<Source>, files: seq<Bytes>): (p: seq<Bytes>)
    ensures |p| == |es|
  {
    if es == [] then [] else
    var before := Pieces(es[..|es| - 1], files);
    var last := es[|es| - 1];
    before + [Piece(last.entry, FileOf(files, last.file), |Concat(before)|)]
  }

  /** Where entry k begins. */
  function Place(es: seq<Source>, files: seq<Bytes>, k: nat): nat {
    if k <= |es| then |Concat(Pieces(es[..k], files))| else 0
  }

  /** An entry as the virtual file's own directory has it. */
  function MovedTo(e: Entry, at: nat): Entry {
    Entry(Padded(e.lfh, Padding(e, at)), e.cde.(localHeaderRelOffset := at))
  }

  function Merged(es: seq<Source>, files: seq<Bytes>): (ms: seq<Entry>)
    ensures |ms| == |es| && forall k :: 0 <= k < |es| ==> ms[k] == MovedTo(es[k].entry, Place(es, files, k))
  {
    seq(|es|, k requires 0 <= k < |es| => MovedTo(es[k].entry, Place(es, files, k)))
  }

  function DirectoryParts(ms: seq<Entry>): (p: seq<Bytes>)
    ensures |p| == |ms| && forall k :: 0 <= k < |ms| ==> p[k] == ms[k].cde.Written()
  {
    seq(|ms|, k requires 0 <= k < |ms| => ms[k].cde.Written())
  }

  function Body(es: seq<Source>, files: seq<Bytes>): Bytes {
    Concat(Pieces(es, files))
  }

  function Directory(ms: seq<Entry>): Bytes {
    Concat(DirectoryParts(ms))
  }

  /** Entries, central directory, end record. */
  function Virtual(es: seq<Source>, files: seq<Bytes>): Bytes {
    var body, dir := Body(es, files), Directory(Merged(es, files));
    body + dir + EndRecord(|es|, |dir|, |body|).Written()
  }

  lemma {:induction false} PiecesPrefix(es: seq<Source>, files: seq<Bytes>, k: nat)
    requires k <= |es|
    ensures Pieces(es, files)[..k] == Pieces(es[..k], files)
    decreases |es|
  {
    hide Piece, FileOf, Concat;
    if k < |es| {
      var init := es[..|es| - 1];
      PiecesPrefix(init, files, k);
      assert init[..k] == es[..k];
    } else {
      assert es[..k] == es;
    }
  }

  lemma PieceAt(es: seq<Source>, files: seq<Bytes>, k: nat)
    requires k < |es|
    ensures Pieces(es, files)[k] == Piece(es[k].entry, FileOf(files, es[k].file), Place(es, files, k))
  {
    hide Piece, FileOf, Concat;
    var upto := es[..k + 1];
    PiecesPrefix(es, files, k + 1);
    assert upto[..k] == es[..k] && upto[k] == es[k];
    assert Pieces(es, files)[k] == Pieces(es, files)[..k + 1][k];
  }

  /** Entry k's piece is in the virtual file at its place, ahead of the next one. */
  lemma BodyAt(es: seq<Source>, files: seq<Bytes>, k: nat, piece: Bytes)
    requires k < |es| && piece == Piece(es[k].entry, FileOf(files, es[k].file), Place(es, files, k))
    ensures Holds(Virtual(es, files), Place(es, files, k), piece)
    ensures Place(es, files, k + 1) == Place(es, files, k) + |piece| <= |Body(es, files)|
  {
    hide Piece, FileOf, Directory, EndOfCentralDir.Written, Concat, Pieces;
    var pieces := Pieces(es, files);
    PiecesPrefix(es, files, k);
    PiecesPrefix(es, files, k + 1);
    PieceAt(es, files, k);
    ConcatAt(pieces, k);
    var dir := Directory(Merged(es, files));
    InTheMiddle(Body(es, files), dir, EndRecord(|es|, |dir|, |Body(es, files)|).Written(), Place(es, files, k),
                pieces[k]);
  }

  lemma InTheMiddle(a: Bytes, b: Bytes, c: Bytes, o: nat, w: Bytes)
    requires o + |w| <= |a| && a[o..o + |w|] == w
    ensures Holds(a + b + c, o, w)
  {
    assert (a + b + c)[o..o + |w|] == a[o..o + |w|];
  }

  /** What follows the local header of an entry: its data, and 16 bytes more with bit 3 of the flags. */
  function Behind(e: Entry, src: Bytes): Option<Bytes> {
    var at := e.cde.localHeaderRelOffset + 30 + |e.lfh.fileName| + |e.lfh.extraField|;
    var n := e.cde.compressedSize + if e.lfh.gpBitFlag / 8 % 2 == 1 then 16 else 0;
    if at + n <= |src| then Some(src[at..at + n]) else None
  }

  /** The local header of m is in v where m says, and behind it is what is behind the header of e. */
  predicate InPlace(v: Bytes, m: Entry, e: Entry, src: Bytes) {
    Holds(v, m.cde.localHeaderRelOffset, m.lfh.Written()) && Behind(m, v).Some? && Behind(m, v) == Behind(e, src)
  }

  /** Entry k's local header and data, where the directory says they are. */
  lemma HeaderAndData(es: seq<Source>, files: seq<Bytes>, k: nat, e: Entry, src: Bytes, m: Entry)
    requires k < |es| && es[k].entry == e && FileOf(files, es[k].file) == src && Good(e, src)
    requires m == MovedTo(e, Place(es, files, k))
    ensures m.EntryEnd() == Place(es, files, k + 1) <= |Body(es, files)|
    ensures InPlace(Virtual(es, files), m, e, src)
  {
    hide Good, LocalHeader.Written, Padding, Virtual, Entry.HasDD, Pieces, Concat, Body, Place, FileOf, Behind;
    var v := Virtual(es, files);
    var at := Place(es, files, k);
    GoodRange(e, src);
    var w, d := m.lfh.Written(), Data(e, src);
    BodyAt(es, files, k, w + d);
    SameFlags(e, m);
    TwoInPlace(v, at, w, d);
    BehindIs(e, src);
    BehindIs(m, v);
  }

  lemma BehindIs(e: Entry, src: Bytes)
    requires e.EntryEnd() <= |src|
    ensures Behind(e, src) == Some(Data(e, src)) && Data(e, src) == src[e.FileOffset()..e.EntryEnd()]
  {
  }

  lemma TwoInPlace(v: Bytes, o: nat, w: Bytes, d: Bytes)
    requires Holds(v, o, w + d)
    ensures Holds(v, o, w) && Holds(v, o + |w|, d)
  {
    assert v[o..o + |w|] == (w + d)[..|w|];
    assert v[o + |w|..o + |w| + |d|] == (w + d)[|w|..];
  }

  lemma SameFlags(e: Entry, m: Entry)
    requires m.lfh.gpBitFlag == e.lfh.gpBitFlag && m.cde.compressedSize == e.cde.compressedSize
    ensures m.EntryEnd() - m.FileOffset() == e.EntryEnd() - e.FileOffset()
  {
  }

  // ---------- the directory ----------

  /** Where the directory's entry k begins, from the directory's own start. */
  function Row(ms: seq<Entry>, k: nat): nat {
    if k <= |ms| then |Concat(DirectoryParts(ms)[..k])| else 0
  }

  lemma RowStep(ms: seq<Entry>, k: nat, m: Entry)
    requires k < |ms| && m == ms[k]
    ensures Row(ms, k + 1) == Row(ms, k) + m.cde.Len() <= |Directory(ms)|
    ensures Holds(Directory(ms), Row(ms, k), m.cde.Written())
  {
    hide CentralEntry.Written, Concat;
    ConcatAt(DirectoryParts(ms), k);
    var p := DirectoryParts(ms);
    if k + 1 == |ms| { assert p[..k + 1] == p; } else { RowsFit(p, k + 1); }
  }

  lemma {:induction false} RowsFit(parts: seq<Bytes>, k: nat)
    requires k <= |parts|
    ensures |Concat(parts[..k])| <= |Concat(parts)|
    decreases |parts|
  {
    if k < |parts| {
      RowsFit(parts[..|parts| - 1], k);
      assert parts[..|parts| - 1][..k] == parts[..k];
    } else {
      assert parts[..k] == parts;
    }
  }

  /** The parser can read entry k of the directory, which is ms[k] and no directory. */
  predicate Readable(v: Bytes, start: nat, ms: seq<Entry>, k: nat)
    requires k < |ms|
  {
    && ReadEntry(v, start + Row(ms, k)) == Some(ms[k])
    && !ms[k].IsDirectory() && ms[k].cde.fileName != []
  }

  /** Then it reads any stretch of them. */
  lemma {:induction false} ReadsRows(v: Bytes, start: nat, ms: seq<Entry>, k: nat, n: nat)
    requires k + n <= |ms| && forall j :: k <= j < k + n ==> Readable(v, start, ms, j)
    ensures ReadEntries(v, start + Row(ms, k), n) == Done((ms[k..k + n], start + Row(ms, k + n)))
    decreases n
  {
    hide *;
    if n == 0 {
      ReadsNone(v, start + Row(ms, k));
      assert ms[k..k] == [];
    } else {
      assert Readable(v, start, ms, k);
      RowStep(ms, k, ms[k]);
      ReadsRows(v, start, ms, k + 1, n - 1);
      ReadsOne(v, start, ms, k, n - 1);
      assert [ms[k]] + ms[k + 1..k + n] == ms[k..k + n];
      PrependDone(ms[k], ms[k + 1..k + n], start + Row(ms, k + n));
    }
  }

  lemma ReadsNone(v: Bytes, pos: nat)
    ensures ReadEntries(v, pos, 0) == Done(([], pos))
  {
  }

  lemma ReadsOne(v: Bytes, start: nat, ms: seq<Entry>, k: nat, n: nat)
    requires k < |ms| && Readable(v, start, ms, k)
    ensures ReadEntries(v, start + Row(ms, k), n + 1)
            == Prepend([ms[k]], ReadEntries(v, start + Row(ms, k) + ms[k].cde.Len(), n))
  {
    hide ReadEntry, Entry.IsDirectory, Row;
  }

  lemma PrependDone(e: Entry, rest: seq<Entry>, pos: nat)
    ensures Prepend([e], Done((rest, pos))) == Done(([e] + rest, pos))
  {
  }

  lemma MovedOk(e: Entry, file: Bytes, at: nat)
    requires Good(e, file) && at < 0x8000_0000
    ensures MovedTo(e, at).lfh.Ok() && MovedTo(e, at).cde.Ok()
    ensures !MovedTo(e, at).IsDirectory() && e.cde.fileName != []
  {
    hide FieldOk, Padding, Entry.HasDD, ReadLocal;
    WrittenReadLocal(file[e.EntryBegin()..]);
    PaddedOk(e.lfh, Padding(e, at));
    OffsetOk(e.cde, at);
  }

  lemma PaddedOk(h: LocalHeader, padding: nat)
    requires h.Ok() && |h.extraField| + padding < 0x1_0000
    ensures Padded(h, padding).Ok()
  {
    hide Size;
    LfhSize();
    var f, g, l := h.Fields(), Padded(h, padding).Fields(), LfhLayout();
    assert FieldOk(l[10], g[10]);
    forall i | 0 <= i < |l| ensures FieldOk(l[i], g[i]) {
      if i < 10 { assert g[i] == f[i]; }
    }
  }

  lemma OffsetOk(c: CentralEntry, at: nat)
    requires c.Ok() && at < 0x8000_0000
    ensures c.(localHeaderRelOffset := at).Ok()
  {
    hide Size;
    CdeSize();
    var f, g, l := c.Fields(), c.(localHeaderRelOffset := at).Fields(), CdeLayout();
    assert FieldOk(l[16], g[16]);
    forall i | 0 <= i < |l| ensures FieldOk(l[i], g[i]) {
      if i < 16 { assert g[i] == f[i]; }
    }
  }

  /** Every row of the virtual file's directory is readable. */
  lemma AllReadable(es: seq<Source>, files: seq<Bytes>, k: nat)
    requires k < |es| && AllGood(es, files) && |Virtual(es, files)| < 0x8000_0000
    ensures Readable(Virtual(es, files), |Body(es, files)|, Merged(es, files), k)
  {
    hide Virtual, Body, Good, Place, Row, CentralEntry.Written, LocalHeader.Written, ReadLocal, ReadCentral,
      CentralEntry.Ok,
      LocalHeader.Ok, Padding, FileOf, Entry.IsDirectory, Entry.HasDD, Padded;
    var e, src := es[k].entry, FileOf(files, es[k].file);
    var ms, v, start := Merged(es, files), Virtual(es, files), |Body(es, files)|;
    var at := Place(es, files, k);
    var m := MovedTo(e, at);
    assert Good(e, src);
    HeaderAndData(es, files, k, e, src, m);
    GoodRange(e, src);
    BodyFits(es, files);
    MovedOk(e, src, at);
    RowAt(es, files, k, m);
    PrefixAt(v, start + Row(ms, k), m.cde.Written());
    PrefixAt(v, at, m.lfh.Written());
    ReadWrittenCentral(m.cde, v[start + Row(ms, k) + |m.cde.Written()|..]);
    ReadWrittenLocal(m.lfh, v[at + |m.lfh.Written()|..]);
  }

  lemma BodyFits(es: seq<Source>, files: seq<Bytes>)
    ensures |Body(es, files)| + |Directory(Merged(es, files))| + EOCD_LEN == |Virtual(es, files)|
  {
    hide Body, Directory, EndOfCentralDir.Written;
  }

  lemma RowAt(es: seq<Source>, files: seq<Bytes>, k: nat, m: Entry)
    requires k < |es| && m == MovedTo(es[k].entry, Place(es, files, k))
    ensures Holds(Virtual(es, files), |Body(es, files)| + Row(Merged(es, files), k), m.cde.Written())
  {
    hide Body, Directory, EndOfCentralDir.Written, CentralEntry.Written, Place, Row, Padded, Padding;
    var ms := Merged(es, files);
    RowStep(ms, k, m);
    AfterStart(Body(es, files), Directory(ms), EndRecord(|es|, |Directory(ms)|, |Body(es, files)|).Written(),
               Row(ms, k), m.cde.Written());
  }

  lemma AfterStart(a: Bytes, b: Bytes, c: Bytes, o: nat, w: Bytes)
    requires Holds(b, o, w)
    ensures Holds(a + b + c, |a| + o, w)
  {
    assert (a + b + c)[|a| + o..|a| + o + |w|] == b[o..o + |w|];
  }

  /** A merged entry has another offset and, if it is stored, at most three zero bytes more in its extra field,
      so that its data starts on a multiple of four in the virtual file. */
  lemma MergedIsAligned(es: seq<Source>, files: seq<Bytes>, k: nat, e: Entry, m: Entry)
    requires k < |es| && AllGood(es, files) && e == es[k].entry && m == Merged(es, files)[k]
    ensures m.cde == e.cde.(localHeaderRelOffset := m.cde.localHeaderRelOffset)
    ensures m.lfh == e.lfh.(extraField := m.lfh.extraField)
    ensures e.lfh.extraField <= m.lfh.extraField && |m.lfh.extraField| < |e.lfh.extraField| + 4
    ensures forall i :: |e.lfh.extraField| <= i < |m.lfh.extraField| ==> m.lfh.extraField[i] == 0
    ensures e.cde.compressionMethod != 0 ==> m.lfh.extraField == e.lfh.extraField
    ensures e.cde.compressionMethod == 0 ==>
      (m.cde.localHeaderRelOffset + 30 + |m.lfh.fileName| + |m.lfh.extraField|) % 4 == 0
  {
    hide Padding, Place, Entry.IsDirectory, Entry.HasDD, ReadLocal;
    var at := Place(es, files, k);
    assert Good(e, FileOf(files, es[k].file));
    PaddingWhen(e, at);
    assert m == MovedTo(e, at);
  }

  lemma PaddingWhen(e: Entry, at: nat)
    requires !e.IsDirectory()
    ensures e.cde.compressionMethod != 0 ==> Padding(e, at) == 0
    ensures e.cde.compressionMethod == 0 ==>
      (at + 30 + |e.lfh.fileName| + |e.lfh.extraField| + Padding(e, at)) % 4 == 0
  {
    hide Entry.IsDirectory, Padding;
    if e.cde.compressionMethod == 0 { StoredIsAligned(e, at); } else { NoPadding(e, at); }
  }

  lemma NoPadding(e: Entry, at: nat)
    requires e.IsCompressed()
    ensures Padding(e, at) == 0
  {
  }

  // ---------- the main result ----------

  lemma EndsWithRecord(es: seq<Source>, files: seq<Bytes>, v: Bytes, n: nat, size: nat, offset: nat)
    requires v == Virtual(es, files) && n == |es|
    requires offset == |Body(es, files)| && size == |Directory(Merged(es, files))|
    ensures |v| == offset + size + EOCD_LEN && v[|v| - EOCD_LEN..] == EndRecord(n, size, offset).Written()
    ensures From(v, offset + size) == EndRecord(n, size, offset).Written()
  {
    hide Body, Directory, EndOfCentralDir.Written, Merged;
  }

  lemma WholeRows(ms: seq<Entry>)
    ensures Row(ms, 0) == 0 && Row(ms, |ms|) == |Directory(ms)|
  {
    assert DirectoryParts(ms)[..|ms|] == DirectoryParts(ms);
  }

  lemma RecordThere(v: Bytes, pos: nat, n: nat, size: nat, offset: nat)
    requires From(v, pos) == EndRecord(n, size, offset).Written()
    ensures EocdAtPos(v, pos)
  {
    hide EndOfCentralDir.Written;
    var w := EndRecord(n, size, offset).Written();
    StartSpelled(n, size, offset, w);
    SignatureBytes(w, 0);
  }

  lemma RowThere(v: Bytes, pos: nat, c: CentralEntry)
    requires Holds(v, pos, c.Written())
    ensures !EocdAtPos(v, pos)
  {
    hide PutAll, CentralEntry.Written, Size;
    var w := c.Written();
    FirstField(c);
    PrefixAt(v, pos, w);
    GetPut(4, CDE_SIGNATURE);
    assert From(v, pos)[0..4] == w[0..4];
  }

  lemma FirstField(c: CentralEntry)
    ensures |c.Written()| >= 4 && c.Written()[0..4] == Le(CDE_SIGNATURE, 4)
  {
    hide PutAll, Le, Size;
    CdeOffsets();
    PutAt(CdeLayout(), c.Fields(), 0);
    assert c.Written()[0..4] == PutAll(CdeLayout(), c.Fields())[0..4];
  }

  lemma ParseSome(v: Bytes, n: nat, size: nat, offset: nat, entries: seq<Entry>, pos: nat)
    requires FindEocd(v) == Some(EndRecord(n, size, offset)) && offset < 0x8000_0000
    requires ReadEntries(v, offset, n % 0x1_0000) == Done((entries, pos))
    ensures ParseApk(v) == if EocdAtPos(v, pos) then Done(entries) else Failed
  {
    hide FindEocd, ReadEntries, EocdAtPos;
  }

  /** Parsing the virtual file gives exactly the merged entries, with their new offsets, when
      their number fits 16 bits and the end record does not spell its signature twice;
      otherwise parsing fails. */
  lemma VirtualParses(es: seq<Source>, files: seq<Bytes>)
    requires AllGood(es, files) && |Virtual(es, files)| < 0x8000_0000
    ensures ParseApk(Virtual(es, files)) ==
      if |es| < 0x1_0000 && !FalseSignature(|es|, |Directory(Merged(es, files))|, |Body(es, files)|)
      then Done(Merged(es, files)) else Failed
  {
    hide *;
    var v, ms := Virtual(es, files), Merged(es, files);
    var n, size, offset := |es|, |Directory(ms)|, |Body(es, files)|;
    EndsWithRecord(es, files, v, n, size, offset);
    ScanFinds(v, n, size, offset);
    var m := n % 0x1_0000;
    if FalseSignature(m, size, offset) {
      ParseNone(v);
    } else {
      forall k | 0 <= k < m ensures Readable(v, offset, ms, k) {
        AllReadable(es, files, k);
      }
      WholeRows(ms);
      ReadsRows(v, offset, ms, 0, m);
      ParseSome(v, n, size, offset, ms[0..m], offset + Row(ms, m));
      if n < 0x1_0000 {
        assert ms[0..n] == ms;
        RecordThere(v, offset + size, n, size, offset);
      } else {
        RowAt(es, files, m, ms[m]);
        RowThere(v, offset + Row(ms, m), ms[m].cde);
      }
    }
  }
}
