/** The records of a zip file: zip/ZipEntry.cpp and zip/ZipFile.cpp, after sections 4.3.7,
    4.3.12 and 4.3.16 of PKWARE's APPNOTE.TXT. */
module ZipFormat {
  import opened Bytes
  import opened Options

  const LFH_SIGNATURE: nat := 0x04034b50
  const CDE_SIGNATURE: nat := 0x02014b50
  const EOCD_SIGNATURE: nat := 0x06054b50
  const LFH_LEN: nat := 30
  const CDE_LEN: nat := 46
  const EOCD_LEN: nat := 22

  function LfhLayout(): Layout {
    [4, 2, 2, 2, 2, 2, 4, 4, 4, 2, 2]
  }

  function CdeLayout(): Layout {
    [4, 2, 2, 2, 2, 2, 2, 4, 4, 4, 2, 2, 2, 2, 2, 4, 4]
  }

  function EocdLayout(): Layout {
    [4, 2, 2, 2, 2, 4, 4, 2]
  }

  /** A record of fields followed by three strings, and whatever comes next. */
  lemma SliceThree(fixed: Bytes, a: Bytes, b: Bytes, c: Bytes, rest: Bytes)
    ensures var s := fixed + a + b + c + rest;
      && s[..|fixed|] == fixed
      && s[|fixed|..|fixed| + |a|] == a
      && s[|fixed| + |a|..|fixed| + |a| + |b|] == b
      && s[|fixed| + |a| + |b|..|fixed| + |a| + |b| + |c|] == c
  {
  }

  lemma JoinThree(s: Bytes, n: nat, i: nat, j: nat, k: nat)
    requires n <= i <= j <= k <= |s|
    ensures s[..k] == s[..n] + s[n..i] + s[i..j] + s[j..k]
  {
  }

  // ---------- local file headers ----------

  datatype LocalHeader = LocalHeader(
    versionToExtract: nat, gpBitFlag: nat, compressionMethod: nat, lastModFileTime: nat, lastModFileDate: nat,
    crc32: nat, compressedSize: nat, uncompressedSize: nat, fileName: Bytes, extraField: Bytes)
  {
    function Fields(): (f: seq<nat>)
      ensures |f| == 11
    {
      [LFH_SIGNATURE, versionToExtract, gpBitFlag, compressionMethod, lastModFileTime, lastModFileDate,
       crc32, compressedSize, uncompressedSize, |fileName|, |extraField|]
    }

    /** Every field fits its place in the header. */
    predicate Ok() {
      FieldsOk(LfhLayout(), Fields())
    }

    function Len(): nat {
      LFH_LEN + |fileName| + |extraField|
    }

    function Written(): (s: Bytes)
      ensures |s| == Len()
    {
      LfhSize();
      PutAll(LfhLayout(), Fields()) + fileName + extraField
    }
  }

  lemma LfhSize()
    ensures Size(LfhLayout()) == LFH_LEN && |LfhLayout()| == 11 && IsLayout(LfhLayout())
  {
    hide Size;
    LfhOffsets();
  }

  lemma LfhOffsets()
    ensures var l := LfhLayout();
      && Size(l[..0]) == 0 && Size(l[..1]) == 4 && Size(l[..2]) == 6 && Size(l[..3]) == 8 && Size(l[..4]) == 10
      && Size(l[..5]) == 12 && Size(l[..6]) == 14 && Size(l[..7]) == 18 && Size(l[..8]) == 22 && Size(l[..9]) == 26
      && Size(l[..10]) == 28 && Size(l) == 30
  {
    hide Size;
    var l := LfhLayout();
    NoSize(l);
    SizeStep(l, 0); SizeStep(l, 1); SizeStep(l, 2); SizeStep(l, 3); SizeStep(l, 4); SizeStep(l, 5);
    SizeStep(l, 6); SizeStep(l, 7); SizeStep(l, 8); SizeStep(l, 9); SizeStep(l, 10);
    assert l[..11] == l;
  }

  lemma NoSize(l: Layout)
    ensures Size(l[..0]) == 0
  {
  }

  /** The header at the start of s, if there is one. */
  function ReadLocal(s: Bytes): Option<LocalHeader> {
    LfhSize();
    if |s| < LFH_LEN then None else
    var f := GetAll(LfhLayout(), s[..LFH_LEN]);
    if f[0] != LFH_SIGNATURE || |s| < LFH_LEN + f[9] + f[10] then None else
    Some(LocalHeader(f[1], f[2], f[3], f[4], f[5], f[6], f[7], f[8],
                     s[LFH_LEN..LFH_LEN + f[9]], s[LFH_LEN + f[9]..LFH_LEN + f[9] + f[10]]))
  }

  /** Reading gives back what was written, whatever follows it. */
  lemma ReadWrittenLocal(h: LocalHeader, rest: Bytes)
    requires h.Ok()
    ensures ReadLocal(h.Written() + rest) == Some(h)
  {
    hide FieldOk, PutAll, GetAll, Size, LfhLayout;
    LfhSize();
    var fixed := PutAll(LfhLayout(), h.Fields());
    SliceThree(fixed, h.fileName, h.extraField, [], rest);
    assert h.Written() + [] == h.Written();
    GetAllPutAll(LfhLayout(), h.Fields());
  }

  /** A header that was read is written back byte for byte. */
  lemma WrittenReadLocal(s: Bytes)
    requires ReadLocal(s).Some?
    ensures var h := ReadLocal(s).value; h.Ok() && h.Len() <= |s| && s[..h.Len()] == h.Written()
  {
    hide FieldOk, PutAll, GetAll, Size, LfhLayout;
    LfhSize();
    var h := ReadLocal(s).value;
    PutAllGetAll(LfhLayout(), s[..LFH_LEN]);
    assert GetAll(LfhLayout(), s[..LFH_LEN]) == h.Fields();
    JoinThree(s, LFH_LEN, LFH_LEN + |h.fileName|, h.Len(), h.Len());
  }

  /** The fields of a header, where the code looks for them. */
  lemma LfhAt(s: Bytes)
    requires |s| == LFH_LEN
    ensures Size(LfhLayout()) == LFH_LEN
    ensures var f := GetAll(LfhLayout(), s);
      && f[0] == GetField(4, s[0..4]) && f[1] == GetField(2, s[4..6]) && f[2] == GetField(2, s[6..8])
      && f[3] == GetField(2, s[8..10]) && f[4] == GetField(2, s[10..12]) && f[5] == GetField(2, s[12..14])
      && f[6] == GetField(4, s[14..18]) && f[7] == GetField(4, s[18..22]) && f[8] == GetField(4, s[22..26])
      && f[9] == GetField(2, s[26..28]) && f[10] == GetField(2, s[28..30])
  {
    hide Size, GetAll, GetField;
    LfhOffsets();
    LfhSize();
    var l := LfhLayout();
    FieldAt(l, s, 0); FieldAt(l, s, 1); FieldAt(l, s, 2); FieldAt(l, s, 3); FieldAt(l, s, 4); FieldAt(l, s, 5);
    FieldAt(l, s, 6); FieldAt(l, s, 7); FieldAt(l, s, 8); FieldAt(l, s, 9); FieldAt(l, s, 10);
  }

  /** The bytes of a header, field by field. */
  lemma LocalBytes(h: LocalHeader)
    ensures h.Written() ==
      Le(0x0403_4b50, 4) + Le(h.versionToExtract, 2) + Le(h.gpBitFlag, 2) + Le(h.compressionMethod, 2)
      + Le(h.lastModFileTime, 2) + Le(h.lastModFileDate, 2) + Le(h.crc32, 4) + Le(h.compressedSize, 4)
      + Le(h.uncompressedSize, 4) + Le(|h.fileName|, 2) + Le(|h.extraField|, 2)
      + h.fileName + h.extraField
  {
    hide PutAll, Le, Size;
    var l, f := LfhLayout(), h.Fields();
    PutWhole(l, f);
    PutUpTo(l, f, 0); PutUpTo(l, f, 1); PutUpTo(l, f, 2); PutUpTo(l, f, 3);
    PutUpTo(l, f, 4); PutUpTo(l, f, 5); PutUpTo(l, f, 6); PutUpTo(l, f, 7);
    PutUpTo(l, f, 8); PutUpTo(l, f, 9); PutUpTo(l, f, 10);
  }

  // ---------- central directory entries ----------

  datatype CentralEntry = CentralEntry(
    versionMadeBy: nat, versionToExtract: nat, gpBitFlag: nat, compressionMethod: nat, lastModFileTime: nat,
    lastModFileDate: nat, crc32: nat, compressedSize: nat, uncompressedSize: nat, diskNumberStart: nat,
    internalAttrs: nat, externalAttrs: nat, localHeaderRelOffset: nat,
    fileName: Bytes, extraField: Bytes, fileComment: Bytes)
  {
    function Fields(): (f: seq<nat>)
      ensures |f| == 17
    {
      [CDE_SIGNATURE, versionMadeBy, versionToExtract, gpBitFlag, compressionMethod, lastModFileTime,
       lastModFileDate, crc32, compressedSize, uncompressedSize, |fileName|, |extraField|, |fileComment|,
       diskNumberStart, internalAttrs, externalAttrs, localHeaderRelOffset]
    }

    predicate Ok() {
      FieldsOk(CdeLayout(), Fields())
    }

    function Len(): nat {
      CDE_LEN + |fileName| + |extraField| + |fileComment|
    }

    function Written(): (s: Bytes)
      ensures |s| == Len()
    {
      CdeSize();
      PutAll(CdeLayout(), Fields()) + fileName + extraField + fileComment
    }
  }

  lemma CdeOffsets()
    ensures var l := CdeLayout();
      && Size(l[..0]) == 0 && Size(l[..1]) == 4 && Size(l[..2]) == 6 && Size(l[..3]) == 8 && Size(l[..4]) == 10
      && Size(l[..5]) == 12 && Size(l[..6]) == 14 && Size(l[..7]) == 16 && Size(l[..8]) == 20 && Size(l[..9]) == 24
      && Size(l[..10]) == 28 && Size(l[..11]) == 30 && Size(l[..12]) == 32 && Size(l[..13]) == 34
      && Size(l[..14]) == 36 && Size(l[..15]) == 38 && Size(l[..16]) == 42 && Size(l) == 46
  {
    hide Size;
    var l := CdeLayout();
    NoSize(l);
    SizeStep(l, 0); SizeStep(l, 1); SizeStep(l, 2); SizeStep(l, 3); SizeStep(l, 4); SizeStep(l, 5);
    SizeStep(l, 6); SizeStep(l, 7); SizeStep(l, 8); SizeStep(l, 9); SizeStep(l, 10); SizeStep(l, 11);
    SizeStep(l, 12); SizeStep(l, 13); SizeStep(l, 14); SizeStep(l, 15); SizeStep(l, 16);
    assert l[..17] == l;
  }

  lemma CdeSize()
    ensures Size(CdeLayout()) == CDE_LEN && |CdeLayout()| == 17 && IsLayout(CdeLayout())
  {
    hide Size;
    CdeOffsets();
  }

  lemma CdeAt(s: Bytes)
    requires |s| == CDE_LEN
    ensures Size(CdeLayout()) == CDE_LEN
    ensures var f := GetAll(CdeLayout(), s);
      && f[0] == GetField(4, s[0..4]) && f[1] == GetField(2, s[4..6]) && f[2] == GetField(2, s[6..8])
      && f[3] == GetField(2, s[8..10]) && f[4] == GetField(2, s[10..12]) && f[5] == GetField(2, s[12..14])
      && f[6] == GetField(2, s[14..16]) && f[7] == GetField(4, s[16..20]) && f[8] == GetField(4, s[20..24])
      && f[9] == GetField(4, s[24..28]) && f[10] == GetField(2, s[28..30]) && f[11] == GetField(2, s[30..32])
      && f[12] == GetField(2, s[32..34]) && f[13] == GetField(2, s[34..36]) && f[14] == GetField(2, s[36..38])
      && f[15] == GetField(4, s[38..42]) && f[16] == GetField(4, s[42..46])
  {
    hide Size, GetAll, GetField;
    CdeOffsets();
    CdeSize();
    var l := CdeLayout();
    FieldAt(l, s, 0); FieldAt(l, s, 1); FieldAt(l, s, 2); FieldAt(l, s, 3); FieldAt(l, s, 4); FieldAt(l, s, 5);
    FieldAt(l, s, 6); FieldAt(l, s, 7); FieldAt(l, s, 8); FieldAt(l, s, 9); FieldAt(l, s, 10); FieldAt(l, s, 11);
    FieldAt(l, s, 12); FieldAt(l, s, 13); FieldAt(l, s, 14); FieldAt(l, s, 15); FieldAt(l, s, 16);
  }

  function ReadCentral(s: Bytes): Option<CentralEntry> {
    CdeSize();
    if |s| < CDE_LEN then None else
    var f := GetAll(CdeLayout(), s[..CDE_LEN]);
    if f[0] != CDE_SIGNATURE || |s| < CDE_LEN + f[10] + f[11] + f[12] then None else
    var i, j := CDE_LEN + f[10], CDE_LEN + f[10] + f[11];
    Some(CentralOf(f, s[CDE_LEN..i], s[i..j], s[j..j + f[12]]))
  }

  function CentralOf(f: seq<nat>, name: Bytes, extra: Bytes, comment: Bytes): CentralEntry
    requires |f| == 17
  {
    CentralEntry(f[1], f[2], f[3], f[4], f[5], f[6], f[7], f[8], f[9], f[13], f[14], f[15], f[16],
                 name, extra, comment)
  }

  lemma ReadWrittenCentral(c: CentralEntry, rest: Bytes)
    requires c.Ok()
    ensures ReadCentral(c.Written() + rest) == Some(c)
  {
    hide FieldOk, PutAll, GetAll, Size, CdeLayout;
    CdeSize();
    SliceThree(PutAll(CdeLayout(), c.Fields()), c.fileName, c.extraField, c.fileComment, rest);
    GetAllPutAll(CdeLayout(), c.Fields());
  }

  lemma WrittenReadCentral(s: Bytes)
    requires ReadCentral(s).Some?
    ensures var c := ReadCentral(s).value; c.Ok() && c.Len() <= |s| && s[..c.Len()] == c.Written()
  {
    hide FieldOk, PutAll, GetAll, Size, CdeLayout;
    CdeSize();
    var c := ReadCentral(s).value;
    PutAllGetAll(CdeLayout(), s[..CDE_LEN]);
    assert GetAll(CdeLayout(), s[..CDE_LEN]) == c.Fields();
    var i := CDE_LEN + |c.fileName|;
    JoinThree(s, CDE_LEN, i, i + |c.extraField|, c.Len());
  }

  lemma CentralBytes(c: CentralEntry)
    ensures c.Written() ==
      Le(0x0201_4b50, 4) + Le(c.versionMadeBy, 2) + Le(c.versionToExtract, 2) + Le(c.gpBitFlag, 2)
      + Le(c.compressionMethod, 2) + Le(c.lastModFileTime, 2) + Le(c.lastModFileDate, 2) + Le(c.crc32, 4)
      + Le(c.compressedSize, 4) + Le(c.uncompressedSize, 4) + Le(|c.fileName|, 2) + Le(|c.extraField|, 2)
      + Le(|c.fileComment|, 2) + Le(c.diskNumberStart, 2) + Le(c.internalAttrs, 2) + Le(c.externalAttrs, 4)
      + Le(c.localHeaderRelOffset, 4) + c.fileName + c.extraField + c.fileComment
  {
    hide PutAll, Le, Size;
    var l, f := CdeLayout(), c.Fields();
    PutWhole(l, f);
    PutUpTo(l, f, 0); PutUpTo(l, f, 1); PutUpTo(l, f, 2); PutUpTo(l, f, 3);
    PutUpTo(l, f, 4); PutUpTo(l, f, 5); PutUpTo(l, f, 6); PutUpTo(l, f, 7);
    PutUpTo(l, f, 8); PutUpTo(l, f, 9); PutUpTo(l, f, 10); PutUpTo(l, f, 11);
    PutUpTo(l, f, 12); PutUpTo(l, f, 13); PutUpTo(l, f, 14); PutUpTo(l, f, 15);
    PutUpTo(l, f, 16);
  }

  // ---------- the end of central directory record ----------

  datatype EndOfCentralDir = EndOfCentralDir(
    diskNumber: nat, diskWithCentralDir: nat, numEntries: nat, totalNumEntries: nat,
    centralDirSize: nat, centralDirOffset: nat, comment: Bytes)
  {
    function Fields(): (f: seq<nat>)
      ensures |f| == 8
    {
      [EOCD_SIGNATURE, diskNumber, diskWithCentralDir, numEntries, totalNumEntries, centralDirSize,
       centralDirOffset, |comment|]
    }

    predicate Ok() {
      FieldsOk(EocdLayout(), Fields())
    }

    function Written(): (s: Bytes)
      ensures |s| == EOCD_LEN + |comment|
    {
      EocdSize();
      PutAll(EocdLayout(), Fields()) + comment
    }
  }

  lemma EocdOffsets()
    ensures var l := EocdLayout();
      && Size(l[..0]) == 0 && Size(l[..1]) == 4 && Size(l[..2]) == 6 && Size(l[..3]) == 8 && Size(l[..4]) == 10
      && Size(l[..5]) == 12 && Size(l[..6]) == 16 && Size(l[..7]) == 20 && Size(l) == 22
  {
    hide Size;
    var l := EocdLayout();
    NoSize(l);
    SizeStep(l, 0); SizeStep(l, 1); SizeStep(l, 2); SizeStep(l, 3); SizeStep(l, 4); SizeStep(l, 5);
    SizeStep(l, 6); SizeStep(l, 7);
    assert l[..8] == l;
  }

  lemma EocdSize()
    ensures Size(EocdLayout()) == EOCD_LEN && |EocdLayout()| == 8 && IsLayout(EocdLayout())
  {
    hide Size;
    EocdOffsets();
  }

  lemma EocdAt(s: Bytes)
    requires |s| == EOCD_LEN
    ensures Size(EocdLayout()) == EOCD_LEN
    ensures var f := GetAll(EocdLayout(), s);
      && f[0] == GetField(4, s[0..4]) && f[1] == GetField(2, s[4..6]) && f[2] == GetField(2, s[6..8])
      && f[3] == GetField(2, s[8..10]) && f[4] == GetField(2, s[10..12]) && f[5] == GetField(4, s[12..16])
      && f[6] == GetField(4, s[16..20]) && f[7] == GetField(2, s[20..22])
  {
    hide Size, GetAll, GetField;
    EocdOffsets();
    EocdSize();
    var l := EocdLayout();
    FieldAt(l, s, 0); FieldAt(l, s, 1); FieldAt(l, s, 2); FieldAt(l, s, 3); FieldAt(l, s, 4); FieldAt(l, s, 5);
    FieldAt(l, s, 6); FieldAt(l, s, 7);
  }

  function ReadEocd(s: Bytes): Option<EndOfCentralDir> {
    EocdSize();
    if |s| < EOCD_LEN then None else
    var f := GetAll(EocdLayout(), s[..EOCD_LEN]);
    if f[0] != EOCD_SIGNATURE || |s| < EOCD_LEN + f[7] then None else
    Some(EndOfCentralDir(f[1], f[2], f[3], f[4], f[5], f[6], s[EOCD_LEN..EOCD_LEN + f[7]]))
  }

  lemma ReadWrittenEocd(e: EndOfCentralDir, rest: Bytes)
    requires e.Ok()
    ensures ReadEocd(e.Written() + rest) == Some(e)
  {
    hide FieldOk, PutAll, GetAll, Size, EocdLayout;
    EocdSize();
    SliceThree(PutAll(EocdLayout(), e.Fields()), e.comment, [], [], rest);
    assert e.Written() + [] + [] == e.Written();
    GetAllPutAll(EocdLayout(), e.Fields());
  }

  lemma EocdBytes(e: EndOfCentralDir)
    ensures e.Written() ==
      Le(0x0605_4b50, 4) + Le(e.diskNumber, 2) + Le(e.diskWithCentralDir, 2) + Le(e.numEntries, 2)
      + Le(e.totalNumEntries, 2) + Le(e.centralDirSize, 4) + Le(e.centralDirOffset, 4) + Le(|e.comment|, 2) + e.comment
  {
    hide PutAll, Le, Size;
    var l, f := EocdLayout(), e.Fields();
    PutWhole(l, f);
    PutUpTo(l, f, 0); PutUpTo(l, f, 1); PutUpTo(l, f, 2); PutUpTo(l, f, 3);
    PutUpTo(l, f, 4); PutUpTo(l, f, 5); PutUpTo(l, f, 6); PutUpTo(l, f, 7);
  }

  /** A record that was read is written back byte for byte. */
  lemma WrittenReadEocd(s: Bytes)
    requires ReadEocd(s).Some?
    ensures var e := ReadEocd(s).value;
      e.Ok() && EOCD_LEN + |e.comment| <= |s| && s[..EOCD_LEN + |e.comment|] == e.Written()
  {
    hide FieldOk, PutAll, GetAll, Size, EocdLayout;
    EocdSize();
    var e := ReadEocd(s).value;
    PutAllGetAll(EocdLayout(), s[..EOCD_LEN]);
    assert GetAll(EocdLayout(), s[..EOCD_LEN]) == e.Fields();
    var n := EOCD_LEN + |e.comment|;
    JoinThree(s, EOCD_LEN, n, n, n);
  }
}
