/** Reading and writing zip records through a file: zip/ZipEntry.cpp and zip/ZipFile.cpp. */
module ZipRecords {
  import opened Bytes
  import opened Options
  import opened Stdio
  import opened ZipFormat

  function GetShortLE(buf: Bytes, at: nat): nat
    requires at + 2 <= |buf|
  {
    GetField(2, buf[at..at + 2])
  }

  function GetLongLE(buf: Bytes, at: nat): nat
    requires at + 4 <= |buf|
  {
    GetField(4, buf[at..at + 4])
  }

  method ReadLocalHeader(fp: Stream) returns (h: Option<LocalHeader>)
    modifies fp`pos
    ensures h == ReadLocal(old(fp.Ahead()))
    ensures h.Some? ==> fp.pos == old(fp.pos) + h.value.Len()
  {
    hide GetField, GetAll, Size, LfhLayout, From;
    ghost var s := fp.Ahead();
    var buf := fp.Fread(LFH_LEN);
    if |buf| != LFH_LEN { return None; }
    LfhAt(buf);
    if GetLongLE(buf, 0x00) != LFH_SIGNATURE { return None; }
    var nameLength, extraLength := GetShortLE(buf, 0x1a), GetShortLE(buf, 0x1c);
    var name := fp.Fread(nameLength);
    if |name| != nameLength { return None; }
    var extra := fp.Fread(extraLength);
    if |extra| != extraLength { return None; }
    assert name == s[LFH_LEN..LFH_LEN + nameLength];
    assert extra == s[LFH_LEN + nameLength..LFH_LEN + nameLength + extraLength];
    return Some(LocalHeader(GetShortLE(buf, 0x04), GetShortLE(buf, 0x06), GetShortLE(buf, 0x08),
                            GetShortLE(buf, 0x0a), GetShortLE(buf, 0x0c), GetLongLE(buf, 0x0e),
                            GetLongLE(buf, 0x12), GetLongLE(buf, 0x16), name, extra));
  }

  method WriteLocalHeader(h: LocalHeader, fp: Stream)
    requires fp.pos == |fp.data|
    modifies fp
    ensures fp.data == old(fp.data) + h.Written() && fp.pos == |fp.data|
  {
    hide Le, Size, PutAll, LfhLayout;
    ghost var l, f := LfhLayout(), h.Fields();
    LfhOffsets();
    LfhSize();
    LfhWidths();
    var buf: Bytes := seq(LFH_LEN, _ => 0);
    Nothing(l, f, buf);
    PutNext(l, f, buf, 0);
    buf := Put(buf, 0x00, 4, LFH_SIGNATURE);
    PutNext(l, f, buf, 1);
    buf := Put(buf, 0x04, 2, h.versionToExtract);
    PutNext(l, f, buf, 2);
    buf := Put(buf, 0x06, 2, h.gpBitFlag);
    PutNext(l, f, buf, 3);
    buf := Put(buf, 0x08, 2, h.compressionMethod);
    PutNext(l, f, buf, 4);
    buf := Put(buf, 0x0a, 2, h.lastModFileTime);
    PutNext(l, f, buf, 5);
    buf := Put(buf, 0x0c, 2, h.lastModFileDate);
    PutNext(l, f, buf, 6);
    buf := Put(buf, 0x0e, 4, h.crc32);
    PutNext(l, f, buf, 7);
    buf := Put(buf, 0x12, 4, h.compressedSize);
    PutNext(l, f, buf, 8);
    buf := Put(buf, 0x16, 4, h.uncompressedSize);
    PutNext(l, f, buf, 9);
    buf := Put(buf, 0x1a, 2, |h.fileName|);
    PutNext(l, f, buf, 10);
    buf := Put(buf, 0x1c, 2, |h.extraField|);
    Everything(l, f, buf);
    fp.Fwrite(buf);
    fp.Fwrite(h.fileName);
    fp.Fwrite(h.extraField);
  }

  lemma LfhWidths()
    ensures var l := LfhLayout();
      && l[0] == 4 && l[1] == 2 && l[2] == 2 && l[3] == 2 && l[4] == 2 && l[5] == 2 && l[6] == 4 && l[7] == 4
      && l[8] == 4 && l[9] == 2 && l[10] == 2
  {
  }

  lemma Nothing(l: Layout, f: seq<nat>, buf: Bytes)
    requires |f| == |l|
    ensures Size(l[..0]) == 0 && buf[..0] == PutAll(l[..0], f[..0])
  {
  }

  lemma Everything(l: Layout, f: seq<nat>, buf: Bytes)
    requires |f| == |l| && |buf| == Size(l) == Size(l[..|l|]) && buf[..Size(l[..|l|])] == PutAll(l[..|l|], f[..|l|])
    ensures buf == PutAll(l, f)
  {
    assert l[..|l|] == l && f[..|l|] == f;
  }

  method ReadCentralEntry(fp: Stream) returns (c: Option<CentralEntry>)
    modifies fp`pos
    ensures c == ReadCentral(old(fp.Ahead()))
    ensures c.Some? ==> fp.pos == old(fp.pos) + c.value.Len()
  {
    hide GetField, GetAll, Size, CdeLayout, From;
    ghost var s := fp.Ahead();
    var buf := fp.Fread(CDE_LEN);
    if |buf| != CDE_LEN { return None; }
    CdeAt(buf);
    if GetLongLE(buf, 0x00) != CDE_SIGNATURE { return None; }
    var nameLength, extraLength, commentLength :=
      GetShortLE(buf, 0x1c), GetShortLE(buf, 0x1e), GetShortLE(buf, 0x20);
    var name := fp.Fread(nameLength);
    if |name| != nameLength { return None; }
    var extra := fp.Fread(extraLength);
    if |extra| != extraLength { return None; }
    var comment := fp.Fread(commentLength);
    if |comment| != commentLength { return None; }
    ThreeReads(s, buf, name, extra, comment);
    CentralFieldsAre(buf, name, extra, comment);
    return Some(CentralFields(buf, name, extra, comment));
  }

  /** The fields that CentralDirEntry::read takes from the fixed part. */
  function CentralFields(buf: Bytes, name: Bytes, extra: Bytes, comment: Bytes): CentralEntry
    requires |buf| == CDE_LEN
  {
    CentralEntry(GetShortLE(buf, 0x04), GetShortLE(buf, 0x06), GetShortLE(buf, 0x08),
                 GetShortLE(buf, 0x0a), GetShortLE(buf, 0x0c), GetShortLE(buf, 0x0e),
                 GetLongLE(buf, 0x10), GetLongLE(buf, 0x14), GetLongLE(buf, 0x18),
                 GetShortLE(buf, 0x22), GetShortLE(buf, 0x24), GetLongLE(buf, 0x26),
                 GetLongLE(buf, 0x2a), name, extra, comment)
  }

  lemma CentralFieldsAre(buf: Bytes, name: Bytes, extra: Bytes, comment: Bytes)
    requires |buf| == CDE_LEN
    ensures Size(CdeLayout()) == CDE_LEN
    ensures CentralFields(buf, name, extra, comment) == CentralOf(GetAll(CdeLayout(), buf), name, extra, comment)
  {
    hide GetField, GetAll, Size, CdeLayout;
    CdeAt(buf);
  }

  /** Reading on and on is reading the parts of what lay ahead. */
  lemma ThreeReads(s: Bytes, buf: Bytes, name: Bytes, extra: Bytes, comment: Bytes)
    requires |buf| + |name| + |extra| + |comment| <= |s|
    requires buf == s[..|buf|] && name == s[|buf|..][..|name|] && extra == s[|buf|..][|name|..][..|extra|]
    requires comment == s[|buf|..][|name|..][|extra|..][..|comment|]
    ensures var i := |buf| + |name|;
      var j := i + |extra|;
      name == s[|buf|..i] && extra == s[i..j] && comment == s[j..j + |comment|]
  {
  }

  /** The fixed part that CentralDirEntry::write fills in. */
  method FillCentralEntry(c: CentralEntry) returns (buf: Bytes)
    ensures buf == PutAll(CdeLayout(), c.Fields())
  {
    hide Le, Size, PutAll, CdeLayout, Put;
    ghost var l, f := CdeLayout(), c.Fields();
    CdeOffsets();
    CdeSize();
    CdeWidths();
    buf := seq(CDE_LEN, _ => 0);
    Nothing(l, f, buf);
    PutNext(l, f, buf, 0);
    buf := Put(buf, 0x00, 4, CDE_SIGNATURE);
    PutNext(l, f, buf, 1);
    buf := Put(buf, 0x04, 2, c.versionMadeBy);
    PutNext(l, f, buf, 2);
    buf := Put(buf, 0x06, 2, c.versionToExtract);
    PutNext(l, f, buf, 3);
    buf := Put(buf, 0x08, 2, c.gpBitFlag);
    PutNext(l, f, buf, 4);
    buf := Put(buf, 0x0a, 2, c.compressionMethod);
    PutNext(l, f, buf, 5);
    buf := Put(buf, 0x0c, 2, c.lastModFileTime);
    PutNext(l, f, buf, 6);
    buf := Put(buf, 0x0e, 2, c.lastModFileDate);
    PutNext(l, f, buf, 7);
    buf := Put(buf, 0x10, 4, c.crc32);
    PutNext(l, f, buf, 8);
    buf := Put(buf, 0x14, 4, c.compressedSize);
    PutNext(l, f, buf, 9);
    buf := Put(buf, 0x18, 4, c.uncompressedSize);
    PutNext(l, f, buf, 10);
    buf := Put(buf, 0x1c, 2, |c.fileName|);
    PutNext(l, f, buf, 11);
    buf := Put(buf, 0x1e, 2, |c.extraField|);
    PutNext(l, f, buf, 12);
    buf := Put(buf, 0x20, 2, |c.fileComment|);
    PutNext(l, f, buf, 13);
    buf := Put(buf, 0x22, 2, c.diskNumberStart);
    PutNext(l, f, buf, 14);
    buf := Put(buf, 0x24, 2, c.internalAttrs);
    PutNext(l, f, buf, 15);
    buf := Put(buf, 0x26, 4, c.externalAttrs);
    PutNext(l, f, buf, 16);
    buf := Put(buf, 0x2a, 4, c.localHeaderRelOffset);
    Everything(l, f, buf);
  }

  method WriteCentralEntry(c: CentralEntry, fp: Stream)
    requires fp.pos == |fp.data|
    modifies fp
    ensures fp.data == old(fp.data) + c.Written() && fp.pos == |fp.data|
  {
    hide Le, Size, PutAll, CdeLayout;
    var buf := FillCentralEntry(c);
    fp.Fwrite(buf);
    fp.Fwrite(c.fileName);
    fp.Fwrite(c.extraField);
    fp.Fwrite(c.fileComment);
  }

  lemma CdeWidths()
    ensures var l := CdeLayout();
      && l[0] == 4 && l[1] == 2 && l[2] == 2 && l[3] == 2 && l[4] == 2 && l[5] == 2 && l[6] == 2 && l[7] == 4
      && l[8] == 4 && l[9] == 4 && l[10] == 2 && l[11] == 2 && l[12] == 2 && l[13] == 2 && l[14] == 2
      && l[15] == 4 && l[16] == 4
  {
  }

  /** EndOfCentralDir::readBuf. */
  method ReadEndRecord(buf: Bytes) returns (e: Option<EndOfCentralDir>)
    ensures e == ReadEocd(buf)
  {
    hide GetField, GetAll, Size, EocdLayout;
    if |buf| < EOCD_LEN { return None; }
    EocdAt(buf[..EOCD_LEN]);
    assert forall i, j :: 0 <= i <= j <= EOCD_LEN ==> buf[..EOCD_LEN][i..j] == buf[i..j];
    if GetLongLE(buf, 0x00) != EOCD_SIGNATURE { return None; }
    var commentLength := GetShortLE(buf, 0x14);
    var comment: Bytes := [];
    if commentLength > 0 {
      if EOCD_LEN + commentLength > |buf| { return None; }
      comment := buf[EOCD_LEN..EOCD_LEN + commentLength];
    }
    return Some(EndOfCentralDir(GetShortLE(buf, 0x04), GetShortLE(buf, 0x06), GetShortLE(buf, 0x08),
                                GetShortLE(buf, 0x0a), GetLongLE(buf, 0x0c), GetLongLE(buf, 0x10), comment));
  }

  /** EndOfCentralDir::write. With a comment the code takes a count of items for a count of
      bytes and reports failure unless the comment is one byte long; all bytes are written
      all the same. */
  method WriteEndRecord(e: EndOfCentralDir, fp: Stream) returns (ok: bool)
    requires fp.pos == |fp.data| && |e.comment| < 0x1_0000
    modifies fp
    ensures fp.data == old(fp.data) + e.Written() && fp.pos == |fp.data|
    ensures ok <==> |e.comment| <= 1
  {
    hide Le, Size, PutAll, EocdLayout;
    ghost var l, f := EocdLayout(), e.Fields();
    EocdOffsets();
    EocdSize();
    EocdWidths();
    var buf: Bytes := seq(EOCD_LEN, _ => 0);
    Nothing(l, f, buf);
    PutNext(l, f, buf, 0);
    buf := Put(buf, 0x00, 4, EOCD_SIGNATURE);
    PutNext(l, f, buf, 1);
    buf := Put(buf, 0x04, 2, e.diskNumber);
    PutNext(l, f, buf, 2);
    buf := Put(buf, 0x06, 2, e.diskWithCentralDir);
    PutNext(l, f, buf, 3);
    buf := Put(buf, 0x08, 2, e.numEntries);
    PutNext(l, f, buf, 4);
    buf := Put(buf, 0x0a, 2, e.totalNumEntries);
    PutNext(l, f, buf, 5);
    buf := Put(buf, 0x0c, 4, e.centralDirSize);
    PutNext(l, f, buf, 6);
    buf := Put(buf, 0x10, 4, e.centralDirOffset);
    PutNext(l, f, buf, 7);
    buf := Put(buf, 0x14, 2, |e.comment|);
    Everything(l, f, buf);
    fp.Fwrite(buf);
    if |e.comment| > 0 {
      fp.Fwrite(e.comment);
      var itemsWritten := 1;
      if itemsWritten != |e.comment| { return false; }
    }
    return true;
  }

  lemma EocdWidths()
    ensures var l := EocdLayout();
      && l[0] == 4 && l[1] == 2 && l[2] == 2 && l[3] == 2 && l[4] == 2 && l[5] == 4 && l[6] == 4 && l[7] == 2
  {
  }
}
