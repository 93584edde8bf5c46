/** What is lost when ShadowZip::init (zip/shadow_zip.cpp) places an entry object twice: parsing the
    virtual apk no longer gives back the merged entries. */
module ShadowRepeats {
  import opened Bytes
  import opened EndRecordScan
  import opened Options
  import opened ShadowLayout
  import opened ShadowMerge
  import opened ShadowParse
  import opened ShadowPlaces
  import opened Stdio
  import opened ZipFormat
  import opened ZipParse

  // ---------- rows as the parser sees them ----------

  lemma {:induction false} ReadsAtMost(v: Bytes, pos: nat, n: nat)
    requires ReadEntries(v, pos, n).Done?
    ensures |ReadEntries(v, pos, n).value.0| <= n
    decreases n
  {
    hide ReadEntry, Entry.IsDirectory;
    if n > 0 { ReadsAtMost(v, pos + ReadEntry(v, pos).value.cde.Len(), n - 1); }
  }

  /** The directory's row k is there and can be read. */
  predicate RowReads(v: Bytes, start: nat, ms: seq<Entry>, k: nat)
    requires k < |ms|
  {
    ReadCentral(From(v, start + Row(ms, k))) == Some(ms[k].cde)
  }

  /** One row, when no entry is left out. */
  lemma RowIs(v: Bytes, pos: nat, n: nat, c: CentralEntry)
    requires n > 0 && ReadCentral(From(v, pos)) == Some(c)
    requires ReadEntries(v, pos, n).Done? && |ReadEntries(v, pos, n).value.0| == n
    ensures var rest := ReadEntries(v, pos + c.Len(), n - 1);
      && rest.Done? && |rest.value.0| == n - 1
      && ReadEntries(v, pos, n).value.0[1..] == rest.value.0 && ReadEntries(v, pos, n).value.0[0].cde == c
  {
    hide ReadCentral, ReadLocal, Entry.IsDirectory, CentralEntry.Len;
    ReadsAtMost(v, pos + c.Len(), n - 1);
  }

  /** Parsing that leaves no entry out gives entries with the fields of the rows. */
  lemma {:induction false} RowsAre(v: Bytes, start: nat, ms: seq<Entry>, k: nat, n: nat, i: nat)
    requires i < n && k + n <= |ms| && forall j :: k <= j < k + n ==> RowReads(v, start, ms, j)
    requires ReadEntries(v, start + Row(ms, k), n).Done? && |ReadEntries(v, start + Row(ms, k), n).value.0| == n
    ensures ReadEntries(v, start + Row(ms, k), n).value.0[i].cde == ms[k + i].cde
    decreases n
  {
    hide *;
    var pos, c := start + Row(ms, k), ms[k].cde;
    RowReadsIs(v, start, ms, k);
    RowStep(ms, k, ms[k]);
    RowIs(v, pos, n, c);
    if i > 0 {
      assert pos + c.Len() == start + Row(ms, k + 1);
      RowsAre(v, start, ms, k + 1, n - 1, i - 1);
      assert ReadEntries(v, pos, n).value.0[1..][i - 1] == ReadEntries(v, pos, n).value.0[i];
    }
  }

  lemma RowReadsIs(v: Bytes, start: nat, ms: seq<Entry>, k: nat)
    requires k < |ms| && RowReads(v, start, ms, k)
    ensures ReadCentral(From(v, start + Row(ms, k))) == Some(ms[k].cde)
  {
  }

  lemma ParsedMeans(v: Bytes, e: EndOfCentralDir, entries: seq<Entry>)
    requires ParseApk(v) == Done(entries)
    ensures FindEocd(v).Some?
    ensures FindEocd(v) == Some(e) ==>
      ReadEntries(v, e.centralDirOffset, e.totalNumEntries).Done?
      && ReadEntries(v, e.centralDirOffset, e.totalNumEntries).value.0 == entries
  {
    hide FindEocd, ReadEntries;
  }

  // ---------- the rows of what was laid out ----------

  /** An entry object keeps all its fields but the offset, which points into the body. */
  lemma {:induction false} OnlyMoved(lists: Lists, files: seq<Bytes>, refs: seq<Ref>, r: Ref)
    requires r in refs
    ensures var laid := Lay(lists, files, refs);
      var m := Current(laid.table, lists, r);
      m.cde == EntryAt(lists, r).cde.(localHeaderRelOffset := m.EntryBegin()) && m.EntryBegin() <= |laid.body|
  {
    hide RawPiece, EntryAt, FileOf, Padded, Padding;
    var init, last := refs[..|refs| - 1], refs[|refs| - 1];
    assert refs == init + [last];
    if r in init { OnlyMoved(lists, files, init, r); }
    if last !in init { TableOf(lists, files, init); }
    if last in init && r == last { OnlyMoved(lists, files, init, last); }
  }

  lemma RowIsThere(body: Bytes, ms: seq<Entry>, k: nat)
    requires k < |ms| && ms[k].cde.Ok()
    ensures RowReads(body + Ending(ms, |body|), |body|, ms, k)
  {
    hide Directory, EndOfCentralDir.Written, CentralEntry.Written, CentralEntry.Ok, Row, ReadCentral;
    var dir := Directory(ms);
    var end := EndRecord(|ms|, |dir|, |body|).Written();
    var v, w := body + (dir + end), ms[k].cde.Written();
    RowStep(ms, k, ms[k]);
    AfterStart(body, dir, end, Row(ms, k), w);
    assert body + dir + end == v;
    PrefixAt(v, |body| + Row(ms, k), w);
    ReadWrittenCentral(ms[k].cde, v[|body| + Row(ms, k) + |w|..]);
  }

  lemma RowsAreThere(lists: Lists, files: seq<Bytes>, refs: seq<Ref>, k: nat)
    requires AllSound(lists, files, refs) && k < |refs|
    requires |Finished(Lay(lists, files, refs), lists, refs)| < 0x8000_0000
    ensures var laid := Lay(lists, files, refs);
      RowReads(Finished(laid, lists, refs), |laid.body|, Listed(laid.table, lists, refs), k)
  {
    hide Lay, Ending, Good, RowReads, EntryAt, CentralEntry.Ok, Current;
    var laid := Lay(lists, files, refs);
    assert refs[k] in refs;
    OnlyMoved(lists, files, refs, refs[k]);
    SoundFields(lists, files, refs, refs[k]);
    OffsetOk(EntryAt(lists, refs[k]).cde, Current(laid.table, lists, refs[k]).EntryBegin());
    RowIsThere(laid.body, Listed(laid.table, lists, refs), k);
  }

  lemma SoundFields(lists: Lists, files: seq<Bytes>, refs: seq<Ref>, r: Ref)
    requires AllSound(lists, files, refs) && r in refs
    ensures EntryAt(lists, r).cde.Ok()
  {
    hide EntryAt, CentralEntry.Ok, ReadLocal;
  }

  lemma EndsInRecord(body: Bytes, ms: seq<Entry>)
    ensures var v := body + Ending(ms, |body|);
      && |v| == |body| + |Directory(ms)| + EOCD_LEN
      && v[|v| - EOCD_LEN..] == EndRecord(|ms|, |Directory(ms)|, |body|).Written()
  {
    hide Directory, EndOfCentralDir.Written;
  }

  /** When parsing gives as many entries as were placed, they have the offsets in the rows. */
  lemma ParsedRows(lists: Lists, files: seq<Bytes>, refs: seq<Ref>, entries: seq<Entry>, i: nat)
    requires AllSound(lists, files, refs) && |entries| == |refs| && i < |refs|
    requires |Finished(Lay(lists, files, refs), lists, refs)| < 0x8000_0000
    requires ParseApk(Finished(Lay(lists, files, refs), lists, refs)) == Done(entries)
    ensures entries[i].cde == Current(Lay(lists, files, refs).table, lists, refs[i]).cde
  {
    hide *;
    var laid := Lay(lists, files, refs);
    var ms := Listed(laid.table, lists, refs);
    var v, n, size := Finished(laid, lists, refs), |refs|, |Directory(ms)|;
    FinishedEnds(laid, lists, refs);
    ScanFinds(v, n, size, |laid.body|);
    ParsedMeans(v, EndRecord(n, size, |laid.body|), entries);
    RecordFields(n, size, |laid.body|);
    ReadsAtMost(v, |laid.body|, n % 0x1_0000);
    WholeRows(ms);
    forall k | 0 <= k < n ensures RowReads(v, |laid.body|, ms, k) { RowsAreThere(lists, files, refs, k); }
    RowsAre(v, |laid.body|, ms, 0, n, i);
  }

  lemma FinishedEnds(laid: Laid, lists: Lists, refs: seq<Ref>)
    ensures var v, ms := Finished(laid, lists, refs), Listed(laid.table, lists, refs);
      && |ms| == |refs| && |v| == |laid.body| + |Directory(ms)| + EOCD_LEN
      && v[|v| - EOCD_LEN..] == EndRecord(|refs|, |Directory(ms)|, |laid.body|).Written()
  {
    hide Ending, Directory, EndOfCentralDir.Written;
    EndsInRecord(laid.body, Listed(laid.table, lists, refs));
  }

  lemma RecordFields(n: nat, size: nat, offset: nat)
    requires size < 0x8000_0000 && offset < 0x8000_0000
    ensures EndRecord(n, size, offset).centralDirOffset == offset
    ensures EndRecord(n, size, offset).totalNumEntries == n % 0x1_0000
  {
  }

  // ---------- two places for one object ----------

  /** The first object that is placed again, and the last time it is. */
  lemma {:induction false} FindRepeat(refs: seq<Ref>) returns (i: nat)
    requires !NoRepeat(refs)
    ensures i < |refs| && NoRepeat(refs[..i]) && refs[i] in refs[i + 1..]
  {
    var init, last := refs[..|refs| - 1], refs[|refs| - 1];
    if NoRepeat(init) {
      assert last in init;
      i :| 0 <= i < |init| && init[i] == last;
      assert refs[i + 1..][|refs| - 1 - (i + 1)] == last;
      assert refs[..i] == init[..i];
    } else {
      i := FindRepeat(init);
      assert refs[..i] == init[..i];
      assert refs[i + 1..] == init[i + 1..] + [last];
    }
  }

  lemma {:induction false} FindLast(refs: seq<Ref>, r: Ref) returns (j: nat)
    requires r in refs
    ensures j < |refs| && refs[j] == r && forall k :: j < k < |refs| ==> refs[k] != r
  {
    if refs[|refs| - 1] == r { j := |refs| - 1; } else { j := FindLast(refs[..|refs| - 1], r); }
  }

  lemma SourcesPrefix(lists: Lists, full: seq<Ref>, refs: seq<Ref>)
    requires refs <= full
    ensures Sources(lists, full)[..|refs|] == Sources(lists, refs)
  {
    hide Sources, EntryAt;
  }

  /** Where the merged directory wants entry i, if none was placed twice before it. */
  lemma WantedAt(lists: Lists, files: seq<Bytes>, refs: seq<Ref>, i: nat)
    requires i < |refs| && NoRepeat(refs[..i]) && AllSound(lists, files, refs)
    ensures Merged(Sources(lists, refs), files)[i].EntryBegin() == |Lay(lists, files, refs[..i]).body|
  {
    hide Lay, Sources, Pieces, Concat, AllSound, NoRepeat, Padded, Padding, EntryAt;
    assert AllSound(lists, files, refs[..i]) by { SoundPrefix(lists, files, refs, i); }
    LaidOnce(lists, files, refs[..i]);
    SourcesPrefix(lists, refs, refs[..i]);
  }

  lemma SoundPrefix(lists: Lists, files: seq<Bytes>, refs: seq<Ref>, i: nat)
    requires i <= |refs| && AllSound(lists, files, refs)
    ensures AllSound(lists, files, refs[..i])
  {
    hide Good, EntryAt, FileOf;
    assert forall r :: r in refs[..i] ==> r in refs;
  }

  /** The body grows with every entry. */
  lemma LaterIsHigher(lists: Lists, files: seq<Bytes>, refs: seq<Ref>, i: nat, j: nat)
    requires i < j <= |refs| && AllFit(lists, files, refs)
    ensures |Lay(lists, files, refs[..i]).body| < |Lay(lists, files, refs[..j]).body|
  {
    hide Lay, AllFit, LayOne, CanTake, Current;
    assert refs[..i + 1] == refs[..i] + [refs[i]];
    LayPrefix(lists, files, refs[..i + 1], refs);
    LayPrefix(lists, files, refs[..i + 1], refs[..j]);
    LayPush(lists, files, refs[..i], refs[i]);
    var laid := Lay(lists, files, refs[..i]);
    OneLength(laid, lists, files, refs[i], Current(laid.table, lists, refs[i]));
  }

  /** With an object placed twice, parsing does not give back the merged entries. */
  lemma RepeatBreaks(lists: Lists, files: seq<Bytes>, refs: seq<Ref>)
    requires !NoRepeat(refs) && AllSound(lists, files, refs) && AllFit(lists, files, refs)
    requires |Finished(Lay(lists, files, refs), lists, refs)| < 0x8000_0000
    ensures ParseApk(Finished(Lay(lists, files, refs), lists, refs)) != Done(Merged(Sources(lists, refs), files))
  {
    hide *;
    var merged := Merged(Sources(lists, refs), files);
    if ParseApk(Finished(Lay(lists, files, refs), lists, refs)) == Done(merged) {
      var i := FindRepeat(refs);
      var j := FindLast(refs, refs[i]);
      assert refs[i] in refs[i + 1..];
      assert j > i;
      ParsedRows(lists, files, refs, merged, i);
      WantedAt(lists, files, refs, i);
      Untouched(lists, files, refs, j, |refs|);
      assert refs[..|refs|] == refs;
      LaterIsHigher(lists, files, refs, i, j);
      OffsetOf(merged[i], Current(Lay(lists, files, refs).table, lists, refs[i]));
    }
  }

  lemma OffsetOf(a: Entry, b: Entry)
    requires a.cde == b.cde
    ensures a.EntryBegin() == b.EntryBegin()
  {
  }
}
