/** Where ShadowZip::init (zip/shadow_zip.cpp) puts the entries of the merged directory. The entry
    objects change as they are placed, which matters when one of them is placed again. */
module ShadowPlaces {
  import opened Bytes
  import opened EndRecordScan
  import opened ShadowLayout
  import opened ShadowMerge
  import opened ShadowParse
  import opened ZipFormat
  import opened ZipParse

  const NO_ENTRY := Entry(LocalHeader(0, 0, 0, 0, 0, 0, 0, 0, [], []),
                          CentralEntry(0, 0, 0, 0, 0, 0, 0, 0, 0, 0, 0, 0, 0, [], [], []))

  function EntryAt(lists: Lists, r: Ref): Entry {
    if InLists(lists, r) then lists[r.file][r.index] else NO_ENTRY
  }

  /** The entry object of r: table holds those that placing has changed. */
  function Current(table: map<Ref, Entry>, lists: Lists, r: Ref): Entry {
    if r in table then table[r] else EntryAt(lists, r)
  }

  datatype Laid = Laid(table: map<Ref, Entry>, body: Bytes)

  /** The entry objects and the virtual file after placing refs in order. */
  function Lay(lists: Lists, files: seq<Bytes>, refs: seq<Ref>): Laid {
    if refs == [] then Laid(map[], []) else
    LayOne(Lay(lists, files, refs[..|refs| - 1]), lists, files, refs[|refs| - 1])
  }

  function LayOne(before: Laid, lists: Lists, files: seq<Bytes>, r: Ref): Laid {
    var e, at := Current(before.table, lists, r), |before.body|;
    Laid(before.table[r := MovedTo(e, at)], before.body + RawPiece(e, FileOf(files, r.file), at))
  }

  /** Each entry object lies inside its file when its turn comes. */
  predicate AllFit(lists: Lists, files: seq<Bytes>, refs: seq<Ref>) {
    refs != [] ==>
      AllFit(lists, files, refs[..|refs| - 1])
      && CanTake(Lay(lists, files, refs[..|refs| - 1]).table, lists, files, refs[|refs| - 1])
  }

  predicate CanTake(table: map<Ref, Entry>, lists: Lists, files: seq<Bytes>, r: Ref) {
    r.file < |files| && r.file != HEADERS && Fits(Current(table, lists, r), FileOf(files, r.file))
  }

  /** The list of entry objects, as they are in the end. */
  function Listed(table: map<Ref, Entry>, lists: Lists, refs: seq<Ref>): (ms: seq<Entry>)
    ensures |ms| == |refs| && forall k :: 0 <= k < |refs| ==> ms[k] == Current(table, lists, refs[k])
  {
    seq(|refs|, k requires 0 <= k < |refs| => Current(table, lists, refs[k]))
  }

  /** Body, directory, end record. */
  function Finished(laid: Laid, lists: Lists, refs: seq<Ref>): Bytes {
    laid.body + Ending(Listed(laid.table, lists, refs), |laid.body|)
  }

  function Ending(ms: seq<Entry>, offset: nat): Bytes {
    var dir := Directory(ms);
    dir + EndRecord(|ms|, |dir|, offset).Written()
  }

  lemma LayPush(lists: Lists, files: seq<Bytes>, refs: seq<Ref>, r: Ref)
    ensures Lay(lists, files, refs + [r]) == LayOne(Lay(lists, files, refs), lists, files, r)
    ensures AllFit(lists, files, refs + [r]) <==>
      AllFit(lists, files, refs) && CanTake(Lay(lists, files, refs).table, lists, files, r)
  {
    hide LayOne, CanTake;
    assert (refs + [r])[..|refs|] == refs;
  }

  lemma OneLength(laid: Laid, lists: Lists, files: seq<Bytes>, r: Ref, e: Entry)
    requires CanTake(laid.table, lists, files, r) && e == Current(laid.table, lists, r)
    ensures |laid.body| + e.lfh.Len() <= |LayOne(laid, lists, files, r).body|
  {
    hide RawPiece, MovedTo, Current, Fits, Padding, Padded, LocalHeader.Written, LocalHeader.Len, Entry.FileOffset,
      Entry.EntryEnd;
    RawPieceIs(e, files[r.file], |laid.body|);
  }

  /** Placing goes on from any point. */
  lemma {:induction false} LayPrefix(lists: Lists, files: seq<Bytes>, refs: seq<Ref>, full: seq<Ref>)
    requires refs <= full
    ensures Lay(lists, files, refs).body <= Lay(lists, files, full).body
    ensures AllFit(lists, files, full) ==> AllFit(lists, files, refs)
    decreases |full|
  {
    hide RawPiece, FileOf, CanTake, Current, MovedTo;
    if |refs| < |full| {
      LayPrefix(lists, files, refs, full[..|full| - 1]);
    } else {
      assert refs == full;
    }
  }

  // ---------- every entry placed once ----------

  function Sources(lists: Lists, refs: seq<Ref>): (es: seq<Source>)
    ensures |es| == |refs| && forall i :: 0 <= i < |refs| ==> es[i] == Source(EntryAt(lists, refs[i]), refs[i].file)
  {
    if refs == [] then [] else
    var last := refs[|refs| - 1];
    Sources(lists, refs[..|refs| - 1]) + [Source(EntryAt(lists, last), last.file)]
  }

  lemma SourcesPush(lists: Lists, refs: seq<Ref>, r: Ref)
    ensures Sources(lists, refs + [r]) == Sources(lists, refs) + [Source(EntryAt(lists, r), r.file)]
  {
    assert (refs + [r])[..|refs|] == refs;
  }

  lemma BodyPush(es: seq<Source>, files: seq<Bytes>, s: Source)
    ensures Body(es + [s], files) == Body(es, files) + Piece(s.entry, FileOf(files, s.file), |Body(es, files)|)
  {
    hide Piece, FileOf, Merged;
    assert (es + [s])[..|es|] == es;
  }

  lemma MovedPush(es: seq<Source>, files: seq<Bytes>, s: Source)
    ensures Merged(es + [s], files) == Merged(es, files) + [MovedTo(s.entry, |Body(es, files)|)]
  {
    hide Pieces, Concat, MovedTo;
    var more := es + [s];
    assert more[..|es|] == es;
    forall k | 0 <= k < |es| ensures Merged(more, files)[k] == Merged(es, files)[k] {
      assert more[..k] == es[..k];
    }
  }

  lemma ListedPush(table: map<Ref, Entry>, lists: Lists, refs: seq<Ref>, r: Ref, e: Entry)
    requires r !in refs
    ensures Listed(table[r := e], lists, refs + [r]) == Listed(table, lists, refs) + [e]
  {
    hide EntryAt;
    forall k | 0 <= k < |refs| ensures Current(table[r := e], lists, refs[k]) == Current(table, lists, refs[k]) {
      assert refs[k] in refs;
    }
  }

  /** Only placed entries have changed. */
  lemma {:induction false} TableOf(lists: Lists, files: seq<Bytes>, refs: seq<Ref>)
    ensures forall r :: r in Lay(lists, files, refs).table <==> r in refs
  {
    hide RawPiece, FileOf, MovedTo, Current;
    if refs != [] {
      TableOf(lists, files, refs[..|refs| - 1]);
      assert refs == refs[..|refs| - 1] + [refs[|refs| - 1]];
    }
  }

  /** All entries are in files other than the one for changed headers, and good. */
  predicate AllSound(lists: Lists, files: seq<Bytes>, refs: seq<Ref>) {
    forall r :: r in refs ==> r.file < |files| && r.file != HEADERS && Good(EntryAt(lists, r), FileOf(files, r.file))
  }

  lemma SoundSources(lists: Lists, files: seq<Bytes>, refs: seq<Ref>)
    requires AllSound(lists, files, refs)
    ensures AllGood(Sources(lists, refs), files)
  {
    hide Good, EntryAt, FileOf;
    assert forall k :: 0 <= k < |refs| ==> refs[k] in refs;
  }

  /** Then each entry object is still as it was read when its turn comes, and what is laid out is
      the body and the directory of the merged entries. */
  lemma {:induction false} LaidOnce(lists: Lists, files: seq<Bytes>, refs: seq<Ref>)
    requires NoRepeat(refs) && AllSound(lists, files, refs)
    ensures AllFit(lists, files, refs)
    ensures var laid := Lay(lists, files, refs);
      && laid.body == Body(Sources(lists, refs), files)
      && Listed(laid.table, lists, refs) == Merged(Sources(lists, refs), files)
  {
    hide *;
    if refs == [] {
      LaidNone(lists, files);
    } else {
      var init, r := refs[..|refs| - 1], refs[|refs| - 1];
      assert refs == init + [r];
      LastIsNew(init, r);
      SoundInit(lists, files, init, r);
      LaidOnce(lists, files, init);
      var laid, es, e := Lay(lists, files, init), Sources(lists, init), EntryAt(lists, r);
      LayPush(lists, files, init, r);
      TableOf(lists, files, init);
      NextUnchanged(laid, lists, files, r);
      SourcesPush(lists, init, r);
      BodyPush(es, files, Source(e, r.file));
      MovedPush(es, files, Source(e, r.file));
      ListedPush(laid.table, lists, init, r, MovedTo(e, |laid.body|));
    }
  }

  lemma LaidNone(lists: Lists, files: seq<Bytes>)
    ensures AllFit(lists, files, []) && Lay(lists, files, []) == Laid(map[], [])
    ensures Body(Sources(lists, []), files) == [] && Merged(Sources(lists, []), files) == []
    ensures Listed(map[], lists, []) == []
  {
  }

  lemma LastIsNew(init: seq<Ref>, r: Ref)
    requires NoRepeat(init + [r])
    ensures NoRepeat(init) && r !in init
  {
    var refs := init + [r];
    forall i | 0 <= i < |init| ensures init[i] != r { assert refs[i] != refs[|init|]; }
    forall i, j | 0 <= i < j < |init| ensures init[i] != init[j] { assert refs[i] != refs[j]; }
  }

  lemma SoundInit(lists: Lists, files: seq<Bytes>, init: seq<Ref>, r: Ref)
    requires AllSound(lists, files, init + [r])
    ensures AllSound(lists, files, init)
    ensures r.file < |files| && r.file != HEADERS && Good(EntryAt(lists, r), FileOf(files, r.file))
  {
    hide Good, EntryAt, FileOf;
    assert r in init + [r];
  }

  lemma NextUnchanged(laid: Laid, lists: Lists, files: seq<Bytes>, r: Ref)
    requires r !in laid.table && r.file < |files| && r.file != HEADERS
    requires Good(EntryAt(lists, r), FileOf(files, r.file))
    ensures CanTake(laid.table, lists, files, r)
    ensures var e, at := EntryAt(lists, r), |laid.body|;
      LayOne(laid, lists, files, r) ==
      Laid(laid.table[r := MovedTo(e, at)], laid.body + Piece(e, FileOf(files, r.file), at))
  {
    hide EntryAt, FileOf, RawPiece, MovedTo, Piece;
    UnpaddedPiece(EntryAt(lists, r), FileOf(files, r.file), |laid.body|);
  }

  lemma FinishedIs(lists: Lists, files: seq<Bytes>, refs: seq<Ref>)
    requires NoRepeat(refs) && AllSound(lists, files, refs)
    ensures Finished(Lay(lists, files, refs), lists, refs) == Virtual(Sources(lists, refs), files)
  {
    hide Directory, Body, Merged, EndOfCentralDir.Written, Sources, Lay, NoRepeat, AllSound;
    LaidOnce(lists, files, refs);
  }

  // ---------- an entry placed again ----------

  /** Where the virtual file has what was placed at j, and what that is. */
  lemma PlacedAt(lists: Lists, files: seq<Bytes>, refs: seq<Ref>, j: nat, before: Laid, e: Entry)
    requires j < |refs| && AllFit(lists, files, refs)
    requires before == Lay(lists, files, refs[..j]) && e == Current(before.table, lists, refs[j])
    ensures refs[j].file < |files| && Fits(e, files[refs[j].file])
    ensures Holds(Lay(lists, files, refs).body, |before.body|, RawPiece(e, files[refs[j].file], |before.body|))
  {
    hide Lay, AllFit, RawPiece, EntryAt, Fits;
    assert refs[..j + 1] == refs[..j] + [refs[j]];
    LayPrefix(lists, files, refs[..j + 1], refs);
    LayPush(lists, files, refs[..j], refs[j]);
    PrefixHolds(Lay(lists, files, refs).body, before.body, RawPiece(e, files[refs[j].file], |before.body|));
  }

  lemma PrefixHolds(s: Bytes, a: Bytes, w: Bytes)
    requires a + w <= s
    ensures Holds(s, |a|, w)
  {
    assert s[|a|..|a| + |w|] == (a + w)[|a|..];
  }

  /** What happens to an entry object that is placed at i and, as the next time, at j: it was sent to
      place i of the virtual file, and so place j shows what its own file has at that offset. */
  lemma PlacedAgain(lists: Lists, files: seq<Bytes>, refs: seq<Ref>, i: nat, j: nat, e: Entry, first: nat, second: nat)
    requires i < j < |refs| && refs[i] == refs[j] && forall k :: i < k < j ==> refs[k] != refs[j]
    requires AllFit(lists, files, refs)
    requires first == |Lay(lists, files, refs[..i]).body| && second == |Lay(lists, files, refs[..j]).body|
    requires e == Current(Lay(lists, files, refs[..j]).table, lists, refs[j])
    ensures refs[j].file < |files| && Fits(e, files[refs[j].file]) && e.EntryBegin() == first
    ensures var header, file := Padded(e.lfh, Padding(e, second)), files[refs[j].file];
      Holds(Lay(lists, files, refs).body, second,
            if Padding(e, second) == 0 then file[first..e.EntryEnd()]
            else header.Written() + file[first + e.lfh.Len()..e.EntryEnd()])
  {
    hide Lay, Padding, Padded, LocalHeader.Written, Current, Entry.HasDD, AllFit, Holds, RawPiece;
    Untouched(lists, files, refs, i, j);
    PlacedAt(lists, files, refs, j, Lay(lists, files, refs[..j]), e);
    RawPieceIs(e, files[refs[j].file], second);
  }

  /** Between the two the object stays as the first placing left it. */
  lemma {:induction false} Untouched(lists: Lists, files: seq<Bytes>, refs: seq<Ref>, i: nat, j: nat)
    requires i < j <= |refs| && forall k :: i < k < j ==> refs[k] != refs[i]
    ensures var first := Lay(lists, files, refs[..i]);
      var e := MovedTo(Current(first.table, lists, refs[i]), |first.body|);
      Current(Lay(lists, files, refs[..j]).table, lists, refs[i]) == e && e.EntryBegin() == |first.body|
    decreases j
  {
    hide Lay, RawPiece, Padding, Padded, EntryAt, FileOf;
    assert refs[..j] == refs[..j - 1] + [refs[j - 1]];
    LayPush(lists, files, refs[..j - 1], refs[j - 1]);
    if i < j - 1 { Untouched(lists, files, refs, i, j - 1); }
  }
}
