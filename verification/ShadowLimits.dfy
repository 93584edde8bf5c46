/** Inputs that show the conditions on the virtual apk are needed: parsing it fails or gives other
    entries although every entry is good and the file is small enough, or a removed name stays. */
module ShadowLimits {
  import opened Bytes
  import opened EndRecordScan
  import opened Options
  import opened ShadowInit
  import opened ShadowLayout
  import opened ShadowLoad
  import opened ShadowMerge
  import opened ShadowParse
  import opened ShadowPlaces
  import opened ZipFormat
  import opened ZipParse

  const DEFLATED: nat := 8
  const NAME: Bytes := [0x61]
  const HEADER := LocalHeader(20, 0, DEFLATED, 0, 0, 0, 0, 0, NAME, [])

  /** A deflated file named "a". */
  function Plain(size: nat): Entry {
    Entry(HEADER, CentralEntry(20, 20, 0, DEFLATED, 0, 0, 0, size, size, 0, 0, 0, 0, NAME, [], []))
  }

  /** A file that begins with it; the apk and the file for changed headers come first. */
  function FilesWith(size: nat): seq<Bytes> {
    [[], [], HEADER.Written() + Zeros(size)]
  }

  function Copies(size: nat, n: nat): (es: seq<Source>)
    ensures |es| == n && forall i :: 0 <= i < n ==> es[i] == Source(Plain(size), 2)
  {
    seq(n, _ => Source(Plain(size), 2))
  }

  lemma HeaderOk()
    ensures HEADER.Ok()
  {
    hide Size;
    LfhSize();
  }

  lemma PlainOk(size: nat)
    requires size < 0x8000_0000
    ensures Plain(size).cde.Ok()
  {
    hide Size;
    CdeSize();
  }

  lemma PlainGood(size: nat)
    requires size < 0x7000_0000
    ensures Good(Plain(size), FilesWith(size)[2])
  {
    hide LocalHeader.Written, ReadLocal, LocalHeader.Ok, CentralEntry.Ok, Zeros;
    HeaderOk();
    PlainOk(size);
    var file := FilesWith(size)[2];
    ReadWrittenLocal(HEADER, Zeros(size));
    assert file[0..] == file;
    assert NAME[1..] == [];
    assert CName(NAME) == NAME;
  }

  /** Each contributes its header and its data. */
  lemma PlainPiece(size: nat, at: nat)
    requires size < 0x7000_0000
    ensures |Piece(Plain(size), FilesWith(size)[2], at)| == LFH_LEN + 1 + size
  {
    hide Good, LocalHeader.Written;
    PlainGood(size);
    GoodRange(Plain(size), FilesWith(size)[2]);
    assert HEADER.extraField + Zeros(0) == HEADER.extraField;
  }

  lemma {:induction false} CopiesLength(size: nat, n: nat)
    requires size < 0x7000_0000
    ensures |Body(Copies(size, n), FilesWith(size))| == n * (LFH_LEN + 1 + size)
    ensures |Directory(Merged(Copies(size, n), FilesWith(size)))| == n * (CDE_LEN + 1)
  {
    hide Piece, Plain, FilesWith, Body, Directory, Merged, MovedTo;
    var files := FilesWith(size);
    if n == 0 {
      NoCopies(files);
      assert Copies(size, 0) == [];
    } else {
      var es, s := Copies(size, n - 1), Source(Plain(size), 2);
      CopiesLength(size, n - 1);
      assert Copies(size, n) == es + [s];
      BodyPush(es, files, s);
      MovedPush(es, files, s);
      PlainPiece(size, |Body(es, files)|);
      ThirdFile(size);
      OneRow(Merged(es, files), size, |Body(es, files)|);
    }
  }

  lemma ThirdFile(size: nat)
    ensures |FilesWith(size)| == 3 && FileOf(FilesWith(size), 2) == FilesWith(size)[2]
  {
  }

  lemma NoCopies(files: seq<Bytes>)
    ensures Body([], files) == [] && Merged([], files) == [] && Directory([]) == []
  {
  }

  lemma OneRow(ms: seq<Entry>, size: nat, at: nat)
    ensures |Directory(ms + [MovedTo(Plain(size), at)])| == |Directory(ms)| + CDE_LEN + 1
  {
    hide CentralEntry.Written;
    var m := MovedTo(Plain(size), at);
    assert DirectoryParts(ms + [m])[..|ms|] == DirectoryParts(ms);
  }

  lemma CopiesGood(size: nat, n: nat)
    requires size < 0x7000_0000
    ensures AllGood(Copies(size, n), FilesWith(size))
  {
    hide Good, Plain;
    PlainGood(size);
  }

  /** With 65536 entries the count wraps to 0, and the parser looks for the end record where the first
      row is. */
  lemma TooMany()
    ensures var es, files := Copies(0, 0x1_0000), FilesWith(0);
      && AllGood(es, files) && |Virtual(es, files)| < 0x8000_0000
      && ParseApk(Virtual(es, files)) == Failed
  {
    hide AllGood, Virtual, ParseApk, Body, Directory, Merged, Copies, FilesWith, FalseSignature;
    CopiesGood(0, 0x1_0000);
    CopiesLength(0, 0x1_0000);
    BodyFits(Copies(0, 0x1_0000), FilesWith(0));
    VirtualParses(Copies(0, 0x1_0000), FilesWith(0));
  }

  const SPELLING: nat := EOCD_SIGNATURE - LFH_LEN - 1

  /** A single entry whose size puts the directory at the offset that reads like the signature. */
  lemma SpelledAgain()
    ensures var es, files := Copies(SPELLING, 1), FilesWith(SPELLING);
      && AllGood(es, files) && |Virtual(es, files)| < 0x8000_0000
      && FalseSignature(1, |Directory(Merged(es, files))|, |Body(es, files)|)
      && ParseApk(Virtual(es, files)) == Failed
  {
    hide AllGood, Virtual, ParseApk, Body, Directory, Merged, Copies, FilesWith;
    CopiesGood(SPELLING, 1);
    CopiesLength(SPELLING, 1);
    BodyFits(Copies(SPELLING, 1), FilesWith(SPELLING));
    VirtualParses(Copies(SPELLING, 1), FilesWith(SPELLING));
  }

  // ---------- a replaced name that occurs twice ----------

  /** A file with n entries named "a". */
  function Zip(size: nat, n: nat): Bytes {
    Virtual(Copies(size, n), FilesWith(size))
  }

  predicate IsPlain(e: Entry, file: Bytes) {
    e.Name() == NAME && e.IsCompressed() && e.cde.Len() == CDE_LEN + 1 && Fits(e, file)
  }

  /** A small file that parses to n entries named "a", the first of them at its beginning. */
  predicate PlainZip(z: Bytes, n: nat) {
    && |z| < 1000 && Parses(z) && |EntriesOf(z)| == n && (forall k :: 0 <= k < n ==> IsPlain(EntriesOf(z)[k], z))
    && (n > 0 ==> EntriesOf(z)[0].EntryBegin() == 0)
  }

  lemma NameIs()
    ensures CName(NAME) == NAME
  {
    assert NAME[1..] == [];
  }

  lemma MovedPlain(size: nat, at: nat)
    ensures var e := MovedTo(Plain(size), at);
      && e.Name() == NAME && e.IsCompressed() && e.cde.Len() == CDE_LEN + 1
      && e.EntryBegin() == at && e.lfh.extraField == []
  {
    NameIs();
  }

  lemma FirstPlace(es: seq<Source>, files: seq<Bytes>)
    ensures Place(es, files, 0) == 0
  {
  }

  lemma SmallFits(e: Entry, file: Bytes)
    requires |file| < 0x8000_0000 && e.EntryEnd() <= |file| && e.lfh.extraField == []
    ensures Fits(e, file)
  {
  }

  lemma ZipEntry(size: nat, n: nat, k: nat)
    requires size < 100 && k < n <= 2 && |Zip(size, n)| < 1000
    ensures IsPlain(Merged(Copies(size, n), FilesWith(size))[k], Zip(size, n))
    ensures k == 0 ==> Merged(Copies(size, n), FilesWith(size))[k].EntryBegin() == 0
  {
    hide Virtual, Body, Place, Good, FilesWith, MovedTo, InPlace, Entry.EntryEnd, Entry.EntryBegin, Entry.Name,
      CentralEntry.Len, Plain, Fits, Entry.IsCompressed, Directory;
    var es, files := Copies(size, n), FilesWith(size);
    var at := Place(es, files, k);
    var e := MovedTo(Plain(size), at);
    PlainGood(size);
    ThirdFile(size);
    BodyFits(es, files);
    HeaderAndData(es, files, k, Plain(size), FileOf(files, 2), e);
    MovedPlain(size, at);
    FirstPlace(es, files);
    SmallFits(e, Zip(size, n));
  }

  lemma ZipIsPlain(size: nat, n: nat)
    requires size < 100 && 0 < n <= 2
    ensures PlainZip(Zip(size, n), n)
  {
    hide AllGood, Virtual, ParseApk, Body, Directory, Merged, Copies, FilesWith, IsPlain;
    CopiesGood(size, n);
    CopiesLength(size, n);
    BodyFits(Copies(size, n), FilesWith(size));
    VirtualParses(Copies(size, n), FilesWith(size));
    forall k | 0 <= k < n ensures IsPlain(EntriesOf(Zip(size, n))[k], Zip(size, n)) { ZipEntry(size, n, k); }
    ZipEntry(size, n, 0);
  }

  lemma PlainContained(z: Bytes, n: nat)
    requires PlainZip(z, n)
    ensures Contained(z)
  {
    hide EntriesOf, Fits, Entry.Name, Entry.IsCompressed, Parses;
    forall e | e in EntriesOf(z) ensures Fits(e, z) {
      var k :| 0 <= k < n && EntriesOf(z)[k] == e;
      assert IsPlain(EntriesOf(z)[k], z);
    }
  }

  const PATCHED := Ref(2, 0)

  /** The apk has the name twice, the one patch has it once. */
  lemma TwiceNames(apk: Bytes, patch: Bytes)
    requires PlainZip(apk, 2) && PlainZip(patch, 1)
    ensures var lists := ListsOf(apk, [patch]);
      && |lists| == 3 && lists[1] == [] && lists[2] == EntriesOf(patch) && |lists[2]| == 1 && |lists[0]| == 2
      && NameOf(lists, Ref(0, 0)) == NAME && NameOf(lists, Ref(0, 1)) == NAME && NameOf(lists, PATCHED) == NAME
  {
    hide EntriesOf, Entry.Name, Fits, Entry.IsCompressed, Parses;
    assert IsPlain(EntriesOf(apk)[0], apk) && IsPlain(EntriesOf(apk)[1], apk) && IsPlain(EntriesOf(patch)[0], patch);
  }

  /** So the patch's entry is placed twice. */
  lemma TwiceOrder(lists: Lists)
    requires |lists| == 3 && lists[1] == [] && |lists[2]| == 1 && |lists[0]| == 2
    requires NameOf(lists, Ref(0, 0)) == NAME && NameOf(lists, Ref(0, 1)) == NAME && NameOf(lists, PATCHED) == NAME
    ensures PatchRefs(lists) == [PATCHED] && IndexOf(lists, [PATCHED], {}) == map[NAME := PATCHED]
    ensures Order(lists, {}, map[NAME := PATCHED]) == [PATCHED, PATCHED]
    ensures !PatchedOnce(lists, {}, map[NAME := PATCHED]) && !Shared(lists, [PATCHED], {})
  {
    hide NameOf;
    var index := map[NAME := PATCHED];
    PatchRefsSplit(lists);
    NoPatchRefs(lists[..2]);
    assert RefsOf(2, 1) == [PATCHED];
    assert FirstPass(lists, {}, index, 1) == [PATCHED];
    assert FirstPass(lists, {}, index, 2) == [PATCHED, PATCHED];
    assert Unused([PATCHED], [PATCHED, PATCHED]) == [];
    assert IndexOf(lists, [], {}) == map[];
  }

  lemma PlaceOnce(laid: Laid, lists: Lists, files: seq<Bytes>, e: Entry)
    requires |files| > 2 && |files[2]| < 1000 && e == Current(laid.table, lists, PATCHED)
    requires e.IsCompressed() && Fits(e, files[2])
    ensures CanTake(laid.table, lists, files, PATCHED)
    ensures var more := LayOne(laid, lists, files, PATCHED);
      |more.body| <= |laid.body| + 1000 && Current(more.table, lists, PATCHED) == MovedTo(e, |laid.body|)
  {
    hide EntryAt, LocalHeader.Written, Fits, MovedTo;
    RawPieceIs(e, files[2], |laid.body|);
  }

  lemma StaysPlain(e: Entry, file: Bytes, at: nat)
    requires IsPlain(e, file)
    ensures MovedTo(e, at).IsCompressed() && MovedTo(e, at).cde.Len() == CDE_LEN + 1
    ensures e.EntryBegin() == at ==> Fits(MovedTo(e, at), file)
  {
    hide Entry.Name;
    assert e.lfh.extraField + Zeros(0) == e.lfh.extraField;
  }

  lemma TwoRows(ms: seq<Entry>)
    requires |ms| == 2 && ms[0].cde.Len() == ms[1].cde.Len() == CDE_LEN + 1
    ensures |Directory(ms)| == 2 * (CDE_LEN + 1)
  {
    hide Row, CentralEntry.Written, Directory;
    WholeRows(ms);
    RowStep(ms, 0, ms[0]);
    RowStep(ms, 1, ms[1]);
  }

  /** It goes to the beginning of the virtual file and, at its new offset 0, to the place behind. */
  lemma TwiceLaid(lists: Lists, files: seq<Bytes>, refs: seq<Ref>, e: Entry)
    requires |files| > 2 && |files[2]| < 1000 && EntryAt(lists, PATCHED) == e && IsPlain(e, files[2])
    requires e.EntryBegin() == 0 && refs == [PATCHED, PATCHED]
    ensures AllFit(lists, files, refs) && |Finished(Lay(lists, files, refs), lists, refs)| < 0x8000_0000
  {
    hide EntryAt, Lay, LayOne, CanTake, IsPlain, MovedTo, Ending, Directory, CentralEntry.Len, Entry.IsCompressed,
      Entry.EntryBegin;
    NothingLaid(lists, files);
    StaysPlain(e, files[2], 0);
    IsPlainMeans(e, files[2]);
    assert [] + [PATCHED] == [PATCHED] && [PATCHED] + [PATCHED] == refs;
    LayPush(lists, files, [], PATCHED);
    LayPush(lists, files, [PATCHED], PATCHED);
    var one := Lay(lists, files, [PATCHED]);
    var two := Lay(lists, files, refs);
    PlaceOnce(Lay(lists, files, []), lists, files, e);
    PlaceOnce(one, lists, files, MovedTo(e, 0));
    MovedLength(MovedTo(e, 0), |one.body|);
    TwoRows(Listed(two.table, lists, refs));
    EndingLength(Listed(two.table, lists, refs), |two.body|);
  }

  lemma NothingLaid(lists: Lists, files: seq<Bytes>)
    ensures AllFit(lists, files, []) && Lay(lists, files, []) == Laid(map[], [])
    ensures Current(map[], lists, PATCHED) == EntryAt(lists, PATCHED)
  {
    hide EntryAt;
  }

  lemma IsPlainMeans(e: Entry, file: Bytes)
    requires IsPlain(e, file)
    ensures e.IsCompressed() && Fits(e, file) && e.cde.Len() == CDE_LEN + 1
  {
  }

  lemma MovedLength(e: Entry, at: nat)
    ensures MovedTo(e, at).cde.Len() == e.cde.Len()
  {
  }

  /** An apk with a name twice that a patch has once: everything loads and can be laid out, and
      parsing the virtual apk does not give back the merged entries. */
  lemma NameTwice() returns (apk: Bytes, patch: Bytes)
    ensures Loads(apk, [patch], {}) && Manageable(apk, [patch], {}) && !ReplacedOnce(apk, [patch], {})
    ensures ParseApk(VirtualApk(apk, [patch], {}))
            != Done(Merged(SourcesOf(apk, [patch], {}), FilesOf(apk, [patch])))
  {
    hide *;
    apk, patch := Zip(0, 2), Zip(0, 1);
    ZipIsPlain(0, 2);
    ZipIsPlain(0, 1);
    TwiceManaged(apk, patch);
    VirtualIs(apk, [patch], {});
  }

  lemma TwiceManaged(apk: Bytes, patch: Bytes)
    requires PlainZip(apk, 2) && PlainZip(patch, 1)
    ensures Loads(apk, [patch], {}) && Manageable(apk, [patch], {}) && !ReplacedOnce(apk, [patch], {})
    ensures var lists := ListsOf(apk, [patch]);
      Indexed(lists, PatchRefs(lists), {}, IndexOf(lists, PatchRefs(lists), {}))
  {
    hide EntriesOf, Parses, IsPlain, PatchRefs, IndexOf, Order, PatchedOnce, Shared, Contained, ListsOf, NameOf, Lay,
      Finished, AllFit, EntryAt;
    var lists, files := ListsOf(apk, [patch]), FilesOf(apk, [patch]);
    TwiceNames(apk, patch);
    TwiceOrder(lists);
    PlainContained(apk, 2);
    PlainContained(patch, 1);
    PatchedIs(lists, EntriesOf(patch));
    assert IsPlain(EntriesOf(patch)[0], patch);
    TwiceLaid(lists, files, [PATCHED, PATCHED], EntriesOf(patch)[0]);
  }

  lemma PatchedIs(lists: Lists, es: seq<Entry>)
    requires |lists| == 3 && lists[2] == es && |es| == 1
    ensures EntryAt(lists, PATCHED) == es[0]
  {
  }

  // ---------- removed names ----------

  /** A removed name stays when a patch has it. */
  lemma RemovedStays()
    ensures var lists := [[Plain(0)], [], [Plain(0)]];
      && Indexed(lists, PatchRefs(lists), {NAME}, map[])
      && Names(lists, Order(lists, {NAME}, map[])) == [NAME]
  {
    var lists: Lists := [[Plain(0)], [], [Plain(0)]];
    PlainNames(lists);
    RemovedOrder(lists);
  }

  lemma PlainNames(lists: Lists)
    requires forall i, j :: 0 <= i < |lists| && 0 <= j < |lists[i]| ==> lists[i][j] == Plain(0)
    ensures forall r: Ref :: InLists(lists, r) ==> NameOf(lists, r) == NAME
  {
    NameIs();
  }

  lemma RemovedOrder(lists: Lists)
    requires |lists| == 3 && |lists[0]| == |lists[2]| == 1 && lists[1] == []
    requires forall r: Ref :: InLists(lists, r) ==> NameOf(lists, r) == NAME
    ensures Indexed(lists, PatchRefs(lists), {NAME}, map[])
    ensures Names(lists, Order(lists, {NAME}, map[])) == [NAME]
  {
    hide NameOf;
    PatchRefsSplit(lists);
    NoPatchRefs(lists[..2]);
    assert RefsOf(2, 1) == [PATCHED] && InLists(lists, PATCHED) && InLists(lists, Ref(0, 0));
    assert FirstPass(lists, {NAME}, map[], 1) == [];
    assert Unused([PATCHED], []) == [PATCHED];
  }

  /** A removed name that two patches have occurs twice. */
  lemma RemovedTwice()
    ensures var lists := [[], [], [Plain(0)], [Plain(0)]];
      && Indexed(lists, PatchRefs(lists), {NAME}, map[])
      && Names(lists, Order(lists, {NAME}, map[])) == [NAME, NAME]
  {
    var lists: Lists := [[], [], [Plain(0)], [Plain(0)]];
    PlainNames(lists);
    SharedOrder(lists);
  }

  lemma SharedOrder(lists: Lists)
    requires |lists| == 4 && lists[0] == lists[1] == [] && |lists[2]| == |lists[3]| == 1
    requires forall r: Ref :: InLists(lists, r) ==> NameOf(lists, r) == NAME
    ensures Indexed(lists, PatchRefs(lists), {NAME}, map[])
    ensures Names(lists, Order(lists, {NAME}, map[])) == [NAME, NAME]
  {
    hide NameOf;
    PatchRefsSplit(lists);
    assert lists[..3][..2] == lists[..2];
    PatchRefsSplit(lists[..3]);
    NoPatchRefs(lists[..2]);
    assert RefsOf(2, 1) == [PATCHED] && RefsOf(3, 1) == [Ref(3, 0)];
    assert InLists(lists, PATCHED) && InLists(lists, Ref(3, 0));
    assert Unused([PATCHED], []) == [PATCHED];
    assert Unused([PATCHED, Ref(3, 0)], []) == [PATCHED, Ref(3, 0)];
  }
}
