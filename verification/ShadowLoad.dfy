/** The first half of ShadowZip::init (zip/shadow_zip.cpp): it reads the patches and the apk and
    indexes the names of the patches' entries. */
module ShadowLoad {
  import opened Bytes
  import opened Options
  import opened ShadowLayout
  import opened ShadowMerge
  import opened Stdio
  import opened ZipFormat
  import opened ZipParse

  /** The first n patches parse, and lists holds their entries from list 2 on. */
  predicate ParsedAs(patches: seq<Bytes>, lists: Lists, n: nat) {
    && n <= |patches| && |lists| == FIRST_PATCH + n && lists[0] == [] && lists[1] == []
    && forall i :: 0 <= i < n ==> ParseApk(patches[i]) == Done(lists[FIRST_PATCH + i])
  }

  /** Why loading fails: a patch does not parse, or two entries share a name that is not removed. */
  predicate CannotLoad(patches: seq<Bytes>, lists: Lists, n: nat, removed: set<Bytes>) {
    && ParsedAs(patches, lists, n)
    && (Shared(lists, PatchRefs(lists), removed) || (n < |patches| && ParseApk(patches[n]) == Failed))
  }

  lemma IndexedGrows(lists: Lists, es: seq<Entry>, removed: set<Bytes>, index: map<Bytes, Ref>)
    requires Indexed(lists, PatchRefs(lists), removed, index)
    ensures Indexed(lists + [es], PatchRefs(lists), removed, index)
  {
    PatchRefsAre(lists);
    var refs := PatchRefs(lists);
    forall r | r in refs ensures NameOf(lists + [es], r) == NameOf(lists, r) {}
    assert forall i :: 0 <= i < |refs| ==> refs[i] in refs;
  }

  lemma IndexedPush(lists: Lists, refs: seq<Ref>, removed: set<Bytes>, index: map<Bytes, Ref>, r: Ref)
    requires Indexed(lists, refs, removed, index) && NameOf(lists, r) !in index
    ensures Indexed(lists, refs + [r], removed,
                    if NameOf(lists, r) in removed then index else index[NameOf(lists, r) := r])
  {
    hide NameOf;
  }

  lemma Snoc<T>(s: seq<T>, x: T)
    ensures (s + [x])[..|s|] == s && (s + [x])[|s|] == x && |s + [x]| == |s| + 1
  {
  }

  lemma PatchRefsSplit(lists: Lists)
    requires |lists| > FIRST_PATCH
    ensures PatchRefs(lists) == PatchRefs(lists[..|lists| - 1]) + RefsOf(|lists| - 1, |lists[|lists| - 1]|)
  {
  }

  lemma PatchRefsPush(lists: Lists, es: seq<Entry>)
    requires |lists| >= FIRST_PATCH
    ensures PatchRefs(lists + [es]) == PatchRefs(lists) + RefsOf(|lists|, |es|)
  {
    hide PatchRefs, RefsOf;
    var all: Lists := lists + [es];
    PatchRefsSplit(all);
    Snoc(lists, es);
  }

  /** A name found in the index is shared with an earlier entry. */
  lemma SharedHere(lists: Lists, refs: seq<Ref>, removed: set<Bytes>, index: map<Bytes, Ref>, all: seq<Ref>)
    requires Indexed(lists, refs, removed, index) && refs < all && NameOf(lists, all[|refs|]) in index
    ensures Shared(lists, all, removed)
  {
    hide NameOf;
    var n := NameOf(lists, all[|refs|]);
    var i :| 0 <= i < |refs| && refs[i] == index[n];
    assert all[i] == refs[i];
  }

  /** The entries of one patch enter the index, unless a name is there already. */
  method IndexPatch(lists: Lists, file: nat, removed: set<Bytes>, index: map<Bytes, Ref>)
    returns (ok: bool, index': map<Bytes, Ref>)
    requires file + 1 == |lists| && file >= FIRST_PATCH
    requires Indexed(lists, PatchRefs(lists[..file]), removed, index)
    ensures if ok then Indexed(lists, PatchRefs(lists), removed, index')
            else Shared(lists, PatchRefs(lists), removed)
  {
    hide Indexed, Shared, PatchRefs, Entry.Name;
    var entries := lists[file];
    ghost var before := PatchRefs(lists[..file]);
    assert lists == lists[..file] + [entries];
    PatchRefsPush(lists[..file], entries);
    index' := index;
    var j := 0;
    assert before + RefsOf(file, 0) == before;
    while j < |entries|
      invariant j <= |entries| && Indexed(lists, before + RefsOf(file, j), removed, index')
    {
      ghost var refs, r := before + RefsOf(file, j), Ref(file, j);
      assert refs + [r] == before + RefsOf(file, j + 1);
      var name := entries[j].Name();
      if name in index' {
        ghost var all := PatchRefs(lists);
        assert refs < all && all[|refs|] == r;
        SharedHere(lists, refs, removed, index', all);
        return false, index';
      }
      IndexedPush(lists, refs, removed, index', r);
      if name !in removed { index' := index'[name := Ref(file, j)]; }
      j := j + 1;
    }
    return true, index';
  }

  /** The loop of init over the patch files. */
  method LoadPatches(patches: seq<Bytes>, removed: set<Bytes>)
    returns (r: Outcome<(Lists, map<Bytes, Ref>)>, ghost bad: Lists, ghost n: nat)
    requires forall i :: 0 <= i < |patches| ==> |patches[i]| < 0x8000_0000_0000_0000
    ensures r.Done? ==>
      && ParsedAs(patches, r.value.0, |patches|)
      && Indexed(r.value.0, PatchRefs(r.value.0), removed, r.value.1)
    ensures r.Failed? ==> CannotLoad(patches, bad, n, removed)
    ensures r.Undefined? ==> n < |patches| && ParseApk(patches[n]) == Undefined
  {
    hide Indexed, Shared, PatchRefs, ParseApk;
    var lists: Lists := [[], []];
    var index: map<Bytes, Ref> := map[];
    NothingIndexed(removed);
    var i := 0;
    while i < |patches|
      invariant i <= |patches| && ParsedAs(patches, lists, i)
      invariant Indexed(lists, PatchRefs(lists), removed, index)
    {
      var parsed := Parse(patches[i]);
      if parsed.Failed? { return Failed, lists, i; }
      if parsed.Undefined? { return Undefined, lists, i; }
      IndexedGrows(lists, parsed.value, removed, index);
      ghost var was := lists;
      lists := lists + [parsed.value];
      assert lists[..FIRST_PATCH + i] == was;
      var ok, more := IndexPatch(lists, FIRST_PATCH + i, removed, index);
      if !ok { return Failed, lists, i + 1; }
      index := more;
      i := i + 1;
    }
    return Done((lists, index)), lists, i;
  }

  lemma NothingIndexed(removed: set<Bytes>)
    ensures Indexed([[], []], PatchRefs([[], []]), removed, map[])
  {
  }

  // ---------- the outcome, from the files alone ----------

  function EntriesOf(file: Bytes): seq<Entry> {
    match ParseApk(file)
    case Done(es) => es
    case _ => []
  }

  function PatchLists(patches: seq<Bytes>): (lists: Lists)
    ensures |lists| == |patches| && forall i :: 0 <= i < |patches| ==> lists[i] == EntriesOf(patches[i])
  {
    seq(|patches|, i requires 0 <= i < |patches| => EntriesOf(patches[i]))
  }

  /** The entries of all files: the apk, the file for changed headers, which has none, the patches. */
  function ListsOf(apk: Bytes, patches: seq<Bytes>): Lists {
    [EntriesOf(apk), []] + PatchLists(patches)
  }

  function FilesOf(apk: Bytes, patches: seq<Bytes>): seq<Bytes> {
    [apk, []] + patches
  }

  /** The index that an order of patch entries gives, later entries over earlier ones. */
  function IndexOf(lists: Lists, refs: seq<Ref>, removed: set<Bytes>): map<Bytes, Ref> {
    if refs == [] then map[] else
    var before, last := IndexOf(lists, refs[..|refs| - 1], removed), refs[|refs| - 1];
    if NameOf(lists, last) in removed then before else before[NameOf(lists, last) := last]
  }

  lemma {:induction false} IndexOfMembers(lists: Lists, refs: seq<Ref>, removed: set<Bytes>)
    ensures forall n :: n in IndexOf(lists, refs, removed) ==>
      n !in removed && IndexOf(lists, refs, removed)[n] in refs && NameOf(lists, IndexOf(lists, refs, removed)[n]) == n
    ensures forall r :: r in refs && NameOf(lists, r) !in removed ==> NameOf(lists, r) in IndexOf(lists, refs, removed)
  {
    hide NameOf;
    if refs != [] {
      IndexOfMembers(lists, refs[..|refs| - 1], removed);
      assert refs == refs[..|refs| - 1] + [refs[|refs| - 1]];
    }
  }

  /** There is one index at most. */
  lemma IndexIs(lists: Lists, refs: seq<Ref>, removed: set<Bytes>, index: map<Bytes, Ref>)
    requires Indexed(lists, refs, removed, index)
    ensures index == IndexOf(lists, refs, removed)
  {
    hide NameOf;
    IndexOfMembers(lists, refs, removed);
    var other := IndexOf(lists, refs, removed);
    forall n ensures n in index <==> n in other {}
  }

  predicate Parses(file: Bytes) {
    ParseApk(file).Done?
  }

  /** When init gets past its first half: there is a patch, all files parse, and no two patch entries
      share a name that is not removed. */
  predicate Loads(apk: Bytes, patches: seq<Bytes>, removed: set<Bytes>) {
    && patches != [] && Parses(apk) && (forall i :: 0 <= i < |patches| ==> Parses(patches[i]))
    && !Shared(ListsOf(apk, patches), PatchRefs(ListsOf(apk, patches)), removed)
  }

  lemma {:induction false} PatchRefsOfPatches(a: Lists, b: Lists)
    requires |a| == |b| && forall i :: FIRST_PATCH <= i < |a| ==> a[i] == b[i]
    ensures PatchRefs(a) == PatchRefs(b)
    decreases |a|
  {
    hide PatchRefs;
    if |a| > FIRST_PATCH {
      PatchRefsSplit(a);
      PatchRefsSplit(b);
      PatchRefsOfPatches(a[..|a| - 1], b[..|b| - 1]);
    } else {
      NoPatchRefs(a);
      NoPatchRefs(b);
    }
  }

  lemma NoPatchRefs(lists: Lists)
    requires |lists| <= FIRST_PATCH
    ensures PatchRefs(lists) == []
  {
  }

  /** The apk's own entries do not matter to the index. */
  lemma OnlyPatches(a: Lists, b: Lists)
    requires |a| == |b| && forall i :: FIRST_PATCH <= i < |a| ==> a[i] == b[i]
    ensures PatchRefs(a) == PatchRefs(b)
    ensures forall r :: r in PatchRefs(a) ==> NameOf(a, r) == NameOf(b, r)
  {
    PatchRefsOfPatches(a, b);
    PatchRefsAre(a);
  }

  lemma SameNames(a: Lists, b: Lists, refs: seq<Ref>, removed: set<Bytes>, index: map<Bytes, Ref>)
    requires forall r :: r in refs ==> NameOf(a, r) == NameOf(b, r)
    ensures Indexed(a, refs, removed, index) <==> Indexed(b, refs, removed, index)
    ensures Shared(a, refs, removed) <==> Shared(b, refs, removed)
  {
    hide NameOf;
    assert forall i :: 0 <= i < |refs| ==> refs[i] in refs;
  }

  /** Names that are shared already stay so as more patches come. */
  lemma SharedGrows(a: Lists, b: Lists, removed: set<Bytes>)
    requires FIRST_PATCH <= |a| <= |b| && forall i :: FIRST_PATCH <= i < |a| ==> a[i] == b[i]
    requires Shared(a, PatchRefs(a), removed)
    ensures Shared(b, PatchRefs(b), removed)
  {
    hide NameOf;
    OnlyPatches(a, b[..|a|]);
    SameNames(a, b[..|a|], PatchRefs(a), removed, map[]);
    PatchRefsPrefix(b, |a|);
    PatchRefsAre(a);
    var few, many := PatchRefs(a), PatchRefs(b);
    forall r | r in few ensures NameOf(b, r) == NameOf(b[..|a|], r) { NamesOfPrefix(b, |a|, r); }
    var i, j :| 0 <= i < j < |few| && NameOf(a, few[i]) == NameOf(a, few[j]) && NameOf(a, few[i]) !in removed;
    assert few[i] in few && few[j] in few && many[i] == few[i] && many[j] == few[j];
  }

  lemma NamesOfPrefix(lists: Lists, n: nat, r: Ref)
    requires n <= |lists| && r.file < n
    ensures NameOf(lists[..n], r) == NameOf(lists, r)
  {
  }

  lemma {:induction false} PatchRefsPrefix(lists: Lists, n: nat)
    requires FIRST_PATCH <= n <= |lists|
    ensures PatchRefs(lists[..n]) <= PatchRefs(lists)
    decreases |lists| - n
  {
    if n < |lists| {
      PatchRefsPrefix(lists, n + 1);
      assert lists[..n + 1][..n] == lists[..n];
    } else {
      assert lists[..n] == lists;
    }
  }

  /** The lists of a load that went through are those of the files. */
  lemma ListsAre(apk: Bytes, patches: seq<Bytes>, lists: Lists)
    requires ParsedAs(patches, lists, |patches|)
    ensures forall i :: 0 <= i < |patches| ==> Parses(patches[i])
    ensures ListsOf(apk, patches) == lists[0 := EntriesOf(apk)]
  {
    hide ParseApk;
    assert forall i :: 0 <= i < |patches| ==> lists[FIRST_PATCH + i] == EntriesOf(patches[i]);
  }

  /** What loading established, in terms of the files. */
  lemma LoadedIs(apk: Bytes, patches: seq<Bytes>, lists: Lists, removed: set<Bytes>, index: map<Bytes, Ref>)
    requires ParsedAs(patches, lists, |patches|) && Indexed(lists, PatchRefs(lists), removed, index)
    ensures forall i :: 0 <= i < |patches| ==> Parses(patches[i])
    ensures var all := ListsOf(apk, patches);
      && all == lists[0 := EntriesOf(apk)] && Indexed(all, PatchRefs(all), removed, index)
      && !Shared(all, PatchRefs(all), removed) && index == IndexOf(all, PatchRefs(all), removed)
  {
    hide ParseApk, Indexed, Shared, PatchRefs, NameOf, ListsOf, EntriesOf, Parses;
    var all := ListsOf(apk, patches);
    ListsAre(apk, patches, lists);
    OnlyPatches(lists, all);
    SameNames(lists, all, PatchRefs(lists), removed, index);
    PatchRefsAre(all);
    IndexedNotShared(all, PatchRefs(all), removed, index);
    IndexIs(all, PatchRefs(all), removed, index);
  }

  /** What a failed load means. */
  lemma NotLoaded(apk: Bytes, patches: seq<Bytes>, lists: Lists, n: nat, removed: set<Bytes>)
    requires CannotLoad(patches, lists, n, removed)
    ensures !Loads(apk, patches, removed)
  {
    hide ParseApk, Shared, PatchRefs, NameOf, ListsOf, EntriesOf;
    if Loads(apk, patches, removed) {
      PrefixIs(apk, patches, lists, n);
      if Shared(lists, PatchRefs(lists), removed) { SharedGrows(lists, ListsOf(apk, patches), removed); }
    }
  }

  /** The lists loaded before a failure are among those of the files. */
  lemma PrefixIs(apk: Bytes, patches: seq<Bytes>, lists: Lists, n: nat)
    requires ParsedAs(patches, lists, n)
    ensures FIRST_PATCH <= |lists| <= |ListsOf(apk, patches)|
    ensures forall i :: FIRST_PATCH <= i < |lists| ==> lists[i] == ListsOf(apk, patches)[i]
  {
    hide ParseApk;
    assert forall i :: 0 <= i < n ==> lists[FIRST_PATCH + i] == EntriesOf(patches[i]);
  }

  // ---------- what parse_apk guarantees ----------

  /** The entry's data lies in its file, and its extra field has room for padding; parse_apk checks
      neither. */
  predicate Contained(file: Bytes) {
    |file| < 0x8000_0000 && forall e :: e in EntriesOf(file) ==> Fits(e, file)
  }

  /** Every entry that comes out of parse_apk was read from somewhere in the file. */
  predicate WasRead(file: Bytes, e: Entry) {
    e.cde.Ok() && !e.IsDirectory() && ReadLocal(From(file, e.EntryBegin())) == Some(e.lfh)
  }

  lemma ReadEntryOk(file: Bytes, pos: nat)
    requires ReadEntry(file, pos).Some?
    ensures var e := ReadEntry(file, pos).value;
      e.cde.Ok() && ReadLocal(From(file, e.EntryBegin())) == Some(e.lfh)
  {
    hide ReadCentral, ReadLocal, CentralEntry.Ok, CentralEntry.Written;
    WrittenReadCentral(From(file, pos));
  }

  lemma {:induction false} ReadEntriesOk(file: Bytes, pos: nat, n: nat)
    requires ReadEntries(file, pos, n).Done?
    ensures forall e :: e in ReadEntries(file, pos, n).value.0 ==> WasRead(file, e)
    decreases n
  {
    hide ReadEntry, ReadLocal, CentralEntry.Ok, Entry.IsDirectory;
    if n > 0 {
      ReadEntryOk(file, pos);
      ReadEntriesOk(file, pos + ReadEntry(file, pos).value.cde.Len(), n - 1);
    }
  }

  lemma ParsedGood(file: Bytes, e: Entry)
    requires Contained(file) && e in EntriesOf(file)
    ensures Good(e, file)
  {
    hide ReadEntries, FindEocd, ReadLocal, CentralEntry.Ok, Entry.IsDirectory;
    var eocd := FindEocd(file).value;
    ReadEntriesOk(file, eocd.centralDirOffset, eocd.totalNumEntries);
  }
}
