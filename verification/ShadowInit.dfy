/** ShadowZip::init (zip/shadow_zip.cpp): the layout of the virtual apk, and init as a whole. */
module ShadowInit {
  import opened Bytes
  import opened EndRecordScan
  import opened Options
  import opened ShadowLayout
  import opened ShadowLoad
  import opened ShadowMerge
  import opened ShadowParse
  import opened ShadowPlaces
  import opened ShadowRepeats
  import opened Stdio
  import opened ZipFormat
  import opened ZipParse
  import opened ZipRecords

  // ---------- placing entries ----------

  /** What laying out needs: every entry in its file when its turn comes, and a result that fits. */
  predicate Layable(lists: Lists, full: seq<Ref>, files: seq<Bytes>) {
    && |files| > HEADERS && AllFit(lists, files, full)
    && |Finished(Lay(lists, files, full), lists, full)| < 0x8000_0000
  }

  /** The state between two entries: refs are placed. */
  ghost predicate Placed(layout: Partitions, table: map<Ref, Entry>, lists: Lists, files: seq<Bytes>, refs: seq<Ref>,
                         full: seq<Ref>)
    reads layout, layout.headers
  {
    && layout.Valid(files) && refs <= full
    && table == Lay(lists, files, refs).table && layout.Denoted(files) == Lay(lists, files, refs).body
    && layout.preShadowStop == |Lay(lists, files, refs).body|
    && |layout.headers.data| <= layout.preShadowStop
  }

  /** The next entry can be placed. */
  lemma CanPlace(lists: Lists, full: seq<Ref>, files: seq<Bytes>, refs: seq<Ref>, r: Ref, e: Entry, laid: Laid)
    requires Layable(lists, full, files) && refs < full && full[|refs|] == r
    requires laid == Lay(lists, files, refs) && e == Current(laid.table, lists, r)
    ensures |files| > HEADERS && r.file < |files| && r.file != HEADERS && Fits(e, files[r.file])
    ensures refs + [r] <= full && Lay(lists, files, refs + [r]) == LayOne(laid, lists, files, r)
    ensures |laid.body| + e.lfh.Len() + ALIGNMENT < 0x8000_0000
  {
    hide Lay, AllFit, LayOne, Fits, Current, Finished;
    LayPrefix(lists, files, refs + [r], full);
    LayPush(lists, files, refs, r);
    BodyLength(Lay(lists, files, full), lists, full);
    OneLength(laid, lists, files, r, e);
  }

  lemma BodyLength(laid: Laid, lists: Lists, full: seq<Ref>)
    ensures |laid.body| + EOCD_LEN <= |Finished(laid, lists, full)|
  {
    hide Ending, Listed;
    EndingLength(Listed(laid.table, lists, full), |laid.body|);
  }

  lemma EndingLength(ms: seq<Entry>, offset: nat)
    ensures |Ending(ms, offset)| == |Directory(ms)| + EOCD_LEN
  {
    hide Directory, EndOfCentralDir.Written;
  }

  /** add_entry_to_partition and setLFHOffset on the entry object of r. */
  method PlaceEntry(layout: Partitions, table: map<Ref, Entry>, r: Ref, lists: Lists, ghost files: seq<Bytes>,
                    ghost refs: seq<Ref>, ghost full: seq<Ref>)
    returns (table': map<Ref, Entry>)
    requires Layable(lists, full, files) && Placed(layout, table, lists, files, refs, full)
    requires refs < full && full[|refs|] == r
    modifies layout, layout.headers
    ensures Placed(layout, table', lists, files, refs + [r], full)
    ensures table' == table[r := MovedTo(Current(table, lists, r), |Lay(lists, files, refs).body|)]
  {
    hide Partitions.Valid, Partitions.Denoted, RawPiece, Fits, Layable, Lay, EntryAt, Padding, Padded,
      LocalHeader.Written, LocalHeader.Len;
    var e := Current(table, lists, r);
    CanPlace(lists, full, files, refs, r, e, Lay(lists, files, refs));
    PieceLength(e, files[r.file], layout.preShadowStop);
    var entryNewStart := layout.preShadowStop;
    var placed := layout.AddEntry(e, r.file, files);
    table' := table[r := placed.(cde := placed.cde.(localHeaderRelOffset := entryNewStart))];
  }

  lemma PieceLength(e: Entry, file: Bytes, at: nat)
    ensures Padding(e, at) != 0 ==> |Padded(e.lfh, Padding(e, at)).Written()| <= |RawPiece(e, file, at)|
  {
  }

  lemma {:induction false} UnusedPrefix(a: seq<Ref>, b: seq<Ref>, used: seq<Ref>)
    requires a <= b
    ensures Unused(a, used) <= Unused(b, used)
  {
    if |a| < |b| {
      UnusedPrefix(a, b[..|b| - 1], used);
    } else {
      assert a == b;
    }
  }

  lemma NoFirst(lists: Lists, removed: set<Bytes>, index: map<Bytes, Ref>)
    ensures FirstPass(lists, removed, index, 0) == []
  {
  }

  lemma NextFirst(lists: Lists, removed: set<Bytes>, index: map<Bytes, Ref>, i: nat, full: seq<Ref>)
    requires lists != [] && i < |lists[0]| && full == Order(lists, removed, index)
    ensures var name, refs := lists[0][i].Name(), FirstPass(lists, removed, index, i);
      var r := if name in index then index[name] else Ref(0, i);
      if name in removed then FirstPass(lists, removed, index, i + 1) == refs
      else FirstPass(lists, removed, index, i + 1) == refs + [r] && refs < full && full[|refs|] == r
  {
    hide PatchRefs, Unused, Entry.Name;
    FirstPassPrefix(lists, removed, index, i + 1, |lists[0]|);
    assert InLists(lists, Ref(0, i));
  }

  /** The first pass of init, over the entries of the apk. */
  method PlaceFirst(layout: Partitions, lists: Lists, removed: set<Bytes>, index: map<Bytes, Ref>,
                    ghost files: seq<Bytes>, ghost full: seq<Ref>)
    returns (table: map<Ref, Entry>, all: seq<Ref>, used: set<Ref>)
    requires lists != [] && full == Order(lists, removed, index) && Layable(lists, full, files)
    requires Placed(layout, map[], lists, files, [], full)
    modifies layout, layout.headers
    ensures all == FirstPass(lists, removed, index, |lists[0]|) && Placed(layout, table, lists, files, all, full)
    ensures forall r :: r in used <==> r in all
  {
    hide Layable, Placed, PatchRefs, Unused, Entry.Name, FirstPass, Order, NameOf, Lay;
    table, all, used := map[], [], {};
    assert FirstPass(lists, removed, index, 0) == [] by { NoFirst(lists, removed, index); }
    var i := 0;
    while i < |lists[0]|
      invariant i <= |lists[0]| && all == FirstPass(lists, removed, index, i)
      invariant Placed(layout, table, lists, files, all, full)
      invariant forall r :: r in used <==> r in all
    {
      NextFirst(lists, removed, index, i, full);
      var name := lists[0][i].Name();
      if name !in removed {
        var r := if name in index then index[name] else Ref(0, i);
        table := PlaceEntry(layout, table, r, lists, files, all, full);
        all := all + [r];
        used := used + {r};
      }
      i := i + 1;
    }
  }

  /** One file of the second pass: the entries that the first pass has not marked. */
  method PlaceFile(layout: Partitions, table0: map<Ref, Entry>, all0: seq<Ref>, lists: Lists, file: nat,
                   used: set<Ref>, ghost files: seq<Bytes>, ghost first: seq<Ref>, ghost full: seq<Ref>)
    returns (table: map<Ref, Entry>, all: seq<Ref>)
    requires FIRST_PATCH <= file < |lists| && full == first + Unused(PatchRefs(lists), first)
    requires Layable(lists, full, files) && forall r :: r in used <==> r in first
    requires PatchRefs(lists[..file + 1]) <= PatchRefs(lists)
    requires all0 == first + Unused(PatchRefs(lists[..file]), first)
    requires Placed(layout, table0, lists, files, all0, full)
    modifies layout, layout.headers
    ensures all == first + Unused(PatchRefs(lists[..file + 1]), first)
    ensures Placed(layout, table, lists, files, all, full)
  {
    hide Layable, Placed, PatchRefs, Unused, Lay;
    table, all := table0, all0;
    var entries := lists[file];
    ghost var before, after := PatchRefs(lists[..file]), PatchRefs(lists[..file + 1]);
    assert after == before + RefsOf(file, |entries|) by {
      assert lists[..file + 1] == lists[..file] + [entries];
      PatchRefsPush(lists[..file], entries);
    }
    var j := 0;
    assert before + RefsOf(file, 0) == before;
    while j < |entries|
      invariant j <= |entries| && all == first + Unused(before + RefsOf(file, j), first)
      invariant Placed(layout, table, lists, files, all, full)
    {
      var r := Ref(file, j);
      assert before + RefsOf(file, j) + [r] == before + RefsOf(file, j + 1);
      NextUnused(first, before + RefsOf(file, j), r, PatchRefs(lists), full);
      if r !in used {
        table := PlaceEntry(layout, table, r, lists, files, all, full);
        all := all + [r];
      }
      j := j + 1;
    }
  }

  lemma NextUnused(first: seq<Ref>, upto: seq<Ref>, r: Ref, all: seq<Ref>, full: seq<Ref>)
    requires upto + [r] <= all && full == first + Unused(all, first)
    ensures var refs := first + Unused(upto, first);
      if r in first then first + Unused(upto + [r], first) == refs
      else first + Unused(upto + [r], first) == refs + [r] && refs < full && full[|refs|] == r
  {
    hide Unused;
    UnusedPrefix(upto + [r], all, first);
    UnusedPush(upto, r, first);
    if r !in first { NextAfter(first, Unused(upto, first), r, Unused(all, first)); }
  }

  lemma UnusedPush(upto: seq<Ref>, r: Ref, first: seq<Ref>)
    ensures Unused(upto + [r], first) == if r in first then Unused(upto, first) else Unused(upto, first) + [r]
  {
    assert (upto + [r])[..|upto|] == upto;
  }

  lemma NextAfter(a: seq<Ref>, b: seq<Ref>, r: Ref, c: seq<Ref>)
    requires b + [r] <= c
    ensures a + (b + [r]) == a + b + [r] && a + b < a + c && (a + c)[|a + b|] == r
  {
    assert c[|b|] == (b + [r])[|b|];
  }

  /** Parts of the directory are written one by one. */
  lemma DirectoryPush(ms: seq<Entry>, m: Entry)
    ensures Directory(ms + [m]) == Directory(ms) + m.cde.Written()
  {
    hide CentralEntry.Written;
    var p := DirectoryParts(ms + [m]);
    assert p[..|ms|] == DirectoryParts(ms);
  }

  /** The list holds entry objects, so it writes them as they are now. */
  method WriteDirectory(table: map<Ref, Entry>, lists: Lists, all: seq<Ref>, out: Stream)
    requires out.data == [] && out.pos == 0
    modifies out
    ensures out.data == Directory(Listed(table, lists, all)) && out.pos == |out.data|
  {
    hide Directory, CentralEntry.Written, Current;
    EmptyDirectory();
    ghost var ms := Listed(table, lists, all);
    var i := 0;
    while i < |all|
      invariant i <= |all| && out.data == Directory(ms[..i]) && out.pos == |out.data|
    {
      assert ms[..i + 1] == ms[..i] + [ms[i]];
      DirectoryPush(ms[..i], ms[i]);
      WriteCentralEntry(Current(table, lists, all[i]).cde, out);
      i := i + 1;
    }
    assert ms[..i] == ms;
  }

  lemma EmptyDirectory()
    ensures Directory([]) == []
  {
  }

  // ---------- the second half of init ----------

  /** What init leaves for the readers: the partitions, the files they point into and the size. */
  datatype ShadowData = ShadowData(partitions: seq<Partition>, files: seq<Bytes>, endOfFile: nat)

  lemma {:induction false} TilesGrow(parts: seq<Partition>, files: seq<Bytes>, to: nat, more: Bytes)
    requires Tiles(parts, files, to)
    ensures Tiles(parts, files + [more], to) && Image(parts, files + [more]) == Image(parts, files)
  {
    forall k | 0 <= k < |parts|
      ensures parts[k].Ok(files + [more]) && parts[k].Content(files + [more]) == parts[k].Content(files)
    {
      assert parts[k].Ok(files);
    }
    if parts != [] {
      TilesInit(parts, files, to);
      TilesGrow(parts[..|parts| - 1], files, parts[|parts| - 1].shadowStart, more);
    }
  }

  /** The last partition, for the new directory. */
  lemma Closed(parts: seq<Partition>, files: seq<Bytes>, to: nat, tail: Bytes)
    requires Tiles(parts, files, to)
    ensures var p := Partition(to, to + |tail|, |files|, 0, |tail|);
      && Tiles(parts + [p], files + [tail], to + |tail|)
      && Image(parts + [p], files + [tail]) == Image(parts, files) + tail
  {
    hide Tiles, Image;
    var p := Partition(to, to + |tail|, |files|, 0, |tail|);
    TilesGrow(parts, files, to, tail);
    TilesPush(parts, files + [tail], to, p);
    assert p.Content(files + [tail]) == tail;
  }

  /** The second half of init, over any lists of entries that lie in their files. */
  method LayOut(lists: Lists, removed: set<Bytes>, index: map<Bytes, Ref>, files: seq<Bytes>)
    returns (data: ShadowData)
    requires |files| == |lists| >= FIRST_PATCH && Layable(lists, Order(lists, removed, index), files)
    ensures var full := Order(lists, removed, index);
      Image(data.partitions, data.files) == Finished(Lay(lists, files, full), lists, full)
    ensures Tiles(data.partitions, data.files, data.endOfFile)
    ensures data.endOfFile == |Image(data.partitions, data.files)|
  {
    hide Order, Layable, Placed, PatchRefs, Unused, FirstPass, Tiles, Image, Lay;
    ghost var full, first := Order(lists, removed, index), FirstPass(lists, removed, index, |lists[0]|);
    assert |files| > HEADERS;
    var headers := new Stream([]);
    var layout := new Partitions(headers, files);
    NothingPlaced(layout, lists, files, full);
    var table, all, used := PlaceFirst(layout, lists, removed, index, files, full);
    OrderParts(lists, removed, index);
    var i := FIRST_PATCH;
    while i < |lists|
      invariant FIRST_PATCH <= i <= |lists| && all == first + Unused(PatchRefs(lists[..i]), first)
      invariant Placed(layout, table, lists, files, all, full)
    {
      PatchRefsPrefix(lists, i + 1);
      table, all := PlaceFile(layout, table, all, lists, i, used, files, first, full);
      i := i + 1;
    }
    assert lists[..i] == lists;
    data := WriteEnd(layout, table, all, lists, files);
  }

  /** The end of init: the new directory goes to a file of its own, which the last partition shows. */
  method WriteEnd(layout: Partitions, table: map<Ref, Entry>, all: seq<Ref>, lists: Lists, files: seq<Bytes>)
    returns (data: ShadowData)
    requires Placed(layout, table, lists, files, all, all)
    ensures Image(data.partitions, data.files) == Finished(Lay(lists, files, all), lists, all)
    ensures Tiles(data.partitions, data.files, data.endOfFile)
    ensures data.endOfFile == |Image(data.partitions, data.files)|
  {
    hide Placed, Lay, Directory, EndOfCentralDir.Written, Tiles, Image;
    PlacedMeans(layout, table, lists, files, all);
    var out := new Stream([]);
    WriteDirectory(table, lists, all, out);
    var count := |all| % 0x1_0000;
    var eocd := EndOfCentralDir(0, 0, count, count, out.pos, layout.preShadowStop, []);
    var _ := WriteEndRecord(eocd, out);
    assert out.data == Ending(Listed(table, lists, all), layout.preShadowStop);
    var cdOffset, fs := layout.preShadowStop, files[HEADERS := layout.headers.data];
    Closed(layout.partitions, fs, cdOffset, out.data);
    data := ShadowData(layout.partitions + [Partition(cdOffset, cdOffset + |out.data|, |fs|, 0, |out.data|)],
                       fs + [out.data], cdOffset + |out.data|);
    ImageLength(data.partitions, data.files, data.endOfFile);
  }

  lemma NothingPlaced(layout: Partitions, lists: Lists, files: seq<Bytes>, full: seq<Ref>)
    requires layout.Valid(files) && layout.Denoted(files) == [] && layout.preShadowStop == 0
    requires layout.headers.data == []
    ensures Placed(layout, map[], lists, files, [], full)
  {
    hide Partitions.Valid, Partitions.Denoted;
  }

  lemma OrderParts(lists: Lists, removed: set<Bytes>, index: map<Bytes, Ref>)
    requires |lists| >= FIRST_PATCH
    ensures var first := FirstPass(lists, removed, index, |lists[0]|);
      && Order(lists, removed, index) == first + Unused(PatchRefs(lists), first)
      && first + Unused(PatchRefs(lists[..FIRST_PATCH]), first) == first
  {
    hide FirstPass;
  }

  lemma PlacedMeans(layout: Partitions, table: map<Ref, Entry>, lists: Lists, files: seq<Bytes>, refs: seq<Ref>)
    requires Placed(layout, table, lists, files, refs, refs)
    ensures |files| > HEADERS && table == Lay(lists, files, refs).table
    ensures Tiles(layout.partitions, WithHeaders(files, layout.headers.data), layout.preShadowStop)
    ensures Image(layout.partitions, WithHeaders(files, layout.headers.data)) == Lay(lists, files, refs).body
    ensures layout.preShadowStop == |Lay(lists, files, refs).body|
  {
    hide Tiles, Image, Lay;
  }

  // ---------- init ----------

  /** The merged order of all entries, from the files alone. */
  function OrderOf(apk: Bytes, patches: seq<Bytes>, removed: set<Bytes>): seq<Ref> {
    var lists := ListsOf(apk, patches);
    Order(lists, removed, IndexOf(lists, PatchRefs(lists), removed))
  }

  /** The virtual apk, from the files alone. */
  function VirtualApk(apk: Bytes, patches: seq<Bytes>, removed: set<Bytes>): Bytes {
    var lists, files, full := ListsOf(apk, patches), FilesOf(apk, patches), OrderOf(apk, patches, removed);
    Finished(Lay(lists, files, full), lists, full)
  }

  /** No name of the apk that a patch replaces occurs twice in it. */
  predicate ReplacedOnce(apk: Bytes, patches: seq<Bytes>, removed: set<Bytes>) {
    var lists := ListsOf(apk, patches);
    PatchedOnce(lists, removed, IndexOf(lists, PatchRefs(lists), removed))
  }

  /** Sizes fit the code's 32-bit numbers, and data lies in its file; an entry that is placed again must
      do so at its new offset too. */
  predicate Manageable(apk: Bytes, patches: seq<Bytes>, removed: set<Bytes>) {
    && Contained(apk) && (forall i :: 0 <= i < |patches| ==> Contained(patches[i]))
    && |VirtualApk(apk, patches, removed)| < 0x8000_0000
    && (!ReplacedOnce(apk, patches, removed) ==>
          AllFit(ListsOf(apk, patches), FilesOf(apk, patches), OrderOf(apk, patches, removed)))
  }

  /** The entries of the merged directory and their files. */
  function SourcesOf(apk: Bytes, patches: seq<Bytes>, removed: set<Bytes>): seq<Source> {
    Sources(ListsOf(apk, patches), OrderOf(apk, patches, removed))
  }

  /** The virtual file holds the merged entries' local headers where their new offsets say, and behind
      each the data of its source. */
  predicate AllInPlace(v: Bytes, es: seq<Source>, files: seq<Bytes>) {
    forall k :: 0 <= k < |es| ==> InPlace(v, Merged(es, files)[k], es[k].entry, FileOf(files, es[k].file))
  }

  /** init: the apk, the patches in the order of the directory listing, the names in removed_files. It
      succeeds exactly when the files load. The readers then see the virtual apk, and parsing it gives
      back the merged entries exactly when no replaced name is repeated in the apk, there are not too
      many entries, and the end record does not spell its signature again. */
  method Init(apk: Bytes, patches: seq<Bytes>, removed: set<Bytes>) returns (r: Outcome<ShadowData>)
    requires |apk| < 0x8000_0000_0000_0000 && forall i :: 0 <= i < |patches| ==> |patches[i]| < 0x8000_0000_0000_0000
    requires Loads(apk, patches, removed) ==> Manageable(apk, patches, removed)
    ensures r.Done? <==> Loads(apk, patches, removed)
    ensures r.Undefined? ==>
      ParseApk(apk) == Undefined || exists i :: 0 <= i < |patches| && ParseApk(patches[i]) == Undefined
    ensures r.Done? ==>
      && Image(r.value.partitions, r.value.files) == VirtualApk(apk, patches, removed)
      && Tiles(r.value.partitions, r.value.files, r.value.endOfFile)
      && r.value.endOfFile == |VirtualApk(apk, patches, removed)|
    ensures r.Done? ==>
      var es, files := SourcesOf(apk, patches, removed), FilesOf(apk, patches);
      ParseApk(Image(r.value.partitions, r.value.files)) == Done(Merged(es, files)) <==>
        && ReplacedOnce(apk, patches, removed) && |es| < 0x1_0000
        && !FalseSignature(|es|, |Directory(Merged(es, files))|, |Body(es, files)|)
    ensures r.Done? && ReplacedOnce(apk, patches, removed) ==>
      var es, files := SourcesOf(apk, patches, removed), FilesOf(apk, patches);
      && VirtualApk(apk, patches, removed) == Virtual(es, files)
      && AllInPlace(VirtualApk(apk, patches, removed), es, files)
      && (ParseApk(VirtualApk(apk, patches, removed)) == Done(Merged(es, files))
          || ParseApk(VirtualApk(apk, patches, removed)) == Failed)
  {
    hide *;
    if patches == [] {
      NoPatches(apk, removed);
      return Failed;
    }
    var loaded, bad, n := LoadPatches(patches, removed);
    if loaded.Failed? {
      NotLoaded(apk, patches, bad, n, removed);
      return Failed;
    }
    if loaded.Undefined? {
      UnparsedPatch(apk, patches, n, removed);
      return Undefined;
    }
    var lists, index := loaded.value.0, loaded.value.1;
    var entries := Parse(apk);
    if !entries.Done? {
      UnparsedApk(apk, patches, removed);
      return if entries.Failed? then Failed else Undefined;
    }
    ParsedLength(patches, lists, |patches|);
    LoadedIs(apk, patches, lists, removed, index);
    ParsedApk(apk, entries.value);
    AllLoaded(apk, patches, removed);
    MayLayOut(apk, patches, removed);
    lists := lists[0 := entries.value];
    OrderIs(apk, patches, removed);
    var data := LayOut(lists, removed, index, [apk, []] + patches);
    VirtualIs(apk, patches, removed);
    return Done(data);
  }

  lemma NoPatches(apk: Bytes, removed: set<Bytes>)
    ensures !Loads(apk, [], removed)
  {
  }

  lemma UnparsedPatch(apk: Bytes, patches: seq<Bytes>, n: nat, removed: set<Bytes>)
    requires n < |patches| && ParseApk(patches[n]) == Undefined
    ensures !Loads(apk, patches, removed)
  {
    hide ParseApk, Shared, PatchRefs;
  }

  lemma UnparsedApk(apk: Bytes, patches: seq<Bytes>, removed: set<Bytes>)
    requires !ParseApk(apk).Done?
    ensures !Loads(apk, patches, removed)
  {
    hide ParseApk, Shared, PatchRefs;
  }

  lemma ParsedLength(patches: seq<Bytes>, lists: Lists, n: nat)
    requires ParsedAs(patches, lists, n)
    ensures |lists| == FIRST_PATCH + n
  {
  }

  lemma ParsedApk(apk: Bytes, es: seq<Entry>)
    requires ParseApk(apk) == Done(es)
    ensures Parses(apk) && EntriesOf(apk) == es
  {
  }

  lemma AllLoaded(apk: Bytes, patches: seq<Bytes>, removed: set<Bytes>)
    requires patches != [] && Parses(apk) && forall i :: 0 <= i < |patches| ==> Parses(patches[i])
    requires !Shared(ListsOf(apk, patches), PatchRefs(ListsOf(apk, patches)), removed)
    ensures Loads(apk, patches, removed)
  {
    hide Shared, PatchRefs, Parses, ListsOf;
  }

  lemma OrderIs(apk: Bytes, patches: seq<Bytes>, removed: set<Bytes>)
    ensures |ListsOf(apk, patches)| == |patches| + FIRST_PATCH
    ensures FilesOf(apk, patches) == [apk, []] + patches && |FilesOf(apk, patches)| == |patches| + FIRST_PATCH
    ensures var lists := ListsOf(apk, patches);
      OrderOf(apk, patches, removed) == Order(lists, removed, IndexOf(lists, PatchRefs(lists), removed))
    ensures var lists, files, full := ListsOf(apk, patches), FilesOf(apk, patches), OrderOf(apk, patches, removed);
      VirtualApk(apk, patches, removed) == Finished(Lay(lists, files, full), lists, full)
  {
    hide Order, IndexOf, PatchRefs, Lay, Finished;
  }

  /** parse_apk sees to it that the entries are good. */
  lemma SoundOrder(apk: Bytes, patches: seq<Bytes>, full: seq<Ref>)
    requires Contained(apk) && forall i :: 0 <= i < |patches| ==> Contained(patches[i])
    requires forall r :: r in full ==> InLists(ListsOf(apk, patches), r)
    ensures AllSound(ListsOf(apk, patches), FilesOf(apk, patches), full)
  {
    hide Contained, Good, EntriesOf;
    var lists, files := ListsOf(apk, patches), FilesOf(apk, patches);
    forall r | r in full
      ensures r.file < |files| && r.file != HEADERS && Good(EntryAt(lists, r), FileOf(files, r.file))
    {
      assert lists[r.file] == if r.file == HEADERS then [] else EntriesOf(files[r.file]);
      assert r.file != HEADERS && Contained(files[r.file]);
      ParsedGood(files[r.file], EntryAt(lists, r));
    }
  }

  lemma AllAreSound(apk: Bytes, patches: seq<Bytes>, removed: set<Bytes>)
    requires Loads(apk, patches, removed) && Manageable(apk, patches, removed)
    requires var lists := ListsOf(apk, patches);
      Indexed(lists, PatchRefs(lists), removed, IndexOf(lists, PatchRefs(lists), removed))
    ensures NoRepeat(OrderOf(apk, patches, removed)) <==> ReplacedOnce(apk, patches, removed)
    ensures AllSound(ListsOf(apk, patches), FilesOf(apk, patches), OrderOf(apk, patches, removed))
  {
    hide Indexed, Contained, IndexOf, PatchRefs, Order, NoRepeat, AllSound, Loads, PatchedOnce, VirtualApk, InLists,
      AllFit;
    var lists := ListsOf(apk, patches);
    OrderNoRepeat(lists, removed, IndexOf(lists, PatchRefs(lists), removed));
    OrderInLists(lists, removed, IndexOf(lists, PatchRefs(lists), removed));
    SoundOrder(apk, patches, OrderOf(apk, patches, removed));
  }

  /** What loaded can be laid out. */
  lemma MayLayOut(apk: Bytes, patches: seq<Bytes>, removed: set<Bytes>)
    requires Loads(apk, patches, removed) && Manageable(apk, patches, removed)
    requires var lists := ListsOf(apk, patches);
      Indexed(lists, PatchRefs(lists), removed, IndexOf(lists, PatchRefs(lists), removed))
    ensures Layable(ListsOf(apk, patches), OrderOf(apk, patches, removed), FilesOf(apk, patches))
  {
    hide Loads, Indexed, IndexOf, PatchRefs, Contained, OrderOf, ReplacedOnce, AllSound, NoRepeat, Lay, Finished,
      AllFit;
    OrderIs(apk, patches, removed);
    AllAreSound(apk, patches, removed);
    if ReplacedOnce(apk, patches, removed) {
      LaidOnce(ListsOf(apk, patches), FilesOf(apk, patches), OrderOf(apk, patches, removed));
    }
  }

  /** What parsing the virtual apk gives, and where its entries are. */
  lemma VirtualIs(apk: Bytes, patches: seq<Bytes>, removed: set<Bytes>)
    requires Loads(apk, patches, removed) && Manageable(apk, patches, removed)
    requires var lists := ListsOf(apk, patches);
      Indexed(lists, PatchRefs(lists), removed, IndexOf(lists, PatchRefs(lists), removed))
    ensures var es, files := SourcesOf(apk, patches, removed), FilesOf(apk, patches);
      ParseApk(VirtualApk(apk, patches, removed)) == Done(Merged(es, files)) <==>
        && ReplacedOnce(apk, patches, removed) && |es| < 0x1_0000
        && !FalseSignature(|es|, |Directory(Merged(es, files))|, |Body(es, files)|)
    ensures ReplacedOnce(apk, patches, removed) ==>
      var es, files := SourcesOf(apk, patches, removed), FilesOf(apk, patches);
      && VirtualApk(apk, patches, removed) == Virtual(es, files)
      && AllInPlace(VirtualApk(apk, patches, removed), es, files)
      && (ParseApk(VirtualApk(apk, patches, removed)) == Done(Merged(es, files))
          || ParseApk(VirtualApk(apk, patches, removed)) == Failed)
  {
    hide *;
    var lists, files, full := ListsOf(apk, patches), FilesOf(apk, patches), OrderOf(apk, patches, removed);
    OrderIs(apk, patches, removed);
    AllAreSound(apk, patches, removed);
    MayLayOut(apk, patches, removed);
    LayableMeans(lists, full, files);
    SourcesAre(apk, patches, removed);
    if ReplacedOnce(apk, patches, removed) {
      FinishedIs(lists, files, full);
      SoundSources(lists, files, full);
      VirtualParses(Sources(lists, full), files);
      GoodInPlace(Sources(lists, full), files);
    } else {
      RepeatBreaks(lists, files, full);
    }
  }

  lemma LayableMeans(lists: Lists, full: seq<Ref>, files: seq<Bytes>)
    requires Layable(lists, full, files)
    ensures AllFit(lists, files, full) && |Finished(Lay(lists, files, full), lists, full)| < 0x8000_0000
  {
  }

  lemma SourcesAre(apk: Bytes, patches: seq<Bytes>, removed: set<Bytes>)
    ensures SourcesOf(apk, patches, removed) == Sources(ListsOf(apk, patches), OrderOf(apk, patches, removed))
  {
  }

  lemma GoodInPlace(es: seq<Source>, files: seq<Bytes>)
    requires AllGood(es, files)
    ensures AllInPlace(Virtual(es, files), es, files)
  {
    hide Virtual, Place, Good, InPlace, FileOf, MovedTo;
    forall k | 0 <= k < |es|
      ensures InPlace(Virtual(es, files), Merged(es, files)[k], es[k].entry, FileOf(files, es[k].file))
    {
      HeaderAndData(es, files, k, es[k].entry, FileOf(files, es[k].file), Merged(es, files)[k]);
    }
  }
}
