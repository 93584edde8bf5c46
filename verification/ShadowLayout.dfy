/** Partitions of the virtual apk and add_entry_to_partition (zip/shadow_zip.cpp). */
module ShadowLayout {
  import opened Bytes
  import opened Options
  import opened Stdio
  import opened ZipFormat
  import opened ZipParse
  import opened ZipRecords

  // ---------- partitions ----------

  /** [shadowStart, shadowStop) of the virtual file is [start, stop) of one of the files. */
  datatype Partition = Partition(shadowStart: nat, shadowStop: nat, file: nat, start: nat, stop: nat) {
    predicate Ok(files: seq<Bytes>) {
      && shadowStart <= shadowStop && file < |files| && start <= stop <= |files[file]|
      && shadowStop - shadowStart == stop - start
    }

    function Content(files: seq<Bytes>): (s: Bytes)
      ensures Ok(files) ==> |s| == shadowStop - shadowStart
    {
      if Ok(files) then files[file][start..stop] else []
    }
  }

  function StopOf(parts: seq<Partition>): nat {
    if parts == [] then 0 else parts[|parts| - 1].shadowStop
  }

  /** The partitions cover [0, to) without gap or overlap. */
  predicate Tiles(parts: seq<Partition>, files: seq<Bytes>, to: nat) {
    && (forall i :: 0 <= i < |parts| ==> parts[i].Ok(files))
    && (forall i :: 0 <= i < |parts| ==> parts[i].shadowStart == StopOf(parts[..i]))
    && StopOf(parts) == to
  }

  /** The virtual file. */
  function Image(parts: seq<Partition>, files: seq<Bytes>): Bytes {
    if parts == [] then []
    else Image(parts[..|parts| - 1], files) + parts[|parts| - 1].Content(files)
  }

  lemma {:induction false} TilesInit(parts: seq<Partition>, files: seq<Bytes>, to: nat)
    requires Tiles(parts, files, to) && parts != []
    ensures Tiles(parts[..|parts| - 1], files, parts[|parts| - 1].shadowStart)
  {
    var init := parts[..|parts| - 1];
    assert forall i :: 0 <= i < |init| ==> init[i] == parts[i] && init[..i] == parts[..i];
  }

  lemma {:induction false} ImageLength(parts: seq<Partition>, files: seq<Bytes>, to: nat)
    requires Tiles(parts, files, to)
    ensures |Image(parts, files)| == to
  {
    if parts != [] {
      TilesInit(parts, files, to);
      ImageLength(parts[..|parts| - 1], files, parts[|parts| - 1].shadowStart);
    }
  }

  /** One more partition. */
  lemma TilesPush(parts: seq<Partition>, files: seq<Bytes>, to: nat, p: Partition)
    requires Tiles(parts, files, to) && p.Ok(files) && p.shadowStart == to
    ensures Tiles(parts + [p], files, p.shadowStop)
    ensures Image(parts + [p], files) == Image(parts, files) + p.Content(files)
  {
    hide Partition.Ok;
    var more := parts + [p];
    assert more[..|more| - 1] == parts;
    forall i | 0 <= i < |more| ensures more[i].Ok(files) && more[i].shadowStart == StopOf(more[..i]) {
      if i < |parts| {
        assert more[i] == parts[i] && more[..i] == parts[..i];
      } else {
        assert more[..i] == parts;
      }
    }
  }

  /** The last partition, made longer. */
  lemma TilesExtend(parts: seq<Partition>, files: seq<Bytes>, to: nat, n: nat)
    requires Tiles(parts, files, to) && parts != []
    requires var p := parts[|parts| - 1]; p.stop + n <= |files[p.file]|
    ensures var p := parts[|parts| - 1];
      var longer := parts[..|parts| - 1] + [p.(shadowStop := p.shadowStop + n, stop := p.stop + n)];
      && Tiles(longer, files, to + n)
      && Image(longer, files) == Image(parts, files) + files[p.file][p.stop..p.stop + n]
  {
    hide Tiles, Image;
    ImageSplit(parts, files);
    var p, init := parts[|parts| - 1], parts[..|parts| - 1];
    var q := p.(shadowStop := p.shadowStop + n, stop := p.stop + n);
    TilesInit(parts, files, to);
    LastOk(parts, files, to);
    TilesPush(init, files, p.shadowStart, q);
    assert q.Content(files) == p.Content(files) + files[p.file][p.stop..p.stop + n];
    Regroup(Image(init, files), p.Content(files), files[p.file][p.stop..p.stop + n]);
  }

  lemma ImageSplit(parts: seq<Partition>, files: seq<Bytes>)
    requires parts != []
    ensures Image(parts, files) == Image(parts[..|parts| - 1], files) + parts[|parts| - 1].Content(files)
  {
  }

  lemma LastOk(parts: seq<Partition>, files: seq<Bytes>, to: nat)
    requires Tiles(parts, files, to)
    ensures forall i :: 0 <= i < |parts| ==> parts[i].Ok(files)
    ensures parts != [] ==> parts[|parts| - 1].shadowStop == to
  {
  }

  lemma Regroup(a: Bytes, b: Bytes, c: Bytes)
    ensures a + (b + c) == a + b + c
  {
  }

  /** Appending to a file changes no partition. */
  lemma {:induction false} ImageKept(parts: seq<Partition>, files: seq<Bytes>, to: nat, i: nat, more: Bytes)
    requires Tiles(parts, files, to) && i < |files|
    ensures Tiles(parts, files[i := files[i] + more], to)
    ensures Image(parts, files[i := files[i] + more]) == Image(parts, files)
  {
    var files' := files[i := files[i] + more];
    forall k | 0 <= k < |parts| ensures parts[k].Ok(files') && parts[k].Content(files') == parts[k].Content(files) {
      assert parts[k].Ok(files);
    }
    if parts != [] {
      TilesInit(parts, files, to);
      ImageKept(parts[..|parts| - 1], files, parts[|parts| - 1].shadowStart, i, more);
    }
  }

  // ---------- what an entry contributes ----------

  const ALIGNMENT: nat := 4

  function Zeros(n: nat): (s: Bytes)
    ensures |s| == n && forall i :: 0 <= i < n ==> s[i] == 0
  {
    seq(n, _ => 0)
  }

  /** The padding that add_entry_to_partition computes for an entry placed at a position. */
  function Padding(e: Entry, at: nat): (p: nat)
    ensures p < ALIGNMENT
  {
    if e.IsCompressed() || e.IsDirectory() then 0
    else (ALIGNMENT - (at + LFH_LEN + |e.lfh.fileName| + |e.lfh.extraField|) % ALIGNMENT) % ALIGNMENT
  }

  function Padded(h: LocalHeader, padding: nat): LocalHeader {
    h.(extraField := h.extraField + Zeros(padding))
  }

  /** Stored data starts on a multiple of four, wherever its entry is placed. */
  lemma StoredIsAligned(e: Entry, at: nat)
    requires !e.IsCompressed() && !e.IsDirectory()
    ensures (at + Padded(e.lfh, Padding(e, at)).Len()) % ALIGNMENT == 0
  {
    var x := at + LFH_LEN + |e.lfh.fileName| + |e.lfh.extraField|;
    assert at + Padded(e.lfh, Padding(e, at)).Len() == x + Padding(e, at);
  }

  /** The entry's range lies inside the file, and its numbers fit the code's ints. */
  predicate Fits(e: Entry, file: Bytes) {
    |file| < 0x8000_0000 && e.EntryEnd() <= |file| && |e.lfh.extraField| + ALIGNMENT <= 0x1_0000
  }

  /** And the entry was read from this file, which parse_apk sees to. */
  predicate Good(e: Entry, file: Bytes) {
    Fits(e, file) && e.cde.Ok() && !e.IsDirectory() && ReadLocal(file[e.EntryBegin()..]) == Some(e.lfh)
  }

  /** Data, and the data descriptor if there is one. */
  function Data(e: Entry, file: Bytes): Bytes {
    if e.EntryEnd() <= |file| then file[e.FileOffset()..e.EntryEnd()] else []
  }

  /** The entry as it should appear at a position of the virtual file. */
  function Piece(e: Entry, file: Bytes, at: nat): Bytes {
    Padded(e.lfh, Padding(e, at)).Written() + Data(e, file)
  }

  /** What add_entry_to_partition makes of it: without padding it relies on the header in the file. */
  function RawPiece(e: Entry, file: Bytes, at: nat): Bytes {
    if Padding(e, at) != 0 then Piece(e, file, at)
    else if e.EntryEnd() <= |file| then file[e.EntryBegin()..e.EntryEnd()] else []
  }

  lemma RawPieceIs(e: Entry, file: Bytes, at: nat)
    requires Fits(e, file)
    ensures e.EntryBegin() + e.lfh.Len() == e.FileOffset() <= e.EntryEnd() <= |file| < 0x8000_0000
    ensures Padded(e.lfh, Padding(e, at)).Len() == e.lfh.Len() + Padding(e, at)
    ensures Padding(e, at) == 0 ==>
      RawPiece(e, file, at) == file[e.EntryBegin()..e.EntryEnd()] && Padded(e.lfh, Padding(e, at)) == e.lfh
    ensures Padding(e, at) != 0 ==>
      RawPiece(e, file, at) == Padded(e.lfh, Padding(e, at)).Written() + file[e.FileOffset()..e.EntryEnd()]
    ensures e.lfh.Len() <= |RawPiece(e, file, at)|
  {
    hide LocalHeader.Written, Padding;
    assert e.lfh.extraField + Zeros(0) == e.lfh.extraField;
  }

  /** For an entry that was read from the file the two are the same. */
  lemma UnpaddedPiece(e: Entry, file: Bytes, at: nat)
    requires Good(e, file)
    ensures RawPiece(e, file, at) == Piece(e, file, at)
  {
    hide LocalHeader.Written, ReadLocal, Entry.IsDirectory, CentralEntry.Ok, Padding;
    if Padding(e, at) == 0 {
      var s := file[e.EntryBegin()..];
      WrittenReadLocal(s);
      assert e.lfh.extraField + Zeros(0) == e.lfh.extraField;
      assert s[..e.lfh.Len()] == file[e.EntryBegin()..e.FileOffset()];
    }
  }

  /** Keep the low 32 bits, as a signed number. */
  function Int32(x: int): int {
    var y := x % 0x1_0000_0000;
    if y < 0x8000_0000 then y else y - 0x1_0000_0000
  }

  const HEADERS: nat := 1

  /** The files with the current contents of the file for changed headers. */
  function WithHeaders(files: seq<Bytes>, headers: Bytes): seq<Bytes>
    requires |files| > HEADERS
  {
    files[HEADERS := headers]
  }

  lemma OtherFile(files: seq<Bytes>, headers: Bytes, file: nat)
    requires |files| > HEADERS && file < |files| && file != HEADERS
    ensures |WithHeaders(files, headers)| == |files| && WithHeaders(files, headers)[file] == files[file]
  {
  }

  /** The reference parameters of add_entry_to_partition. */
  class Partitions {
    var preFileIndex: int
    var preFileStop: nat
    var preShadowStop: nat
    var partitions: seq<Partition>
    const headers: Stream

    ghost predicate Valid(files: seq<Bytes>)
      reads this, headers
    {
      && |files| > HEADERS && headers.pos == |headers.data| < 0x8000_0000
      && Tiles(partitions, WithHeaders(files, headers.data), preShadowStop)
      && (partitions == [] ==> preFileIndex == -1)
      && (partitions != [] ==> EndsAt(preFileIndex, preFileStop))
    }

    /** The last partition stops there. */
    ghost predicate EndsAt(file: int, stop: nat)
      reads this
    {
      partitions != [] && partitions[|partitions| - 1].file == file && partitions[|partitions| - 1].stop == stop
    }

    ghost function Denoted(files: seq<Bytes>): Bytes
      reads this, headers
      requires |files| > HEADERS
    {
      Image(partitions, WithHeaders(files, headers.data))
    }

    constructor (headers: Stream, ghost files: seq<Bytes>)
      requires |files| > HEADERS && headers.data == [] && headers.pos == 0
      ensures Valid(files) && Denoted(files) == [] && preShadowStop == 0 && this.headers == headers
    {
      preFileIndex, preFileStop, preShadowStop, partitions := -1, 0, 0, [];
      this.headers := headers;
    }

    /** The last partition grows by n bytes of its file. */
    method Extend(n: nat, ghost fs: seq<Bytes>)
      requires Tiles(partitions, fs, preShadowStop) && partitions != []
      requires var p := partitions[|partitions| - 1]; p.file < |fs| && p.stop + n <= |fs[p.file]|
      modifies `partitions, `preShadowStop
      ensures Tiles(partitions, fs, preShadowStop) && preShadowStop == old(preShadowStop) + n
      ensures var p := old(partitions)[|old(partitions)| - 1];
        && Image(partitions, fs) == Image(old(partitions), fs) + fs[p.file][p.stop..p.stop + n]
        && partitions == old(partitions)[..|old(partitions)| - 1]
             + [p.(shadowStop := p.shadowStop + n, stop := p.stop + n)]
        && EndsAt(p.file, p.stop + n)
    {
      hide Tiles, Image;
      TilesExtend(partitions, fs, preShadowStop, n);
      var last := |partitions| - 1;
      var p := partitions[last];
      partitions := partitions[..last] + [p.(shadowStop := p.shadowStop + n, stop := p.stop + n)];
      preShadowStop := preShadowStop + n;
    }

    /** A new partition at the end. */
    method Push(length: nat, file: nat, start: nat, stop: nat, ghost fs: seq<Bytes>)
      requires Tiles(partitions, fs, preShadowStop)
      requires file < |fs| && start <= stop <= |fs[file]| && length == stop - start
      modifies `partitions, `preShadowStop
      ensures Tiles(partitions, fs, preShadowStop) && preShadowStop == old(preShadowStop) + length
      ensures Image(partitions, fs) == Image(old(partitions), fs) + fs[file][start..stop]
      ensures partitions ==
              old(partitions) + [Partition(old(preShadowStop), old(preShadowStop) + length, file, start, stop)]
      ensures EndsAt(file, stop)
    {
      hide Tiles, Image;
      var p := Partition(preShadowStop, preShadowStop + length, file, start, stop);
      TilesPush(partitions, fs, preShadowStop, p);
      partitions := partitions + [p];
      preShadowStop := preShadowStop + length;
    }

    /** The branch of add_entry_to_partition for a changed local header: the header goes to the
        file of changed headers and gets a partition of its own. */
    method PushPadded(placed: Entry, file: nat, start: nat, stop: nat, ghost files: seq<Bytes>)
      requires |files| > HEADERS && headers.pos == |headers.data|
      requires |headers.data| + placed.lfh.Len() < 0x8000_0000
      requires Tiles(partitions, WithHeaders(files, headers.data), preShadowStop)
      requires file < |files| && file != HEADERS && start <= stop <= |files[file]|
      modifies `partitions, `preShadowStop, headers
      ensures headers.data == old(headers.data) + placed.lfh.Written() && headers.pos == |headers.data|
      ensures Tiles(partitions, WithHeaders(files, headers.data), preShadowStop)
      ensures preShadowStop == old(preShadowStop) + |placed.lfh.Written() + files[file][start..stop]|
      ensures Denoted(files) == old(Denoted(files)) + (placed.lfh.Written() + files[file][start..stop])
      ensures EndsAt(file, stop)
    {
      hide Tiles, Image, LocalHeader.Written;
      ghost var before, h := headers.data, placed.lfh.Written();
      ghost var fs, image := WithHeaders(files, before), Image(partitions, WithHeaders(files, before));
      ghost var fs' := WithHeaders(files, before + h);
      ImageKept(partitions, fs, preShadowStop, HEADERS, h);
      assert fs[HEADERS := fs[HEADERS] + h] == fs';
      var headerFileStart := Int32(headers.pos);
      WriteLocalHeader(placed.lfh, headers);
      var headerFileStop := Int32(headers.pos);
      assert headerFileStart == |before| && headerFileStop == |before + h|;
      Push(headerFileStop - headerFileStart, HEADERS, headerFileStart, headerFileStop, fs');
      assert fs'[HEADERS][|before|..|before + h|] == h;
      Push(stop - start, file, start, stop, fs');
      Regroup(image, h, files[file][start..stop]);
    }

    /** add_entry_to_partition; the entry comes back with its local header padded. */
    method AddEntry(e: Entry, file: nat, ghost files: seq<Bytes>) returns (placed: Entry)
      requires Valid(files) && file < |files| && file != HEADERS && Fits(e, files[file])
      requires |headers.data| + e.lfh.Len() + ALIGNMENT < 0x8000_0000
      modifies this, headers
      ensures Valid(files)
      ensures Denoted(files) == old(Denoted(files)) + RawPiece(e, files[file], old(preShadowStop))
      ensures preShadowStop == old(preShadowStop) + |RawPiece(e, files[file], old(preShadowStop))|
      ensures placed == e.(lfh := Padded(e.lfh, Padding(e, old(preShadowStop))))
      ensures headers.data == old(headers.data)
                + if Padding(e, old(preShadowStop)) == 0 then [] else placed.lfh.Written()
    {
      hide Tiles, Image, Padding, Padded, AddPadding, RawPiece, Fits, LocalHeader.Written, LocalHeader.Len, Entry.HasDD,
        Entry.EntryBegin, Entry.FileOffset, Entry.EntryEnd, WithHeaders;
      OtherFile(files, headers.data, file);
      ghost var fs, at := WithHeaders(files, headers.data), preShadowStop;
      RawPieceIs(e, files[file], at);
      var fileStart := e.EntryBegin();
      var padding := Padding(e, preShadowStop);
      var canMerge := file == preFileIndex && fileStart == preFileStop && padding == 0;
      preFileIndex := file;
      preFileStop := e.EntryEnd();
      var entrySize := Int32(preFileStop - fileStart);
      placed := e;
      if canMerge {
        Extend(entrySize, fs);
      } else if padding != 0 {
        AddPaddingPads(e.lfh, padding);
        placed := e.(lfh := AddPadding(e.lfh, padding));
        PushPadded(placed, file, e.FileOffset(), preFileStop, files);
      } else {
        Push(entrySize, file, fileStart, preFileStop, fs);
      }
    }
  }

  lemma GoodRange(e: Entry, file: Bytes)
    requires Good(e, file)
    ensures e.EntryBegin() + e.lfh.Len() == e.FileOffset() <= e.EntryEnd() <= |file| < 0x8000_0000
  {
  }

  /** ZipEntry::addPadding, for a positive padding. */
  function AddPadding(h: LocalHeader, padding: nat): LocalHeader {
    if |h.extraField| > 0 then h.(extraField := h.extraField + Zeros(padding))
    else h.(extraField := Zeros(padding))
  }

  lemma AddPaddingPads(h: LocalHeader, padding: nat)
    ensures AddPadding(h, padding) == Padded(h, padding)
  {
    assert [] + Zeros(padding) == Zeros(padding);
  }
}
