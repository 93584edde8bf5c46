/** Reading the virtual apk: fopen, fseek, rewind, fread, fclose and output_apk of
    zip/shadow_zip.cpp. */
module ShadowRead {
  import opened Bytes
  import opened Options
  import opened ShadowLayout

  /** A partition's content lies at its place in the virtual file. */
  lemma {:induction false} ImageAt(parts: seq<Partition>, files: seq<Bytes>, to: nat, i: nat)
    requires Tiles(parts, files, to) && i < |parts|
    ensures parts[i].shadowStart <= parts[i].shadowStop <= to == |Image(parts, files)|
    ensures Image(parts, files)[parts[i].shadowStart..parts[i].shadowStop] == parts[i].Content(files)
    decreases |parts|
  {
    hide Tiles, Image, Partition.Content;
    var n, p := |parts| - 1, parts[|parts| - 1];
    LastOk(parts, files, to);
    TilesInit(parts, files, to);
    ImageSplit(parts, files);
    ImageLength(parts, files, to);
    ImageLength(parts[..n], files, p.shadowStart);
    if i < n {
      ImageAt(parts[..n], files, p.shadowStart, i);
      assert parts[..n][i] == parts[i];
      SliceOfFirst(Image(parts[..n], files), p.Content(files), parts[i].shadowStart, parts[i].shadowStop);
    } else {
      SliceOfSecond(Image(parts[..n], files), p.Content(files));
    }
  }

  lemma SliceOfFirst(a: Bytes, b: Bytes, i: nat, j: nat)
    requires i <= j <= |a|
    ensures (a + b)[i..j] == a[i..j]
  {
  }

  lemma SliceOfSecond(a: Bytes, b: Bytes)
    ensures (a + b)[|a|..|a| + |b|] == b
  {
  }

  /** Part of a partition. */
  lemma ImageRange(parts: seq<Partition>, files: seq<Bytes>, to: nat, i: nat, from: nat, upto: nat)
    requires Tiles(parts, files, to) && i < |parts|
    requires parts[i].shadowStart <= from <= upto <= parts[i].shadowStop
    ensures upto <= to == |Image(parts, files)| && parts[i].Ok(files)
    ensures var p := parts[i];
      Image(parts, files)[from..upto] ==
      files[p.file][from - p.shadowStart + p.start..upto - p.shadowStart + p.start]
  {
    hide Tiles, Image;
    ImageAt(parts, files, to, i);
    LastOk(parts, files, to);
    var p, v := parts[i], Image(parts, files);
    SliceOfSlice(v, p.shadowStart, p.shadowStop, from - p.shadowStart, upto - p.shadowStart);
    SliceOfSlice(files[p.file], p.start, p.stop, from - p.shadowStart, upto - p.shadowStart);
  }

  lemma SliceOfSlice(s: Bytes, i: nat, j: nat, from: nat, upto: nat)
    requires i <= j <= |s| && from <= upto <= j - i
    ensures s[i..j][from..upto] == s[i + from..i + upto]
  {
    var t := s[i..j];
    forall k | 0 <= k < upto - from ensures t[from..upto][k] == s[i + from..i + upto][k] {
      assert t[from..upto][k] == t[from + k];
    }
  }

  datatype Whence = SeekSet | SeekCur | SeekEnd

  /** An open file: which one, and its own position. */
  datatype Handle = Handle(file: nat, pos: nat)

  /** Slot i of the cache belongs to file i, and at most one slot besides 0 is in use. */
  predicate CacheOk(handles: seq<Option<Handle>>) {
    && (forall i :: 0 <= i < |handles| && handles[i].Some? ==> handles[i].value.file == i)
    && forall i, j :: 0 < i < j < |handles| && handles[i].Some? ==> handles[j].None?
  }

  class ShadowZip {
    const partitions: seq<Partition>
    const files: seq<Bytes>
    const endOfFile: nat
    var pos: int
    var handles: seq<Option<Handle>>

    ghost predicate Valid()
      reads this
    {
      && Tiles(partitions, files, endOfFile) && endOfFile < 0x8000_0000_0000_0000 && |files| > 0
      && 0 <= pos <= endOfFile
      && CacheOk(handles) && |handles| == |files|
    }

    /** Everything the object shows. */
    ghost function Content(): Bytes {
      Image(partitions, files)
    }

    /** The constructor's copy of the global data, and fopen. */
    constructor (partitions: seq<Partition>, files: seq<Bytes>, endOfFile: nat)
      requires Tiles(partitions, files, endOfFile) && endOfFile < 0x8000_0000_0000_0000 && |files| > 0
      ensures Valid() && pos == 0 && handles[0].Some?
      ensures this.partitions == partitions && this.files == files && this.endOfFile == endOfFile
    {
      this.partitions, this.files, this.endOfFile := partitions, files, endOfFile;
      pos := 0;
      handles := seq(|files|, _ => None);
      new;
      hide Tiles;
      PrepareFile(0);
    }

    /** fseek; the offset is signed, and an unknown whence would count as an offset of 0 from here. */
    method Fseek(offset: int, whence: Whence) returns (ok: bool)
      requires Valid()
      modifies `pos
      ensures Valid()
      ensures var target := match whence
          case SeekSet => offset
          case SeekCur => old(pos) + offset
          case SeekEnd => endOfFile + offset;
        && (ok <==> 0 <= target <= endOfFile)
        && pos == if ok then target else old(pos)
    {
      hide Tiles;
      var curPos := pos;
      match whence {
        case SeekSet => pos := offset;
        case SeekCur => pos := pos + offset;
        case SeekEnd => pos := endOfFile + offset;
      }
      if pos < 0 || pos > endOfFile {
        pos := curPos;
        return false;
      }
      return true;
    }

    method Ftell() returns (p: int)
      requires Valid()
      ensures p == pos && 0 <= p <= endOfFile
    {
      p := pos;
    }

    method Rewind()
      requires Valid()
      modifies `pos
      ensures Valid() && pos == 0
    {
      pos := 0;
    }

    /** prepare_file: the slot of the file, all others besides 0 closed first when it is not open. */
    method PrepareFile(file: nat)
      requires CacheOk(handles) && file < |handles|
      modifies `handles
      ensures CacheOk(handles) && |handles| == |old(handles)| && handles[file].Some?
      ensures old(handles)[file].Some? ==> handles == old(handles)
      ensures forall i :: 0 <= i < |handles| && i != file ==>
        handles[i] == if i == 0 || old(handles)[file].Some? then old(handles)[i] else None
    {
      if handles[file].Some? { return; }
      var i := 1;
      while i < |handles|
        invariant 1 <= i && |handles| == |old(handles)|
        invariant forall j :: 0 < j < i && j < |handles| ==> handles[j] == None
        invariant forall j :: 0 <= j < |handles| && (j == 0 || j >= i) ==> handles[j] == old(handles)[j]
      {
        handles := handles[i := None];
        i := i + 1;
      }
      handles := handles[file := Some(Handle(file, 0))];
    }

    /** fseek and fread on the file behind a slot. */
    method ReadAt(file: nat, start: nat, n: nat) returns (s: Bytes)
      requires CacheOk(handles) && file < |handles| == |files| && handles[file].Some?
      requires start + n <= |files[file]|
      modifies `handles
      ensures s == files[file][start..start + n]
      ensures CacheOk(handles) && |handles| == |old(handles)|
      ensures handles == old(handles)[file := Some(Handle(file, start + n))]
    {
      var behind := handles[file].value.file;
      s := files[behind][start..start + n];
      handles := handles[file := Some(Handle(behind, start + n))];
    }

    /** One round of fread's loop: from begin to the end of the partition, or to end before that. */
    method ReadPart(info: Partition, begin: nat, end: nat, ghost i: nat) returns (piece: Bytes)
      requires Valid() && i < |partitions| && info == partitions[i]
      requires info.shadowStart <= begin < info.shadowStop && begin <= end
      modifies `handles
      ensures CacheOk(handles) && |handles| == |files|
      ensures var upto := if end >= info.shadowStop then info.shadowStop else end;
        upto <= |Content()| && piece == Content()[begin..upto]
    {
      hide Tiles, Image;
      var startInFile := begin - info.shadowStart + info.start;
      var stopInFile := if end >= info.shadowStop then info.stop else end - info.shadowStart + info.start;
      ghost var upto := if end >= info.shadowStop then info.shadowStop else end;
      ImageRange(partitions, files, endOfFile, i, begin, upto);
      PrepareFile(info.file);
      piece := ReadAt(info.file, startInFile, stopInFile - startInFile);
    }

    /** A round that reads something, and moves the position behind it. */
    method Advance(i: nat, end: nat, ghost start: nat, s: Bytes) returns (s': Bytes)
      requires Valid() && i < |partitions| && StopOf(partitions[..i]) <= pos < partitions[i].shadowStop && pos <= end
      requires start <= pos <= |Content()| && s == Content()[start..pos]
      modifies `pos, `handles
      ensures Valid() && pos == if end >= partitions[i].shadowStop then partitions[i].shadowStop else end
      ensures start <= pos <= |Content()| && s' == Content()[start..pos]
    {
      hide Tiles, Image, StopOf;
      var info, begin := partitions[i], pos;
      Bounds(partitions, files, endOfFile, i);
      ImageLength(partitions, files, endOfFile);
      var piece := ReadPart(info, begin, end, i);
      Joined(Content(), start, begin, begin + |piece|);
      s' := s + piece;
      pos := pos + |piece|;
    }

    /** The loop of fread, for a number of bytes. */
    method ReadBytes(n: nat) returns (s: Bytes)
      requires Valid() && pos + n < 0x1_0000_0000_0000_0000
      modifies `pos, `handles
      ensures Valid() && |Content()| == endOfFile
      ensures pos == if old(pos) + n <= endOfFile then old(pos) + n else endOfFile
      ensures s == Content()[old(pos)..pos]
    {
      hide Tiles, Image, CacheOk;
      ImageLength(partitions, files, endOfFile);
      var end := pos + n;
      ghost var v, start := Content(), pos;
      s := [];
      var i := 0;
      assert StopOf(partitions[..0]) == 0;
      while i < |partitions|
        invariant i <= |partitions| && Valid() && 0 <= start <= pos <= end
        invariant s == v[start..pos] && (pos == start || pos < end)
        invariant pos >= StopOf(partitions[..i])
      {
        Bounds(partitions, files, endOfFile, i);
        if pos < partitions[i].shadowStop {
          s := Advance(i, end, start, s);
          if pos >= end { return; }
        }
        i := i + 1;
      }
      assert partitions[..i] == partitions;
      Whole(partitions, files, endOfFile);
    }

    /** fread returns a count of bytes: it reads size * nmemb of them, or what is left, and none when the low 32
        bits of nmemb are zero or make a negative int. */
    method Fread(size: nat, nmemb: nat) returns (s: Bytes)
      requires Valid() && nmemb < 0x1_0000_0000_0000_0000 && pos + size * nmemb < 0x1_0000_0000_0000_0000
      modifies `pos, `handles
      ensures Valid() && |Content()| == endOfFile
      ensures var none := nmemb % 0x1_0000_0000 == 0 || nmemb % 0x1_0000_0000 >= 0x8000_0000;
        var stop := if none then old(pos) else if old(pos) + size * nmemb <= endOfFile then old(pos) + size * nmemb
                    else endOfFile;
        pos == stop && s == Content()[old(pos)..stop]
    {
      hide Tiles, Image, CacheOk;
      ImageLength(partitions, files, endOfFile);
      if Int32(nmemb) <= 0 { return []; }
      s := ReadBytes(size * nmemb);
    }

    method Fclose()
      modifies `handles
      ensures handles == []
    {
      handles := [];
    }
  }

  lemma Joined(v: Bytes, a: nat, b: nat, c: nat)
    requires a <= b <= c <= |v|
    ensures v[a..b] + v[b..c] == v[a..c]
  {
  }

  lemma Bounds(parts: seq<Partition>, files: seq<Bytes>, to: nat, i: nat)
    requires Tiles(parts, files, to) && i < |parts|
    ensures parts[i].Ok(files) && parts[i].shadowStart == StopOf(parts[..i])
    ensures parts[i].shadowStop == StopOf(parts[..i + 1])
  {
    assert parts[..i + 1][i] == parts[i];
  }

  lemma Whole(parts: seq<Partition>, files: seq<Bytes>, to: nat)
    requires Tiles(parts, files, to)
    ensures StopOf(parts) == to
  {
  }

  /** output_apk: reading 1024 bytes at a time until nothing comes copies the virtual file. */
  method OutputApk(partitions: seq<Partition>, files: seq<Bytes>, endOfFile: nat) returns (copy: Bytes)
    requires Tiles(partitions, files, endOfFile) && endOfFile < 0x8000_0000_0000_0000 && |files| > 0
    ensures copy == Image(partitions, files)
  {
    hide Tiles, Image;
    var test := new ShadowZip(partitions, files, endOfFile);
    ImageLength(partitions, files, endOfFile);
    copy := [];
    while true
      invariant fresh(test) && test.Valid() && test.partitions == partitions && test.files == files
      invariant test.endOfFile == endOfFile && copy == test.Content()[..test.pos]
      decreases endOfFile - test.pos
    {
      ghost var before := test.pos;
      var buffer := test.Fread(1, 1024);
      if |buffer| <= 0 { break; }
      copy := copy + buffer;
    }
    test.Fclose();
  }
}
