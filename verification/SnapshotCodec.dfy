/** The user.db snapshot: serial_utils.h, in the order of bootstrap.cpp. Numbers are written as
    they lie in memory, little-endian on every target. */
module SnapshotCodec {
  import opened Bytes
  import opened Options
  import opened Powers
  import opened ShadowLayout
  import opened Stdio

  const MAGIC: nat := 5460
  const BUFFER: nat := 4096
  const PARTITION_LEN: nat := 40

  datatype Snapshot = Snapshot(dataPath: Bytes, apkPath: Bytes, bundleId: Bytes, allFiles: seq<Bytes>,
                               partitions: seq<Partition>, endOfFile: nat)

  // ---------- the format ----------

  function StringBytes(s: Bytes): Bytes {
    Le(|s|, 4) + s
  }

  function StringsBytes(v: seq<Bytes>): Bytes {
    if v == [] then [] else StringBytes(v[0]) + StringsBytes(v[1..])
  }

  function PartitionBytes(p: Partition): (s: Bytes)
    ensures |s| == PARTITION_LEN
  {
    Le(p.shadowStart, 8) + (Le(p.shadowStop, 8) + (Le(p.file, 8) + (Le(p.start, 8) + Le(p.stop, 8))))
  }

  function PartitionsBytes(v: seq<Partition>): (s: Bytes)
    ensures |s| == PARTITION_LEN * |v|
  {
    if v == [] then [] else PartitionBytes(v[0]) + PartitionsBytes(v[1..])
  }

  /** What follows the three strings. */
  function ListsBytes(allFiles: seq<Bytes>, partitions: seq<Partition>, endOfFile: nat): Bytes {
    Le(|allFiles|, 4) + (StringsBytes(allFiles)
    + (Le(|partitions|, 4) + (PartitionsBytes(partitions) + Le(endOfFile, 8))))
  }

  function SnapshotBytes(s: Snapshot): Bytes {
    Le(MAGIC, 4) + (StringBytes(s.dataPath) + (StringBytes(s.apkPath) + (StringBytes(s.bundleId)
    + ListsBytes(s.allFiles, s.partitions, s.endOfFile))))
  }

  /** Numbers are 64 bits wide, counts 32, and no string outgrows the reader's buffer. */
  predicate Fits(s: Snapshot) {
    && |s.dataPath| <= 4096 && |s.apkPath| <= 4096 && |s.bundleId| <= 4096
    && |s.allFiles| < 0x1_0000_0000 && (forall x :: x in s.allFiles ==> |x| <= 4096)
    && PARTITION_LEN * |s.partitions| < 0x8000_0000 && (forall p :: p in s.partitions ==> PartitionFits(p))
    && s.endOfFile < 0x1_0000_0000_0000_0000
  }

  predicate PartitionFits(p: Partition) {
    && p.shadowStart < 0x1_0000_0000_0000_0000 && p.shadowStop < 0x1_0000_0000_0000_0000
    && p.file < 0x1_0000_0000_0000_0000 && p.start < 0x1_0000_0000_0000_0000
    && p.stop < 0x1_0000_0000_0000_0000
  }

  // ---------- writing ----------

  method SerialUint32(fp: Stream, i: nat)
    requires fp.pos == |fp.data|
    modifies fp
    ensures fp.pos == |fp.data| && fp.data == old(fp.data) + Le(i, 4)
  {
    fp.Fwrite(Le(i, 4));
  }

  method SerialString(fp: Stream, s: Bytes)
    requires fp.pos == |fp.data|
    modifies fp
    ensures fp.pos == |fp.data| && fp.data == old(fp.data) + StringBytes(s)
  {
    hide Le;
    SerialUint32(fp, |s|);
    fp.Fwrite(s);
  }

  method SerialStringVector(fp: Stream, v: seq<Bytes>)
    requires fp.pos == |fp.data|
    modifies fp
    ensures fp.pos == |fp.data| && fp.data == old(fp.data) + (Le(|v|, 4) + StringsBytes(v))
  {
    hide Le, StringBytes;
    SerialUint32(fp, |v|);
    ghost var start := fp.data;
    var i := 0;
    assert v[0..] == v;
    while i < |v|
      invariant i <= |v| && fp.pos == |fp.data|
      invariant fp.data + StringsBytes(v[i..]) == start + StringsBytes(v)
    {
      assert v[i..][0] == v[i] && v[i..][1..] == v[i + 1..];
      SerialString(fp, v[i]);
      i := i + 1;
    }
    assert fp.data + [] == fp.data;
  }

  method SerialPartitionVector(fp: Stream, v: seq<Partition>)
    requires fp.pos == |fp.data|
    modifies fp
    ensures fp.pos == |fp.data| && fp.data == old(fp.data) + (Le(|v|, 4) + PartitionsBytes(v))
  {
    hide Le, PartitionsBytes;
    SerialUint32(fp, |v|);
    fp.Fwrite(PartitionsBytes(v));
  }

  /** What use_data_dir writes. */
  method Save(fp: Stream, s: Snapshot)
    requires fp.pos == |fp.data|
    modifies fp
    ensures fp.pos == |fp.data| && fp.data == old(fp.data) + SnapshotBytes(s)
  {
    hide Le, StringBytes, StringsBytes, PartitionsBytes;
    SerialUint32(fp, MAGIC);
    SerialString(fp, s.dataPath);
    SerialString(fp, s.apkPath);
    SerialString(fp, s.bundleId);
    SerialStringVector(fp, s.allFiles);
    SerialPartitionVector(fp, s.partitions);
    fp.Fwrite(Le(s.endOfFile, 8));
  }

  // ---------- reading ----------

  lemma LeBack(v: nat, w: nat)
    requires v < Pow2(8 * w)
    ensures Number(Le(v, w)) == v
  {
    NumberOfLe(v, w);
  }

  lemma Widths()
    ensures Pow2(8 * 4) == 0x1_0000_0000 && Pow2(8 * 8) == 0x1_0000_0000_0000_0000
  {
    PowersOfWords();
    Pow2Add(32, 32);
  }

  /** unserial_uint32 gives -1 for a short read, and its callers do not look. */
  method UnserialUint32(fp: Stream, ghost v: nat, ghost rest: Bytes) returns (r: nat)
    modifies fp`pos
    ensures old(fp.Ahead()) == Le(v, 4) + rest && v < 0x1_0000_0000 ==> r == v && fp.Ahead() == rest
    ensures if |old(fp.Ahead())| < 4 then r == 0xffff_ffff && fp.Ahead() == []
            else r < 0x1_0000_0000 && old(fp.Ahead()) == Le(r, 4) + fp.Ahead()
  {
    hide Le, Number, Pow2, From;
    ghost var ahead := fp.Ahead();
    var s := fp.Fread(4);
    if |s| != 4 { return 0xffff_ffff; }
    r := Number(s);
    Widths();
    LeOfNumber(s);
    NumberBound(s);
    assert ahead == s + ahead[4..];
    if ahead == Le(v, 4) + rest && v < 0x1_0000_0000 {
      Widths();
      LeBack(v, 4);
      Split(Le(v, 4), rest);
    }
  }

  lemma Split(a: Bytes, b: Bytes)
    ensures (a + b)[..|a|] == a && (a + b)[|a|..] == b
  {
  }

  /** A string longer than the buffer would be read past its end. */
  method UnserialString(fp: Stream, ghost x: Bytes, ghost rest: Bytes) returns (r: Outcome<Bytes>)
    modifies fp`pos
    ensures old(fp.Ahead()) == StringBytes(x) + rest && |x| <= 4096 ==> r == Done(x) && fp.Ahead() == rest
    ensures r.Done? ==> |r.value| <= 4096 && old(fp.Ahead()) == StringBytes(r.value) + fp.Ahead()
  {
    hide Le, From;
    Regroup(Le(|x|, 4), x, rest);
    var len := UnserialUint32(fp, |x|, x + rest);
    ghost var ahead := fp.Ahead();
    var s := fp.Fread(len);
    Split(x, rest);
    if |s| > BUFFER { return Undefined; }
    if |s| != len { return Failed; }
    assert ahead == s + fp.Ahead();
    Regroup(Le(len, 4), s, fp.Ahead());
    return Done(s);
  }

  method UnserialUint64(fp: Stream, ghost v: nat, ghost rest: Bytes) returns (r: Outcome<nat>)
    modifies fp`pos
    ensures old(fp.Ahead()) == Le(v, 8) + rest && v < 0x1_0000_0000_0000_0000 ==> r == Done(v) && fp.Ahead() == rest
    ensures r.Done? ==> r.value < 0x1_0000_0000_0000_0000 && old(fp.Ahead()) == Le(r.value, 8) + fp.Ahead()
  {
    hide Le, Number, Pow2, From;
    ghost var ahead := fp.Ahead();
    var s := fp.Fread(8);
    if |s| != 8 { return Failed; }
    r := Done(Number(s));
    Widths();
    LeOfNumber(s);
    NumberBound(s);
    assert ahead == s + ahead[8..];
    if ahead == Le(v, 8) + rest && v < 0x1_0000_0000_0000_0000 {
      Widths();
      LeBack(v, 8);
      Split(Le(v, 8), rest);
    }
  }

  /** A vector of strings lies ahead, none too long for the buffer. */
  predicate StringsLie(ahead: Bytes, x: seq<Bytes>, rest: Bytes) {
    && ahead == Le(|x|, 4) + (StringsBytes(x) + rest) && |x| < 0x1_0000_0000
    && forall s :: s in x ==> |s| <= 4096
  }

  lemma {:induction false} StringsSnoc(v: seq<Bytes>, s: Bytes)
    ensures StringsBytes(v + [s]) == StringsBytes(v) + StringBytes(s)
  {
    hide Le, StringBytes;
    if v == [] {
      assert [s][1..] == [] && v + [s] == [s];
    } else {
      StringsSnoc(v[1..], s);
      assert (v + [s])[1..] == v[1..] + [s];
    }
  }

  lemma SomeBytes(s: Bytes, rest: Bytes)
    ensures StringBytes(s) + rest != []
  {
  }

  /** The strings from place i on, and what follows. */
  lemma StringsFrom(x: seq<Bytes>, i: nat, rest: Bytes)
    requires i < |x|
    ensures StringsBytes(x[i..]) + rest == StringBytes(x[i]) + (StringsBytes(x[i + 1..]) + rest)
    ensures x[..i] + [x[i]] == x[..i + 1] && x[i] in x
  {
    hide StringBytes;
    assert x[i..][0] == x[i] && x[i..][1..] == x[i + 1..];
    Regroup(StringBytes(x[i]), StringsBytes(x[i + 1..]), rest);
  }

  lemma AllStrings(x: seq<Bytes>, rest: Bytes)
    ensures StringsBytes(x[0..]) == StringsBytes(x) && x[..0] == [] && StringsBytes([]) == []
    ensures x[..|x|] == x && StringsBytes(x[|x|..]) + rest == rest && [] + rest == rest
  {
    hide StringBytes;
    assert x[0..] == x && x[|x|..] == [];
  }

  /** One more string has been read. */
  lemma StringsMore(v: seq<Bytes>, s: Bytes, rest: Bytes)
    ensures StringsBytes(v) + (StringBytes(s) + rest) == StringsBytes(v + [s]) + rest
  {
    hide StringBytes, StringsBytes;
    StringsSnoc(v, s);
    Regroup(StringsBytes(v), StringBytes(s), rest);
  }

  method UnserialStringVector(fp: Stream, ghost x: seq<Bytes>, ghost rest: Bytes) returns (r: Outcome<seq<Bytes>>)
    modifies fp`pos
    ensures StringsLie(old(fp.Ahead()), x, rest) ==> r == Done(x) && fp.Ahead() == rest
    ensures r.Done? ==> StringsLie(old(fp.Ahead()), r.value, fp.Ahead())
  {
    hide Le, From, StringBytes, StringsBytes, Stream.Ahead;
    ghost var ahead := fp.Ahead();
    ghost var wellFormed := StringsLie(ahead, x, rest);
    var len := UnserialUint32(fp, |x|, StringsBytes(x) + rest);
    var v: seq<Bytes> := [];
    var i := 0;
    AllStrings(x, rest);
    AllStrings(x, fp.Ahead());
    while i < len
      invariant i <= len && |v| == i && forall s :: s in v ==> |s| <= 4096
      invariant wellFormed ==> len == |x| && v == x[..i] && fp.Ahead() == StringsBytes(x[i..]) + rest
      invariant if |ahead| < 4 then fp.Ahead() == [] && i == 0 < len
                else len < 0x1_0000_0000 && ahead == Le(len, 4) + (StringsBytes(v) + fp.Ahead())
    {
      ghost var next, more: Bytes := [], [];
      if wellFormed {
        StringsFrom(x, i, rest);
        next, more := x[i], StringsBytes(x[i + 1..]) + rest;
      }
      var s := UnserialString(fp, next, more);
      if s.Failed? { return Failed; }
      if s.Undefined? { return Undefined; }
      SomeBytes(s.value, fp.Ahead());
      StringsMore(v, s.value, fp.Ahead());
      v := v + [s.value];
      i := i + 1;
    }
    return Done(v);
  }

  /** A FilePartitionInfo as it lies in memory. */
  function PartitionOf(s: Bytes): Partition
    requires |s| == PARTITION_LEN
  {
    Partition(Number(s[0..8]), Number(s[8..16]), Number(s[16..24]), Number(s[24..32]), Number(s[32..40]))
  }

  lemma PartitionBack(p: Partition)
    requires PartitionFits(p)
    ensures PartitionOf(PartitionBytes(p)) == p
  {
    hide Le, Number, Pow2;
    Widths();
    LeBack(p.shadowStart, 8);
    LeBack(p.shadowStop, 8);
    LeBack(p.file, 8);
    LeBack(p.start, 8);
    LeBack(p.stop, 8);
    var s := PartitionBytes(p);
    assert s[0..8] == Le(p.shadowStart, 8) && s[8..16] == Le(p.shadowStop, 8) && s[16..24] == Le(p.file, 8);
    assert s[24..32] == Le(p.start, 8) && s[32..40] == Le(p.stop, 8);
  }

  lemma PartitionThere(s: Bytes)
    requires |s| == PARTITION_LEN
    ensures PartitionBytes(PartitionOf(s)) == s && PartitionFits(PartitionOf(s))
  {
    hide Le, Number, Pow2;
    Widths();
    NumberThere(s[0..8]);
    NumberThere(s[8..16]);
    NumberThere(s[16..24]);
    NumberThere(s[24..32]);
    NumberThere(s[32..40]);
    assert s == s[0..8] + (s[8..16] + (s[16..24] + (s[24..32] + s[32..40])));
  }

  lemma NumberThere(s: Bytes)
    ensures Le(Number(s), |s|) == s && Number(s) < Pow2(8 * |s|)
  {
    LeOfNumber(s);
    NumberBound(s);
  }

  lemma {:induction false} PartitionsSnoc(v: seq<Partition>, p: Partition)
    ensures PartitionsBytes(v + [p]) == PartitionsBytes(v) + PartitionBytes(p)
  {
    hide PartitionBytes;
    if v == [] {
      assert [p][1..] == [] && v + [p] == [p];
    } else {
      PartitionsSnoc(v[1..], p);
      assert (v + [p])[1..] == v[1..] + [p];
    }
  }

  /** A vector of partitions lies ahead; the reader keeps its size in an int. */
  predicate PartitionsLie(ahead: Bytes, x: seq<Partition>, rest: Bytes) {
    && ahead == Le(|x|, 4) + (PartitionsBytes(x) + rest) && PARTITION_LEN * |x| < 0x8000_0000
    && forall p :: p in x ==> PartitionFits(p)
  }

  /** The loop that takes the partitions out of the buffer. */
  method PartitionsOf(f: Bytes, len: nat) returns (v: seq<Partition>)
    requires |f| == PARTITION_LEN * len
    ensures |v| == len && PartitionsBytes(v) == f && forall p :: p in v ==> PartitionFits(p)
  {
    hide PartitionBytes, PartitionsBytes, PartitionOf, PartitionFits;
    v := [];
    var i := 0;
    NoPartitions();
    while i < len
      invariant i <= len && |v| == i && (forall p :: p in v ==> PartitionFits(p))
      invariant f[..PARTITION_LEN * i] == PartitionsBytes(v)
    {
      DropSlice(f, PARTITION_LEN * i, PARTITION_LEN);
      var s := f[PARTITION_LEN * i..PARTITION_LEN * i + PARTITION_LEN];
      PartitionThere(s);
      PartitionsSnoc(v, PartitionOf(s));
      v := v + [PartitionOf(s)];
      i := i + 1;
    }
    assert f[..|f|] == f;
  }

  lemma NoPartitions()
    ensures PartitionsBytes([]) == []
  {
  }

  /** Only one vector has these bytes. */
  lemma {:induction false} SamePartitions(v: seq<Partition>, x: seq<Partition>)
    requires |v| == |x| && PartitionsBytes(v) == PartitionsBytes(x)
    requires (forall p :: p in v ==> PartitionFits(p)) && (forall p :: p in x ==> PartitionFits(p))
    ensures v == x
  {
    hide PartitionBytes, PartitionOf, PartitionFits;
    if v != [] {
      Split(PartitionBytes(v[0]), PartitionsBytes(v[1..]));
      Split(PartitionBytes(x[0]), PartitionsBytes(x[1..]));
      PartitionBack(v[0]);
      PartitionBack(x[0]);
      SamePartitions(v[1..], x[1..]);
      assert v == [v[0]] + v[1..] && x == [x[0]] + x[1..];
    }
  }

  method UnserialPartitionVector(fp: Stream, ghost x: seq<Partition>, ghost rest: Bytes)
    returns (r: Outcome<seq<Partition>>)
    modifies fp`pos
    ensures PartitionsLie(old(fp.Ahead()), x, rest) ==> r == Done(x) && fp.Ahead() == rest
    ensures r.Done? ==> PartitionsLie(old(fp.Ahead()), r.value, fp.Ahead())
  {
    hide Le, From, PartitionBytes, PartitionsBytes, PartitionFits, Stream.Ahead;
    ghost var wellFormed := PartitionsLie(fp.Ahead(), x, rest);
    var len := UnserialUint32(fp, |x|, PartitionsBytes(x) + rest);
    ghost var body := fp.Ahead();
    var f := fp.Fread(PARTITION_LEN * len);
    Split(PartitionsBytes(x), rest);
    if |f| != PARTITION_LEN * len || |f| >= 0x8000_0000 { return Failed; }
    assert body == f + fp.Ahead();
    var v := PartitionsOf(f, len);
    if wellFormed { SamePartitions(v, x); }
    return Done(v);
  }

  lemma DropSlice(f: Bytes, o: nat, n: nat)
    requires o + n <= |f|
    ensures f[o..][..n] == f[o..o + n] && f[o..][n..] == f[o + n..] && f[..o + n] == f[..o] + f[o..o + n]
  {
  }

  datatype Lists = Lists(allFiles: seq<Bytes>, partitions: seq<Partition>, endOfFile: nat)

  /** The lists of a snapshot lie ahead. */
  predicate ListsLie(ahead: Bytes, x: Lists, rest: Bytes) {
    && ahead == ListsBytes(x.allFiles, x.partitions, x.endOfFile) + rest && |x.allFiles| < 0x1_0000_0000
    && (forall s :: s in x.allFiles ==> |s| <= 4096) && PARTITION_LEN * |x.partitions| < 0x8000_0000
    && (forall p :: p in x.partitions ==> PartitionFits(p)) && x.endOfFile < 0x1_0000_0000_0000_0000
  }

  /** The part of extract_patch_info that fills the global data. */
  method LoadLists(fp: Stream, ghost x: Lists, ghost rest: Bytes) returns (r: Outcome<Lists>)
    modifies fp`pos
    ensures ListsLie(old(fp.Ahead()), x, rest) ==> r == Done(x) && fp.Ahead() == rest
    ensures r.Done? ==> ListsLie(old(fp.Ahead()), r.value, fp.Ahead())
  {
    hide Le, From, StringsBytes, PartitionsBytes, PartitionFits, Stream.Ahead, ListsBytes;
    ghost var end := Le(x.endOfFile, 8) + rest;
    ghost var parts := Le(|x.partitions|, 4) + (PartitionsBytes(x.partitions) + end);
    ListsNested(x.allFiles, x.partitions, x.endOfFile, rest);
    var allFiles := UnserialStringVector(fp, x.allFiles, parts);
    if !allFiles.Done? { return if allFiles.Failed? then Failed else Undefined; }
    var partitions := UnserialPartitionVector(fp, x.partitions, end);
    if !partitions.Done? { return if partitions.Failed? then Failed else Undefined; }
    var endOfFile := UnserialUint64(fp, x.endOfFile, rest);
    if !endOfFile.Done? { return if endOfFile.Failed? then Failed else Undefined; }
    ListsNested(allFiles.value, partitions.value, endOfFile.value, fp.Ahead());
    return Done(Lists(allFiles.value, partitions.value, endOfFile.value));
  }

  lemma ListsNested(allFiles: seq<Bytes>, partitions: seq<Partition>, endOfFile: nat, rest: Bytes)
    ensures ListsBytes(allFiles, partitions, endOfFile) + rest ==
      Le(|allFiles|, 4) + (StringsBytes(allFiles)
      + (Le(|partitions|, 4) + (PartitionsBytes(partitions) + (Le(endOfFile, 8) + rest))))
  {
    hide Le, StringsBytes, PartitionsBytes;
    var t3 := PartitionsBytes(partitions) + Le(endOfFile, 8);
    var t2 := Le(|partitions|, 4) + t3;
    var t1 := StringsBytes(allFiles) + t2;
    Regroup(Le(|allFiles|, 4), t1, rest);
    Regroup(StringsBytes(allFiles), t2, rest);
    Regroup(Le(|partitions|, 4), t3, rest);
    Regroup(PartitionsBytes(partitions), Le(endOfFile, 8), rest);
  }

  /** The four bytes of the magic number. */
  predicate MagicAhead(ahead: Bytes) {
    |ahead| >= 4 && ahead[0] == 0x54 && ahead[1] == 0x15 && ahead[2] == 0 && ahead[3] == 0
  }

  lemma MagicIs(ahead: Bytes, magic: nat, rest: Bytes)
    requires ahead == Le(magic, 4) + rest && magic < 0x1_0000_0000
    ensures magic == MAGIC <==> MagicAhead(ahead)
  {
    LeFour(magic);
  }

  /** What extract_patch_info reads: a snapshot from exactly the files that begin with one, and an error where
      the first four bytes are not the magic number. */
  method Load(fp: Stream, ghost x: Snapshot, ghost rest: Bytes) returns (r: Outcome<Snapshot>)
    modifies fp`pos
    ensures old(fp.Ahead()) == SnapshotBytes(x) + rest && Fits(x) ==> r == Done(x) && fp.Ahead() == rest
    ensures r.Done? ==> Fits(r.value) && old(fp.Ahead()) == SnapshotBytes(r.value) + fp.Ahead()
    ensures !MagicAhead(old(fp.Ahead())) ==> r == Failed
  {
    hide Le, From, StringBytes, ListsBytes, PartitionFits, Stream.Ahead, SnapshotBytes, MagicAhead;
    ghost var ahead := fp.Ahead();
    ghost var lists := ListsBytes(x.allFiles, x.partitions, x.endOfFile) + rest;
    ghost var t2 := StringBytes(x.bundleId) + lists;
    ghost var t1 := StringBytes(x.apkPath) + t2;
    Nested(x, rest);
    TooShort(ahead);
    var magic := UnserialUint32(fp, MAGIC, StringBytes(x.dataPath) + t1);
    if |ahead| >= 4 { MagicIs(ahead, magic, fp.Ahead()); }
    if magic != MAGIC { return Failed; }
    var dataPath := UnserialString(fp, x.dataPath, t1);
    if !dataPath.Done? { return if dataPath.Failed? then Failed else Undefined; }
    var apkPath := UnserialString(fp, x.apkPath, t2);
    if !apkPath.Done? { return if apkPath.Failed? then Failed else Undefined; }
    var bundleId := UnserialString(fp, x.bundleId, lists);
    if !bundleId.Done? { return if bundleId.Failed? then Failed else Undefined; }
    var data := LoadLists(fp, Lists(x.allFiles, x.partitions, x.endOfFile), rest);
    if !data.Done? { return if data.Failed? then Failed else Undefined; }
    var y := Snapshot(dataPath.value, apkPath.value, bundleId.value, data.value.allFiles, data.value.partitions,
                      data.value.endOfFile);
    Nested(y, fp.Ahead());
    return Done(y);
  }

  lemma TooShort(ahead: Bytes)
    ensures MagicAhead(ahead) ==> |ahead| >= 4
  {
  }

  /** The pieces of a snapshot, each followed by all the rest. */
  lemma Nested(x: Snapshot, rest: Bytes)
    ensures SnapshotBytes(x) + rest ==
      Le(MAGIC, 4) + (StringBytes(x.dataPath) + (StringBytes(x.apkPath) + (StringBytes(x.bundleId)
      + (ListsBytes(x.allFiles, x.partitions, x.endOfFile) + rest))))
  {
    hide Le, StringBytes, ListsBytes;
    var t4 := ListsBytes(x.allFiles, x.partitions, x.endOfFile);
    var t3 := StringBytes(x.bundleId) + t4;
    var t2 := StringBytes(x.apkPath) + t3;
    var t1 := StringBytes(x.dataPath) + t2;
    Regroup(Le(MAGIC, 4), t1, rest);
    Regroup(StringBytes(x.dataPath), t2, rest);
    Regroup(StringBytes(x.apkPath), t3, rest);
    Regroup(StringBytes(x.bundleId), t4, rest);
  }

  /** A later process reads back what was saved, and nothing is left over. */
  method SaveThenLoad(s: Snapshot) returns (r: Outcome<Snapshot>, left: nat)
    requires Fits(s)
    ensures r == Done(s) && left == 0
  {
    hide Le, SnapshotBytes, Fits;
    var fw := new Stream([]);
    Save(fw, s);
    var fp := new Stream(fw.data);
    assert fp.Ahead() == SnapshotBytes(s) + [];
    r := Load(fp, s, []);
    left := |From(fp.data, fp.pos)|;
  }
}
