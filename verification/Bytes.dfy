/** Byte strings, and records of little-endian fields in them (zip/ZipEntry.h). */
module Bytes {
  import opened Powers

  type Byte = b: int | 0 <= b < 256

  type Bytes = seq<Byte>

  /** The string w is in s at o. */
  predicate Holds(s: Bytes, o: nat, w: Bytes) {
    o + |w| <= |s| && s[o..o + |w|] == w
  }

  // ---------- little-endian numbers ----------

  /** The low w bytes of v, least significant first. */
  function Le(v: nat, w: nat): (s: Bytes)
    ensures |s| == w
    decreases w
  {
    if w == 0 then [] else [v % 256] + Le(v / 256, w - 1)
  }

  lemma LeTwo(v: nat)
    ensures Le(v, 2) == [v % 256, v / 256 % 256]
  {
    assert Le(v, 2) == [v % 256] + Le(v / 256, 1);
    assert Le(v / 256, 1) == [v / 256 % 256] + Le(v / 256 / 256, 0);
  }

  lemma LeFour(v: nat)
    ensures Le(v, 4) == [v % 256, v / 256 % 256, v / 256 / 256 % 256, v / 256 / 256 / 256 % 256]
  {
    assert Le(v, 4) == [v % 256] + Le(v / 256, 3);
    assert Le(v / 256, 3) == [v / 256 % 256] + Le(v / 256 / 256, 2);
    LeTwo(v / 256 / 256);
  }

  function Number(s: Bytes): nat {
    if s == [] then 0 else s[0] + 256 * Number(s[1..])
  }

  lemma {:induction false} NumberOfLe(v: nat, w: nat)
    requires v < Pow2(8 * w)
    ensures Number(Le(v, w)) == v
    decreases w
  {
    if w > 0 {
      hide Pow2;
      ByteOfMultiple(1, w);
      NumberOfLe(v / 256, w - 1);
      assert Le(v, w)[1..] == Le(v / 256, w - 1);
    }
  }

  lemma {:induction false} LeOfNumber(s: Bytes)
    ensures Le(Number(s), |s|) == s
  {
    if s != [] {
      LeOfNumber(s[1..]);
      assert Number(s) % 256 == s[0] && Number(s) / 256 == Number(s[1..]);
      assert s == [s[0]] + s[1..];
    }
  }

  lemma {:induction false} NumberBound(s: Bytes)
    ensures Number(s) < Pow2(8 * |s|)
  {
    if s != [] {
      NumberBound(s[1..]);
      Pow2Add(8, 8 * |s[1..]|);
      PowersOfWords();
    }
  }

  /** Multiples of 256^w do not reach the low w bytes. */
  lemma {:induction false} LeIgnores(v: nat, k: nat, w: nat)
    ensures Le(v + k * Pow2(8 * w), w) == Le(v, w)
    decreases w
  {
    if w > 0 {
      hide Pow2;
      var q := k * Pow2(8 * (w - 1));
      ByteOfMultiple(k, w);
      PastOneByte(v, q);
      LeIgnores(v / 256, k, w - 1);
      assert Le(v + 256 * q, w) == [v % 256] + Le(v / 256 + q, w - 1);
    }
  }

  lemma ByteOfMultiple(k: nat, w: nat)
    requires w > 0
    ensures k * Pow2(8 * w) == 256 * (k * Pow2(8 * (w - 1)))
  {
    Pow2Add(8, 8 * (w - 1));
    PowersOfWords();
    MulSwap(k, 256, Pow2(8 * (w - 1)));
  }

  lemma MulSwap(a: int, b: int, c: int)
    ensures a * (b * c) == b * (a * c)
  {
  }

  lemma PastOneByte(v: nat, q: nat)
    ensures (v + 256 * q) % 256 == v % 256 && (v + 256 * q) / 256 == v / 256 + q
  {
  }

  // ---------- getShortLE, getLongLE, putShortLE, putLongLE ----------

  /** getLongLE computes an int and returns it as a 64-bit unsigned long: the sign spreads. */
  function Extend(x: nat): nat {
    if x < 0x8000_0000 then x else x + 0xffff_ffff_0000_0000
  }

  /** The number in a field of w bytes, w being 2 or 4. */
  function GetField(w: nat, s: Bytes): nat {
    if w == 4 then Extend(Number(s)) else Number(s)
  }

  /** What a field of w bytes can hold: every value that GetField gives. */
  predicate FieldOk(w: nat, v: nat) {
    if w == 4 then v < 0x8000_0000 || 0xffff_ffff_8000_0000 <= v < 0x1_0000_0000_0000_0000
    else w == 2 && v < 0x1_0000
  }

  /** Two bytes are a number, and four are one whose top bit spreads over the upper half of 64 bits. */
  lemma GetFieldIs(a: Byte, b: Byte, c: Byte, d: Byte)
    ensures GetField(2, [a, b]) == a as int + 0x100 * b as int
    ensures GetField(4, [a, b, c, d]) == a as int + 0x100 * b as int + 0x1_0000 * c as int + 0x100_0000 * d as int
                                         + if d < 128 then 0 else 0xffff_ffff_0000_0000
  {
    assert [a, b][1..] == [b] && [b][1..] == [];
    assert [a, b, c, d][1..] == [b, c, d] && [b, c, d][1..] == [c, d] && [c, d][1..] == [d] && [d][1..] == [];
    assert Number([a, b]) == a as int + 0x100 * Number([b]) && Number([b]) == b;
    assert Number([c, d]) == c as int + 0x100 * Number([d]) && Number([d]) == d;
    assert Number([a, b, c, d]) == a as int + 0x100 * Number([b, c, d]);
    assert Number([b, c, d]) == b as int + 0x100 * Number([c, d]);
  }

  lemma GetPut(w: nat, v: nat)
    requires FieldOk(w, v)
    ensures GetField(w, Le(v, w)) == v
  {
    PowersOfWords();
    if w == 4 && v >= 0x8000_0000 {
      var x := v - 0xffff_ffff_0000_0000;
      LeIgnores(x, 0xffff_ffff, 4);
      NumberOfLe(x, 4);
    } else {
      NumberOfLe(v, w);
    }
  }

  lemma PutGet(w: nat, s: Bytes)
    requires (w == 2 || w == 4) && |s| == w
    ensures Le(GetField(w, s), w) == s && FieldOk(w, GetField(w, s))
  {
    PowersOfWords();
    NumberBound(s);
    LeOfNumber(s);
    if w == 4 && Number(s) >= 0x8000_0000 {
      LeIgnores(Number(s), 0xffff_ffff, 4);
    }
  }

  // ---------- records of fields ----------

  /** The widths of the fields, in order. */
  type Layout = seq<nat>

  function Size(layout: Layout): nat {
    if layout == [] then 0 else layout[0] + Size(layout[1..])
  }

  predicate IsLayout(layout: Layout) {
    forall i :: 0 <= i < |layout| ==> layout[i] == 2 || layout[i] == 4
  }

  predicate FieldsOk(layout: Layout, fields: seq<nat>) {
    |fields| == |layout| && forall i :: 0 <= i < |layout| ==> FieldOk(layout[i], fields[i])
  }

  function PutAll(layout: Layout, fields: seq<nat>): (s: Bytes)
    requires |fields| == |layout|
    ensures |s| == Size(layout)
    decreases |layout|
  {
    if layout == [] then [] else Le(fields[0], layout[0]) + PutAll(layout[1..], fields[1..])
  }

  function GetAll(layout: Layout, s: Bytes): (fields: seq<nat>)
    requires |s| == Size(layout)
    ensures |fields| == |layout|
    decreases |layout|
  {
    if layout == [] then []
    else [GetField(layout[0], s[..layout[0]])] + GetAll(layout[1..], s[layout[0]..])
  }

  lemma {:induction false} GetAllPutAll(layout: Layout, fields: seq<nat>)
    requires FieldsOk(layout, fields)
    ensures GetAll(layout, PutAll(layout, fields)) == fields
    decreases |layout|
  {
    if layout != [] {
      var head, tail := Le(fields[0], layout[0]), PutAll(layout[1..], fields[1..]);
      assert (head + tail)[..layout[0]] == head && (head + tail)[layout[0]..] == tail;
      GetPut(layout[0], fields[0]);
      GetAllPutAll(layout[1..], fields[1..]);
    }
  }

  lemma {:induction false} PutAllGetAll(layout: Layout, s: Bytes)
    requires IsLayout(layout) && |s| == Size(layout)
    ensures PutAll(layout, GetAll(layout, s)) == s && FieldsOk(layout, GetAll(layout, s))
    decreases |layout|
  {
    if layout != [] {
      PutGet(layout[0], s[..layout[0]]);
      PutAllGetAll(layout[1..], s[layout[0]..]);
      assert s == s[..layout[0]] + s[layout[0]..];
    }
  }

  lemma {:induction false} SizeOfPrefix(layout: Layout, i: nat)
    requires i < |layout|
    ensures Size(layout[..i]) + layout[i] <= Size(layout)
    ensures i > 0 ==> Size(layout[..i]) == layout[0] + Size(layout[1..][..i - 1])
  {
    if i > 0 {
      assert layout[..i][1..] == layout[1..][..i - 1] && layout[..i][0] == layout[0];
      SizeOfPrefix(layout[1..], i - 1);
    }
  }

  /** Field i lies after the fields before it. */
  lemma {:induction false} FieldAt(layout: Layout, s: Bytes, i: nat)
    requires |s| == Size(layout) && i < |layout|
    ensures Size(layout[..i]) + layout[i] <= |s|
    ensures GetAll(layout, s)[i] == GetField(layout[i], s[Size(layout[..i])..Size(layout[..i]) + layout[i]])
    decreases |layout|
  {
    hide GetField;
    SizeOfPrefix(layout, i);
    if i > 0 {
      FieldAt(layout[1..], s[layout[0]..], i - 1);
      SliceOfDrop(s, layout[0], Size(layout[1..][..i - 1]), layout[i]);
    }
  }

  lemma {:induction false} PutAt(layout: Layout, fields: seq<nat>, i: nat)
    requires |fields| == |layout| && i < |layout|
    ensures Size(layout[..i]) + layout[i] <= Size(layout)
    ensures PutAll(layout, fields)[Size(layout[..i])..Size(layout[..i]) + layout[i]] == Le(fields[i], layout[i])
    decreases |layout|
  {
    hide Le, Size, PutAll;
    SizeOfPrefix(layout, i);
    PutSplit(layout, fields);
    var head, tail := Le(fields[0], layout[0]), PutAll(layout[1..], fields[1..]);
    if i > 0 {
      PutAt(layout[1..], fields[1..], i - 1);
      SliceOfRest(head, tail, Size(layout[1..][..i - 1]), layout[i]);
    } else {
      NoPrefix(layout);
    }
  }

  lemma PutSplit(layout: Layout, fields: seq<nat>)
    requires |fields| == |layout| && layout != []
    ensures PutAll(layout, fields) == Le(fields[0], layout[0]) + PutAll(layout[1..], fields[1..])
    ensures Size(layout) == layout[0] + Size(layout[1..])
  {
  }

  /** The record up to field i, and field i behind it. */
  lemma PutUpTo(layout: Layout, fields: seq<nat>, i: nat)
    requires |fields| == |layout| && i < |layout|
    ensures PutAll(layout[..i + 1], fields[..i + 1]) == PutAll(layout[..i], fields[..i]) + Le(fields[i], layout[i])
  {
    hide Le, PutAll;
    assert layout[..i + 1] == layout[..i] + [layout[i]] && fields[..i + 1] == fields[..i] + [fields[i]];
    PutAllSnoc(layout[..i], fields[..i], layout[i], fields[i]);
  }

  lemma PutWhole(layout: Layout, fields: seq<nat>)
    requires |fields| == |layout|
    ensures PutAll(layout[..0], fields[..0]) == []
    ensures PutAll(layout[..|layout|], fields[..|layout|]) == PutAll(layout, fields)
  {
    hide Le;
    assert layout[..|layout|] == layout && fields[..|layout|] == fields;
  }

  lemma NoPrefix(layout: Layout)
    ensures Size(layout[..0]) == 0
  {
  }

  lemma SliceOfRest(head: Bytes, tail: Bytes, o: nat, w: nat)
    requires o + w <= |tail|
    ensures (head + tail)[|head| + o..|head| + o + w] == tail[o..o + w]
  {
  }

  lemma SliceOfDrop(s: Bytes, d: nat, o: nat, w: nat)
    requires d + o + w <= |s|
    ensures s[d..][o..o + w] == s[d + o..d + o + w]
  {
  }

  /** Writing one more field. */
  lemma {:induction false} PutAllSnoc(layout: Layout, fields: seq<nat>, w: nat, v: nat)
    requires |fields| == |layout|
    ensures PutAll(layout + [w], fields + [v]) == PutAll(layout, fields) + Le(v, w)
    decreases |layout|
  {
    if layout == [] {
      assert [w][1..] == [] && [v][1..] == [];
      assert layout + [w] == [w] && fields + [v] == [v];
    } else {
      assert (layout + [w])[1..] == layout[1..] + [w] && (fields + [v])[1..] == fields[1..] + [v];
      PutAllSnoc(layout[1..], fields[1..], w, v);
    }
  }

  lemma {:induction false} SizeStep(layout: Layout, i: nat)
    requires i < |layout|
    ensures Size(layout[..i + 1]) == Size(layout[..i]) + layout[i]
    decreases |layout|
  {
    var t := layout[..i + 1];
    assert t[0] == layout[0] && t[1..] == layout[1..][..i];
    if i > 0 {
      assert layout[..i][0] == layout[0] && layout[..i][1..] == layout[1..][..i - 1];
      SizeStep(layout[1..], i - 1);
    }
  }

  /** Store a field at its place in a buffer. */
  function Put(buf: Bytes, at: nat, w: nat, v: nat): (r: Bytes)
    requires at + w <= |buf|
    ensures |r| == |buf|
  {
    buf[..at] + Le(v, w) + buf[at + w..]
  }

  /** Storing the fields one after another fills the buffer with the record. */
  lemma PutNext(layout: Layout, fields: seq<nat>, buf: Bytes, i: nat)
    requires |fields| == |layout| && i < |layout| && |buf| == Size(layout)
    requires Size(layout[..i]) <= |buf| && buf[..Size(layout[..i])] == PutAll(layout[..i], fields[..i])
    ensures Size(layout[..i + 1]) == Size(layout[..i]) + layout[i] <= |buf|
    ensures Put(buf, Size(layout[..i]), layout[i], fields[i])[..Size(layout[..i + 1])]
            == PutAll(layout[..i + 1], fields[..i + 1])
  {
    SizeStep(layout, i);
    SizeOfPrefix(layout, i);
    assert layout[..i + 1] == layout[..i] + [layout[i]] && fields[..i + 1] == fields[..i] + [fields[i]];
    PutAllSnoc(layout[..i], fields[..i], layout[i], fields[i]);
  }
}
