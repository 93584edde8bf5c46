/** The SLEB128 decoder of xhook/xh_elf.c, against section 7.6 of DWARF 4. */
module Sleb128 {
  import opened Bytes
  import opened Options
  import opened Powers

  // ---------- the format ----------

  /** The bytes of one number: all but the last carry the continuation bit. */
  predicate IsSleb(s: seq<Byte>) {
    s != [] && s[|s| - 1] < 128 && forall i :: 0 <= i < |s| - 1 ==> s[i] >= 128
  }

  /** The low seven bits of each byte, least significant group first. */
  function Magnitude(s: seq<Byte>): nat {
    if s == [] then 0 else s[0] % 128 + 128 * Magnitude(s[1..])
  }

  /** The signed number: bit 6 of the last byte is the sign. */
  function Value(s: seq<Byte>): int
    requires IsSleb(s)
  {
    Magnitude(s) - if s[|s| - 1] % 128 >= 64 then Pow2(7 * |s|) else 0
  }

  /** The shortest spelling of v. */
  function Encode(v: int): (s: seq<Byte>)
    ensures IsSleb(s)
    decreases if v < 0 then -v else v
  {
    var b, rest := v % 128, v / 128;
    if (rest == 0 && b < 64) || (rest == -1 && b >= 64) then [b] else [b + 128] + Encode(rest)
  }

  lemma {:induction false} MagnitudeBound(s: seq<Byte>)
    ensures Magnitude(s) < Pow2(7 * |s|)
  {
    if s != [] {
      MagnitudeBound(s[1..]);
      Pow2Add(7, 7 * |s[1..]|);
      assert Pow2(7) == 128;
    }
  }

  lemma {:induction false} MagnitudeSnoc(s: seq<Byte>, b: Byte)
    ensures Magnitude(s + [b]) == Magnitude(s) + (b % 128) * Pow2(7 * |s|)
  {
    if s == [] {
      assert s + [b] == [b] && [b][1..] == [];
    } else {
      assert (s + [b])[1..] == s[1..] + [b];
      MagnitudeSnoc(s[1..], b);
      Pow2Add(7, 7 * |s[1..]|);
      assert Pow2(7) == 128;
      NextGroup(Magnitude(s[1..]), b % 128, Pow2(7 * |s[1..]|));
    }
  }

  lemma NextGroup(x: int, d: int, p: int)
    ensures 128 * (x + d * p) == 128 * x + d * (128 * p)
  {
  }

  /** A continued number is its first group and 128 times the rest. */
  lemma ValueCons(b: Byte, t: seq<Byte>)
    requires b < 128 && IsSleb(t)
    ensures IsSleb([b + 128] + t) && Value([b + 128] + t) == b + 128 * Value(t)
  {
    var s := [b + 128] + t;
    assert s[1..] == t;
    assert (b + 128) % 128 == b;
    Pow2Add(7, 7 * |t|);
    assert Pow2(7) == 128;
  }

  /** A last byte is a number from -64 to 63. */
  lemma ValueOfOne(b: Byte)
    requires b < 128
    ensures IsSleb([b]) && Value([b]) == if b < 64 then b else b - 128
  {
    assert [b][1..] == [];
    assert Magnitude([b]) == b % 128 == b;
    assert Pow2(7) == 128;
  }

  /** Every number is the value of its encoding. */
  lemma {:induction false} ValueOfEncode(v: int)
    ensures Value(Encode(v)) == v
    decreases if v < 0 then -v else v
  {
    var b, rest := v % 128, v / 128;
    if (rest == 0 && b < 64) || (rest == -1 && b >= 64) {
      assert [b][1..] == [];
      assert Magnitude([b]) == b % 128 == b;
      assert Pow2(7) == 128;
    } else {
      ValueOfEncode(rest);
      ValueCons(b, Encode(rest));
    }
  }

  /** A number of 7*k signed bits takes at most k bytes. */
  lemma {:induction false} EncodeLength(v: int, k: nat)
    requires k > 0 && -(Pow2(7 * k - 1) as int) <= v < Pow2(7 * k - 1)
    ensures |Encode(v)| <= k
    decreases k
  {
    var b, rest := v % 128, v / 128;
    assert Pow2(6) == 64;
    if k > 1 && !((rest == 0 && b < 64) || (rest == -1 && b >= 64)) {
      Pow2Add(7, 7 * (k - 1) - 1);
      assert Pow2(7) == 128;
      EncodeLength(rest, k - 1);
    }
  }

  // ---------- machine words ----------

  /** A word of w bits, as a number below 2^w. */
  function Word(v: int, w: nat): (r: nat)
    ensures r < Pow2(w)
  {
    v % Pow2(w)
  }

  /** The number a word of w bits stands for when read as signed. */
  function Signed(x: nat, w: nat): int
    requires w > 0
  {
    if x < Pow2(w - 1) then x else x - Pow2(w)
  }

  lemma SignedWord(x: nat, w: nat)
    requires w > 0 && x < Pow2(w)
    ensures Word(Signed(x, w), w) == x && -(Pow2(w - 1) as int) <= Signed(x, w) < Pow2(w - 1)
  {
    var m := Pow2(w);
    ModSmall(x, m);
    if x >= Pow2(w - 1) { ModEqual(x - m, x, -1, m); }
  }

  // ---------- the decoder ----------

  /** How many bytes from here to the end of the number, if it ends. */
  function NumberLength(s: seq<Byte>): (n: Option<nat>)
    ensures n.Some? ==> 0 < n.value <= |s| && IsSleb(s[..n.value])
    ensures n.None? ==> forall i :: 0 <= i < |s| ==> s[i] >= 128
  {
    if s == [] then None
    else if s[0] < 128 then assert s[..1] == [s[0]]; Some(1)
    else match NumberLength(s[1..])
      case None => None
      case Some(n) => assert s[..n + 1] == [s[0]] + s[1..][..n]; Some(n + 1)
  }

  lemma NumberLengthUnique(s: seq<Byte>, n: nat)
    requires 0 < n <= |s| && IsSleb(s[..n])
    ensures NumberLength(s) == Some(n)
  {
    var t := s[..n];
    assert t[n - 1] == s[n - 1] && t[0] == s[0];
    if n > 1 {
      assert s[1..][..n - 1] == t[1..];
      NumberLengthUnique(s[1..], n - 1);
    }
  }

  lemma {:induction false} NeverEnds(s: seq<Byte>)
    requires forall i :: 0 <= i < |s| ==> s[i] >= 128
    ensures NumberLength(s) == None
  {
    if s != [] { NeverEnds(s[1..]); }
  }

  /** What the loop has added up, and what sign extension makes of it. */
  lemma SignExtended(s: seq<Byte>, w: nat, acc: nat)
    requires IsSleb(s) && 7 * (|s| - 1) < w && acc == Magnitude(s) % Pow2(w)
    ensures var shift := 7 * |s|;
      Word(Value(s), w) ==
        if shift < w && s[|s| - 1] % 128 >= 64 then acc + Pow2(w) - Pow2(shift) else acc
  {
    hide Magnitude, Pow2, IsSleb;
    var shift, m := 7 * |s|, Pow2(w);
    MagnitudeBound(s);
    if shift < w {
      Pow2Mono(shift, w);
      WrapBelow(Magnitude(s), Pow2(shift), m);
    } else {
      Pow2Add(w, shift - w);
      ModEqual(Magnitude(s), Magnitude(s) - Pow2(shift), Pow2(shift - w), m);
    }
  }

  lemma WrapBelow(x: nat, p: nat, m: nat)
    requires x < p <= m
    ensures x % m == x && (x - p) % m == x + m - p
  {
    ModSmall(x, m);
    ModUnique(x - p, -1, x + m - p, m);
  }

  lemma OneMoreByte(s: seq<Byte>, b: Byte, w: nat)
    ensures Magnitude(s + [b]) % Pow2(w) == (Magnitude(s) % Pow2(w) + (b % 128) * Pow2(7 * |s|)) % Pow2(w)
  {
    MagnitudeSnoc(s, b);
    ModAddLeft(Magnitude(s), (b % 128) * Pow2(7 * |s|), Pow2(w));
  }

  /** The decoder reads words of the given width; wider numbers than that shift by too
      much, which C leaves undefined. */
  class Decoder {
    const data: seq<Byte>
    const width: nat
    var cur: nat

    predicate Valid()
      reads this
    {
      cur <= |data| && width > 0
    }

    constructor (data: seq<Byte>, width: nat)
      requires width > 0
      ensures Valid() && cur == 0 && this.data == data && this.width == width
    {
      this.data, this.width, cur := data, width, 0;
    }

    /** xh_elf_sleb128_decoder_next. */
    method Next() returns (ret: Option<nat>)
      requires Valid()
      modifies this
      ensures Valid()
      ensures var rest := old(data[cur..]);
        && (NumberLength(rest) == None ==> ret == None && cur == |data|)
        && (NumberLength(rest).Some? ==>
              var n := NumberLength(rest).value;
              && ret.Some? && cur == old(cur) + n
              && (7 * (n - 1) < width ==> ret.value == Word(Value(rest[..n]), width)))
    {
      hide Word, Value, Magnitude;
      ghost var start, rest := cur, data[cur..];
      var value: nat, shift: nat := 0, 0;
      var byte: Byte := 128;
      NothingRead(width);
      while byte >= 128
        invariant start <= cur <= |data| && shift == 7 * (cur - start)
        invariant forall i :: 0 <= i < cur - start - 1 ==> rest[i] >= 128
        invariant if cur == start then byte == 128 else byte == rest[cur - start - 1]
        invariant shift - 7 < width ==> value == Magnitude(rest[..cur - start]) % Pow2(width)
        decreases |data| - cur, byte
      {
        if cur >= |data| {
          NeverEnds(rest);
          return None;
        }
        byte := data[cur];
        assert rest[..cur + 1 - start] == rest[..cur - start] + [byte];
        OneMoreByte(rest[..cur - start], byte, width);
        if shift < width {
          value := (value + (byte % 128) * Pow2(shift)) % Pow2(width);
        }
        cur := cur + 1;
        shift := shift + 7;
      }
      ghost var s := rest[..cur - start];
      assert IsSleb(s);
      NumberLengthUnique(rest, cur - start);
      if 7 * (|s| - 1) < width {
        SignExtended(s, width, value);
      }
      if shift < width && byte % 128 >= 64 {
        Pow2Mono(shift, width);
        value := value + Pow2(width) - Pow2(shift);
      }
      return Some(value);
    }
  }

  lemma NothingRead(w: nat)
    ensures 0 == Magnitude([]) % Pow2(w)
  {
    ModSmall(0, Pow2(w));
  }

  /** Decoding undoes encoding for every signed number of the word size. */
  lemma RoundTrip(v: int, w: nat, rest: seq<Byte>)
    requires w > 0 && -(Pow2(w - 1) as int) <= v < Pow2(w - 1)
    ensures var n := |Encode(v)|;
      && NumberLength(Encode(v) + rest) == Some(n) && (Encode(v) + rest)[..n] == Encode(v)
      && 7 * (n - 1) < w && Value(Encode(v)) == v
  {
    var k := (w + 6) / 7;
    Pow2Mono(w - 1, 7 * k - 1);
    EncodeLength(v, k);
    ValueOfEncode(v);
    assert (Encode(v) + rest)[..|Encode(v)|] == Encode(v);
    NumberLengthUnique(Encode(v) + rest, |Encode(v)|);
  }
}
