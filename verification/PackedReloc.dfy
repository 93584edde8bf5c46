/** The iterator over Android's grouped ("APS2") packed relocations in xhook/xh_elf.c. */
module PackedReloc {
  import opened Bytes
  import opened Options
  import opened Powers
  import opened Sleb128

  const GROUPED_BY_INFO := 1
  const GROUPED_BY_OFFSET_DELTA := 2
  const GROUPED_BY_ADDEND := 4
  const HAS_ADDEND := 8

  predicate Flag(flags: nat, bit: nat)
    requires bit > 0
  {
    flags / bit % 2 == 1
  }

  lemma FlagBits(flags: nat)
    ensures Flag(flags, GROUPED_BY_INFO) <==> flags % 2 == 1
    ensures Flag(flags, GROUPED_BY_OFFSET_DELTA) <==> flags / 2 % 2 == 1
    ensures Flag(flags, GROUPED_BY_ADDEND) <==> flags / 4 % 2 == 1
    ensures Flag(flags, HAS_ADDEND) <==> flags / 8 % 2 == 1
  {
  }

  /** One relocation; all three fields are words. */
  datatype Reloc = Reloc(offset: nat, info: nat, addend: nat)

  datatype Group = Group(flags: nat, relocs: seq<Reloc>)

  // ---------- the writer's side ----------

  /** The tables come in two kinds, with addends (rela) and without. */
  datatype Format = Format(rela: bool, width: nat) {
    function Modulus(): (m: nat)
      ensures m > 0
    {
      Pow2(width)
    }

    predicate IsWord(r: Reloc) {
      r.offset < Modulus() && r.info < Modulus() && r.addend < Modulus()
    }

    predicate AddendPerItem(flags: nat) {
      rela && Flag(flags, HAS_ADDEND) && !Flag(flags, GROUPED_BY_ADDEND)
    }

    /** What a group with these flags can say of a relocation that follows prev. */
    predicate ItemFits(flags: nat, delta: nat, prev: Reloc, r: Reloc) {
      && IsWord(r)
      && (Flag(flags, GROUPED_BY_OFFSET_DELTA) ==> r.offset == (prev.offset + delta) % Modulus())
      && (Flag(flags, GROUPED_BY_INFO) ==> r.info == prev.info)
      && (!AddendPerItem(flags) ==> r.addend == prev.addend)
    }

    predicate ItemsFit(flags: nat, delta: nat, prev: Reloc, relocs: seq<Reloc>)
      decreases |relocs|
    {
      relocs != [] ==>
        ItemFits(flags, delta, prev, relocs[0]) && ItemsFit(flags, delta, relocs[0], relocs[1..])
    }

    /** The distance from a to b in machine arithmetic. */
    function Difference(a: nat, b: nat): (d: nat)
      ensures d < Modulus()
    {
      (b - a) % Modulus()
    }

    function ItemTokens(flags: nat, prev: Reloc, r: Reloc): seq<nat> {
      (if Flag(flags, GROUPED_BY_OFFSET_DELTA) then [] else [Difference(prev.offset, r.offset)])
      + (if Flag(flags, GROUPED_BY_INFO) then [] else [r.info])
      + (if AddendPerItem(flags) then [Difference(prev.addend, r.addend)] else [])
    }

    function ItemsTokens(flags: nat, prev: Reloc, relocs: seq<Reloc>): seq<nat>
      decreases |relocs|
    {
      if relocs == [] then [] else ItemTokens(flags, prev, relocs[0]) + ItemsTokens(flags, relocs[0], relocs[1..])
    }

    /** The offset step a group announces. */
    function Delta(g: Group, prev: Reloc): nat
      requires g.relocs != []
    {
      if Flag(g.flags, GROUPED_BY_OFFSET_DELTA) then Difference(prev.offset, g.relocs[0].offset) else 0
    }

    /** What the group's first relocation is measured against. */
    function Entry(g: Group, prev: Reloc): Reloc
      requires g.relocs != []
    {
      Reloc(prev.offset,
            if Flag(g.flags, GROUPED_BY_INFO) then g.relocs[0].info else prev.info,
            if !Flag(g.flags, HAS_ADDEND) then 0
            else if Flag(g.flags, GROUPED_BY_ADDEND) then g.relocs[0].addend
            else prev.addend)
    }

    predicate GroupFits(g: Group, prev: Reloc) {
      && g.relocs != [] && |g.relocs| < Modulus() && g.flags < Modulus()
      && (Flag(g.flags, HAS_ADDEND) && Flag(g.flags, GROUPED_BY_ADDEND) ==> rela)
      && ItemsFit(g.flags, Delta(g, prev), Entry(g, prev), g.relocs)
    }

    function HeaderTokens(g: Group, prev: Reloc): seq<nat>
      requires g.relocs != []
    {
      [|g.relocs|, g.flags]
      + (if Flag(g.flags, GROUPED_BY_OFFSET_DELTA) then [Delta(g, prev)] else [])
      + (if Flag(g.flags, GROUPED_BY_INFO) then [g.relocs[0].info] else [])
      + (if Flag(g.flags, HAS_ADDEND) && Flag(g.flags, GROUPED_BY_ADDEND)
         then [Difference(prev.addend, g.relocs[0].addend)] else [])
    }

    predicate GroupsFit(groups: seq<Group>, prev: Reloc) {
      groups != [] ==> GroupFits(groups[0], prev) && GroupsFit(groups[1..], Last(prev, groups[0].relocs))
    }

    function GroupsTokens(groups: seq<Group>, prev: Reloc): seq<nat>
      requires GroupsFit(groups, prev)
    {
      if groups == [] then [] else (
        HeaderTokens(groups[0], prev)
        + ItemsTokens(groups[0].flags, Entry(groups[0], prev), groups[0].relocs)
        + GroupsTokens(groups[1..], Last(prev, groups[0].relocs)))
    }

    lemma FirstGroup(flags: nat, groups: seq<Group>, prev: Reloc)
      requires groups != [] && GroupsFit(groups, prev)
      requires rela || prev.addend == 0
      ensures GroupFits(groups[0], prev) && groups[0].relocs != []
      ensures var g, entry := groups[0], Entry(groups[0], prev);
        && |g.relocs| < Modulus() && |All(groups)| == |g.relocs| + |All(groups[1..])|
        && (rela || entry.addend == 0)
        && ItemsFit(g.flags, Delta(g, prev), entry, g.relocs)
        && GroupsFit(groups[1..], Last(entry, g.relocs)) && Last(entry, g.relocs) == Last(prev, g.relocs)
      ensures ItemsTokens(flags, prev, []) + GroupsTokens(groups, prev) ==
              HeaderTokens(groups[0], prev)
              + (ItemsTokens(groups[0].flags, Entry(groups[0], prev), groups[0].relocs)
                 + GroupsTokens(groups[1..], Last(prev, groups[0].relocs)))
    {
      hide HeaderTokens;
    }

    lemma FirstItem(flags: nat, step: nat, prev: Reloc, relocs: seq<Reloc>, more: seq<nat>)
      requires relocs != [] && ItemsFit(flags, step, prev, relocs) && (rela || prev.addend == 0)
      ensures ItemFits(flags, step, prev, relocs[0]) && ItemsFit(flags, step, relocs[0], relocs[1..])
      ensures rela || relocs[0].addend == 0
      ensures Last(prev, relocs) == Last(relocs[0], relocs[1..])
      ensures ItemsTokens(flags, prev, relocs) + more ==
              ItemTokens(flags, prev, relocs[0]) + (ItemsTokens(flags, relocs[0], relocs[1..]) + more)
    {
      hide ItemTokens;
    }

    /** A whole table: the count, the base the first offset is measured against, the groups. */
    predicate Encodes(data: seq<Byte>, base: nat, groups: seq<Group>) {
      && GroupsFit(groups, Reloc(base, 0, 0))
      && |All(groups)| < Modulus() && base < Modulus()
      && Reads(data, [|All(groups)|, base] + GroupsTokens(groups, Reloc(base, 0, 0)), width)
    }

    /** The table written with the shortest numbers. */
    function Write(base: nat, groups: seq<Group>): seq<Byte>
      requires width > 0 && GroupsFit(groups, Reloc(base, 0, 0))
    {
      EncodeAll([|All(groups)|, base] + GroupsTokens(groups, Reloc(base, 0, 0)), width)
    }
  }

  function Last(prev: Reloc, relocs: seq<Reloc>): Reloc
    decreases |relocs|
  {
    if relocs == [] then prev else Last(relocs[0], relocs[1..])
  }

  /** The relocations the groups hold, in order. */
  function All(groups: seq<Group>): seq<Reloc> {
    if groups == [] then [] else groups[0].relocs + All(groups[1..])
  }

  // ---------- words as numbers in a byte string ----------

  /** The bytes start with numbers whose words are toks. */
  predicate Reads(s: seq<Byte>, toks: seq<nat>, w: nat)
    decreases |toks|
  {
    toks != [] ==>
      match NumberLength(s)
      case None => false
      case Some(n) =>
        7 * (n - 1) < w && Word(Value(s[..n]), w) == toks[0] && Reads(s[n..], toks[1..], w)
  }

  function EncodeAll(toks: seq<nat>, w: nat): seq<Byte>
    requires w > 0
  {
    if toks == [] then [] else Encode(Signed(toks[0], w)) + EncodeAll(toks[1..], w)
  }

  lemma {:induction false} EncodeAllReads(toks: seq<nat>, w: nat)
    requires w > 0 && forall t :: t in toks ==> t < Pow2(w)
    ensures Reads(EncodeAll(toks, w), toks, w)
    decreases |toks|
  {
    if toks != [] {
      var v, rest := Signed(toks[0], w), EncodeAll(toks[1..], w);
      assert forall t :: t in toks[1..] ==> t in toks;
      assert toks[0] in toks;
      SignedWord(toks[0], w);
      RoundTrip(v, w, rest);
      assert (Encode(v) + rest)[|Encode(v)|..] == rest;
      EncodeAllReads(toks[1..], w);
    }
  }

  // ---------- the iterator ----------

  class Iterator {
    const format: Format
    const decoder: Decoder
    var relocation_count: nat
    var group_size: nat
    var group_flags: nat
    var group_r_offset_delta: nat
    var relocation_index: nat
    var relocation_group_index: nat
    var r_offset: nat
    var r_info: nat
    var r_addend: nat

    ghost predicate Valid()
      reads this, decoder
    {
      decoder.Valid() && decoder.width == format.width
    }

    ghost function Rest(): seq<Byte>
      reads this, decoder
      requires Valid()
    {
      decoder.data[decoder.cur..]
    }

    ghost function Prev(): Reloc
      reads this
    {
      Reloc(r_offset, r_info, r_addend)
    }

    /** The offset step, when the current group has one. */
    ghost function Step(): nat
      reads this
    {
      if Flag(group_flags, GROUPED_BY_OFFSET_DELTA) then group_r_offset_delta else 0
    }

    /** Still to come: the rest of the current group, then the groups. */
    ghost predicate Pending(left: seq<Reloc>, groups: seq<Group>)
      reads this, decoder
    {
      && Valid()
      && relocation_index <= relocation_count < format.Modulus()
      && relocation_count - relocation_index == |left| + |All(groups)|
      && relocation_group_index <= group_size < format.Modulus()
      && group_size - relocation_group_index == |left|
      && (format.rela || r_addend == 0)
      && format.ItemsFit(group_flags, Step(), Prev(), left)
      && format.GroupsFit(groups, Last(Prev(), left))
      && Reads(Rest(), format.ItemsTokens(group_flags, Prev(), left)
                       + format.GroupsTokens(groups, Last(Prev(), left)), format.width)
    }

    constructor (data: seq<Byte>, format: Format)
      requires format.width > 0
      ensures Valid() && fresh(decoder)
      ensures this.format == format && decoder.data == data && decoder.cur == 0
      ensures relocation_count == relocation_index == group_size == relocation_group_index == 0
      ensures r_offset == r_info == r_addend == group_flags == group_r_offset_delta == 0
    {
      this.format := format;
      decoder := new Decoder(data, format.width);
      relocation_count, group_size, group_flags, group_r_offset_delta := 0, 0, 0, 0;
      relocation_index, relocation_group_index := 0, 0;
      r_offset, r_info, r_addend := 0, 0, 0;
    }

    /** xh_elf_sleb128_decoder_next, for a caller that knows which words are coming. */
    method Take(ghost tok: nat, ghost more: seq<nat>) returns (ret: Option<nat>)
      requires Valid()
      modifies decoder
      ensures Valid()
      ensures old(Reads(Rest(), [tok] + more, format.width)) ==>
                ret == Some(tok) && Reads(Rest(), more, format.width)
    {
      hide Word, Value;
      ghost var rest := Rest();
      ret := decoder.Next();
      assert NumberLength(rest).Some? ==> Rest() == rest[NumberLength(rest).value..];
      assert ([tok] + more)[1..] == more;
    }

    /** xh_elf_packed_reloc_iterator_init, after the fields have been cleared. */
    method Init(ghost base: nat, ghost groups: seq<Group>) returns (ok: bool)
      requires Valid() && relocation_index == group_size == relocation_group_index == 0
      requires r_info == r_addend == group_flags == 0
      modifies this, decoder
      ensures Valid()
      ensures old(format.Encodes(Rest(), base, groups)) ==>
                ok && Pending([], groups) && Prev() == Reloc(base, 0, 0)
    {
      hide Reads;
      ghost var wellFormed := format.Encodes(Rest(), base, groups);
      ghost var more := if wellFormed then format.GroupsTokens(groups, Reloc(base, 0, 0)) else [];
      assert [|All(groups)|, base] + more == [|All(groups)|] + ([base] + more);
      var count := Take(|All(groups)|, [base] + more);
      if count == None { return false; }
      relocation_count := count.value;
      var offset := Take(base, more);
      if offset == None { return false; }
      r_offset := offset.value;
      assert [] + more == more;
      return true;
    }

    /** xh_elf_packed_reloc_iterator_read_group_fields. */
    method ReadGroupFields(ghost g: Group, ghost more: seq<nat>) returns (ok: bool)
      requires Valid() && g.relocs != []
      modifies this, decoder
      ensures Valid() && relocation_count == old(relocation_count) && relocation_index == old(relocation_index)
      ensures ok && group_flags / 8 % 2 == 1 && group_flags / 4 % 2 == 1 ==> format.rela
      ensures old(format.GroupFits(g, Prev()) && Reads(Rest(), format.HeaderTokens(g, Prev()) + more, format.width)) ==>
                && ok && group_size == |g.relocs| && group_flags == g.flags && relocation_group_index == 0
                && Step() == format.Delta(g, old(Prev())) && Prev() == format.Entry(g, old(Prev()))
                && Reads(Rest(), more, format.width)
    {
      hide Reads, Pow2, Flag, Format.GroupFits, Format.ItemsFit, Format.HeaderTokens, Format.Modulus,
        Format.Difference, Decoder.Valid;
      ghost var first := g.relocs[0];
      ghost var delta, addend := format.Delta(g, Prev()), format.Difference(r_addend, first.addend);
      ghost var t1, t2, t3, t4 := Nest(format, g, Prev(), more);
      AddendReached(g, Prev(), format);
      ok := ReadGroupShape(|g.relocs|, g.flags, delta, first.info, t1, t2, t3, t4);
      if !ok { return; }
      ok := ReadGroupAddend(addend, more);
      relocation_group_index := 0;
    }

    /** The first part of xh_elf_packed_reloc_iterator_read_group_fields. */
    method ReadGroupShape(ghost size: nat, ghost flags: nat, ghost delta: nat, ghost info: nat, ghost t1: seq<nat>,
                          ghost t2: seq<nat>, ghost t3: seq<nat>, ghost t4: seq<nat>)
      returns (ok: bool)
      requires Valid() && t1 == [flags] + t2
      requires t2 == if Flag(flags, GROUPED_BY_OFFSET_DELTA) then [delta] + t3 else t3
      requires t3 == if Flag(flags, GROUPED_BY_INFO) then [info] + t4 else t4
      modifies `group_size, `group_flags, `group_r_offset_delta, `r_info, decoder
      ensures Valid()
      ensures old(Reads(Rest(), [size] + t1, format.width)) ==>
                && ok && Reads(Rest(), t4, format.width)
                && group_size == size && group_flags == flags
                && (Flag(flags, GROUPED_BY_OFFSET_DELTA) ==> group_r_offset_delta == delta)
                && r_info == if Flag(flags, GROUPED_BY_INFO) then info else old(r_info)
    {
      hide Reads, Pow2, Flag;
      var val := Take(size, t1);
      if val == None { return false; }
      group_size := val.value;
      val := Take(flags, t2);
      if val == None { return false; }
      group_flags := val.value;
      if Flag(group_flags, GROUPED_BY_OFFSET_DELTA) {
        val := Take(delta, t3);
        if val == None { return false; }
        group_r_offset_delta := val.value;
      }
      if Flag(group_flags, GROUPED_BY_INFO) {
        val := Take(info, t4);
        if val == None { return false; }
        r_info := val.value;
      }
      return true;
    }

    /** The last part of xh_elf_packed_reloc_iterator_read_group_fields; a shared addend in a table without
        addends is an error. */
    method ReadGroupAddend(ghost addend: nat, ghost more: seq<nat>) returns (ok: bool)
      requires Valid()
      modifies this`r_addend, decoder
      ensures Valid()
      ensures group_flags / 8 % 2 == 1 && group_flags / 4 % 2 == 1 && !format.rela ==> !ok
      ensures var grouped := Flag(group_flags, HAS_ADDEND) && Flag(group_flags, GROUPED_BY_ADDEND);
        (grouped ==> format.rela)
        && old(Reads(Rest(), if grouped then [addend] + more else more, format.width)) ==>
        && ok && Reads(Rest(), more, format.width)
        && r_addend ==
            if !Flag(group_flags, HAS_ADDEND) then 0
            else if grouped then (old(r_addend) + addend) % format.Modulus()
            else old(r_addend)
    {
      hide Reads, Flag, Pow2;
      FlagBits(group_flags);
      if Flag(group_flags, HAS_ADDEND) && Flag(group_flags, GROUPED_BY_ADDEND) {
        if !format.rela { return false; }
        var val := Take(addend, more);
        if val == None { return false; }
        r_addend := (r_addend + val.value) % format.Modulus();
      } else if !Flag(group_flags, HAS_ADDEND) {
        r_addend := 0;
      }
      return true;
    }

    /** The middle part of xh_elf_packed_reloc_iterator_next: one relocation's own fields. */
    method ReadItem(ghost r: Reloc, ghost more: seq<nat>) returns (ok: bool)
      requires Valid()
      modifies `r_offset, `r_info, `r_addend, decoder
      ensures Valid()
      ensures old(format.ItemFits(group_flags, Step(), Prev(), r)
                  && Reads(Rest(), format.ItemTokens(group_flags, Prev(), r) + more, format.width)) ==>
                ok && Prev() == r && Reads(Rest(), more, format.width)
    {
      hide Reads, Pow2, Flag, Format.ItemTokens, Format.ItemFits, Format.Modulus, Format.Difference;
      ghost var prev := Prev();
      ghost var t1, t2 := NestItem(format, group_flags, prev, r, more);
      ItemReached(format, group_flags, Step(), prev, r);
      if Flag(group_flags, GROUPED_BY_OFFSET_DELTA) {
        r_offset := (r_offset + group_r_offset_delta) % format.Modulus();
      } else {
        var val := Take(format.Difference(prev.offset, r.offset), t1);
        if val == None { return false; }
        r_offset := (r_offset + val.value) % format.Modulus();
      }
      if !Flag(group_flags, GROUPED_BY_INFO) {
        var val := Take(r.info, t2);
        if val == None { return false; }
        r_info := val.value;
      }
      if format.rela && Flag(group_flags, HAS_ADDEND) && !Flag(group_flags, GROUPED_BY_ADDEND) {
        var val := Take(format.Difference(prev.addend, r.addend), more);
        if val == None { return false; }
        r_addend := (r_addend + val.value) % format.Modulus();
      }
      return true;
    }

    /** The start of xh_elf_packed_reloc_iterator_next: the current group is used up. */
    method OpenGroup(ghost groups: seq<Group>) returns (ok: bool)
      requires Valid()
      modifies this, decoder
      ensures Valid()
      ensures groups != [] && old(Pending([], groups)) ==>
                && ok && groups[0].relocs != []
                && Pending(groups[0].relocs, groups[1..])
    {
      hide Reads, Pow2, Flag, All, Format.ItemsFit, Format.ItemsTokens, Format.GroupsFit, Format.GroupFits,
        Format.GroupsTokens, Format.HeaderTokens, Format.Entry, Format.Delta, Decoder.Valid;
      ghost var prev := Prev();
      ghost var pending := groups != [] && Pending([], groups);
      ghost var g := if pending then groups[0] else Group(0, [prev]);
      if pending { format.FirstGroup(group_flags, groups, prev); }
      ghost var more :=
        if pending
        then format.ItemsTokens(g.flags, format.Entry(g, prev), g.relocs)
             + format.GroupsTokens(groups[1..], Last(prev, g.relocs))
        else [];
      ok := ReadGroupFields(g, more);
    }

    /** The end of xh_elf_packed_reloc_iterator_next: a relocation of the current group. */
    method Advance(ghost left: seq<Reloc>, ghost groups: seq<Group>) returns (ret: Option<Reloc>)
      requires Valid()
      modifies this, decoder
      ensures Valid()
      ensures left != [] && old(Pending(left, groups)) ==> ret == Some(left[0]) && Pending(left[1..], groups)
    {
      hide Reads, Pow2, Flag, All, Last, Format.ItemsFit, Format.ItemsTokens, Format.ItemFits, Format.ItemTokens,
        Format.GroupsFit, Format.GroupsTokens, Format.Modulus, Decoder.Valid;
      ghost var prev := Prev();
      ghost var pending := left != [] && Pending(left, groups);
      ghost var r := if pending then left[0] else prev;
      ghost var more :=
        if pending
        then format.ItemsTokens(group_flags, r, left[1..]) + format.GroupsTokens(groups, Last(prev, left))
        else [];
      if pending {
        format.FirstItem(group_flags, Step(), prev, left, format.GroupsTokens(groups, Last(prev, left)));
        ModSmall(relocation_index + 1, format.Modulus());
        ModSmall(relocation_group_index + 1, format.Modulus());
      }
      var ok := ReadItem(r, more);
      if !ok { return None; }
      relocation_index := (relocation_index + 1) % format.Modulus();
      relocation_group_index := (relocation_group_index + 1) % format.Modulus();
      return Some(Reloc(r_offset, r_info, if format.rela then r_addend else 0));
    }

    /** xh_elf_packed_reloc_iterator_next. */
    method Next(ghost left: seq<Reloc>, ghost groups: seq<Group>) returns (ret: Option<Reloc>)
      requires Valid()
      modifies this, decoder
      ensures Valid()
      ensures old(Pending(left, groups)) ==>
                if left != [] then ret == Some(left[0]) && Pending(left[1..], groups)
                else if groups != [] then
                  && groups[0].relocs != []
                  && ret == Some(groups[0].relocs[0]) && Pending(groups[0].relocs[1..], groups[1..])
                else ret == None && Pending([], [])
    {
      hide Reads, Pow2;
      if relocation_index >= relocation_count { return None; }
      ghost var now, later := left, groups;
      if relocation_group_index == group_size {
        if groups != [] { now, later := groups[0].relocs, groups[1..]; }
        var ok := OpenGroup(groups);
        if !ok { return None; }
      }
      ret := Advance(now, later);
    }
  }

  lemma NestItem(format: Format, flags: nat, prev: Reloc, r: Reloc, more: seq<nat>)
    returns (t1: seq<nat>, t2: seq<nat>)
    ensures format.ItemTokens(flags, prev, r) + more ==
            if Flag(flags, GROUPED_BY_OFFSET_DELTA) then t1 else [format.Difference(prev.offset, r.offset)] + t1
    ensures t1 == if Flag(flags, GROUPED_BY_INFO) then t2 else [r.info] + t2
    ensures t2 == if format.AddendPerItem(flags) then [format.Difference(prev.addend, r.addend)] + more else more
  {
    t2 := if format.AddendPerItem(flags) then [format.Difference(prev.addend, r.addend)] + more else more;
    t1 := if Flag(flags, GROUPED_BY_INFO) then t2 else [r.info] + t2;
  }

  /** The running fields after one item are the item's own. */
  lemma ItemReached(format: Format, flags: nat, step: nat, prev: Reloc, r: Reloc)
    ensures format.ItemFits(flags, step, prev, r) ==>
      && r.offset == (prev.offset +
           if Flag(flags, GROUPED_BY_OFFSET_DELTA) then step else format.Difference(prev.offset, r.offset))
         % format.Modulus()
      && (Flag(flags, GROUPED_BY_INFO) ==> r.info == prev.info)
      && r.addend ==
           if format.AddendPerItem(flags)
           then (prev.addend + format.Difference(prev.addend, r.addend)) % format.Modulus()
           else prev.addend
  {
    if format.ItemFits(flags, step, prev, r) {
      AddDifference(prev.offset, r.offset, format.Modulus());
      AddDifference(prev.addend, r.addend, format.Modulus());
      ModSmall(r.offset, format.Modulus());
      ModSmall(r.addend, format.Modulus());
    }
  }

  lemma Nest(format: Format, g: Group, prev: Reloc, more: seq<nat>)
    returns (t1: seq<nat>, t2: seq<nat>, t3: seq<nat>, t4: seq<nat>)
    requires g.relocs != []
    ensures format.HeaderTokens(g, prev) + more == [|g.relocs|] + t1
    ensures t1 == [g.flags] + t2
    ensures t2 == if Flag(g.flags, GROUPED_BY_OFFSET_DELTA) then [format.Delta(g, prev)] + t3 else t3
    ensures t3 == if Flag(g.flags, GROUPED_BY_INFO) then [g.relocs[0].info] + t4 else t4
    ensures t4 == if Flag(g.flags, HAS_ADDEND) && Flag(g.flags, GROUPED_BY_ADDEND)
                  then [format.Difference(prev.addend, g.relocs[0].addend)] + more else more
  {
    t4 := if Flag(g.flags, HAS_ADDEND) && Flag(g.flags, GROUPED_BY_ADDEND)
          then [format.Difference(prev.addend, g.relocs[0].addend)] + more else more;
    t3 := if Flag(g.flags, GROUPED_BY_INFO) then [g.relocs[0].info] + t4 else t4;
    t2 := if Flag(g.flags, GROUPED_BY_OFFSET_DELTA) then [format.Delta(g, prev)] + t3 else t3;
    t1 := [g.flags] + t2;
  }

  /** A group whose relocations share an addend brings the running addend to it. */
  lemma AddendReached(g: Group, prev: Reloc, format: Format)
    requires g.relocs != []
    ensures format.GroupFits(g, prev) && Flag(g.flags, HAS_ADDEND) && Flag(g.flags, GROUPED_BY_ADDEND) ==>
              format.rela
    ensures format.GroupFits(g, prev) ==>
              (prev.addend + format.Difference(prev.addend, g.relocs[0].addend)) % format.Modulus()
              == g.relocs[0].addend
  {
    if format.GroupFits(g, prev) {
      var x := g.relocs[0].addend;
      AddDifference(prev.addend, x, format.Modulus());
      ModSmall(x, format.Modulus());
    }
  }

  lemma AddDifference(a: nat, b: nat, m: nat)
    requires m > 0
    ensures (a + (b - a) % m) % m == b % m
  {
    ModAddLeft(b - a, a, m);
  }

  /** The relocation loop of xh_elf_hook: init, then next until it returns NULL. */
  method ReadAll(data: seq<Byte>, format: Format, ghost base: nat, ghost groups: seq<Group>)
    returns (ok: bool, relocs: seq<Reloc>)
    requires format.width > 0
    requires format.Encodes(data, base, groups)
    ensures ok && relocs == All(groups)
  {
    hide All, Reads, Pow2, Format.GroupsFit, Format.GroupFits, Format.GroupsTokens, Iterator.Pending, Decoder.Valid;
    AllOfNone();
    var packed := new Iterator(data, format);
    assert packed.Rest() == data;
    ok := packed.Init(base, groups);
    relocs := [];
    ghost var left: seq<Reloc>, later := [], groups;
    while true
      invariant fresh(packed) && fresh(packed.decoder) && packed.Valid()
      invariant packed.Pending(left, later)
      invariant relocs + left + All(later) == All(groups)
      decreases |left| + |All(later)|
    {
      var reloc := packed.Next(left, later);
      if reloc == None { break; }
      MoveOne(relocs, if left != [] then left else later[0].relocs, if left != [] then later else later[1..]);
      if left == [] { OpenAll(relocs, later); }
      relocs := relocs + [reloc.value];
      if left != [] {
        left := left[1..];
      } else {
        left, later := later[0].relocs[1..], later[1..];
      }
    }
    return true, relocs;
  }

  lemma AllOfNone()
    ensures All([]) == [] && forall groups :: [] + [] + All(groups) == All(groups)
  {
  }

  lemma OpenAll(relocs: seq<Reloc>, groups: seq<Group>)
    requires groups != []
    ensures relocs + [] + All(groups) == relocs + groups[0].relocs + All(groups[1..])
  {
  }

  lemma MoveOne(relocs: seq<Reloc>, left: seq<Reloc>, later: seq<Group>)
    requires left != []
    ensures relocs + [left[0]] + left[1..] + All(later) == relocs + left + All(later)
    ensures |left[1..]| < |left|
  {
    assert relocs + [left[0]] + left[1..] == relocs + left;
  }

  lemma {:induction false} ItemsTokensAreWords(format: Format, flags: nat, step: nat, prev: Reloc, relocs: seq<Reloc>)
    requires format.ItemsFit(flags, step, prev, relocs)
    ensures forall t :: t in format.ItemsTokens(flags, prev, relocs) ==> t < format.Modulus()
    decreases |relocs|
  {
    if relocs != [] { ItemsTokensAreWords(format, flags, step, relocs[0], relocs[1..]); }
  }

  lemma {:induction false} GroupsTokensAreWords(format: Format, groups: seq<Group>, prev: Reloc)
    requires format.GroupsFit(groups, prev)
    ensures forall t :: t in format.GroupsTokens(groups, prev) ==> t < format.Modulus()
    decreases |groups|
  {
    if groups != [] {
      var g := groups[0];
      ItemsTokensAreWords(format, g.flags, format.Delta(g, prev), format.Entry(g, prev), g.relocs);
      GroupsTokensAreWords(format, groups[1..], Last(prev, g.relocs));
    }
  }

  /** What the writer produces is a well-formed table, so ReadAll gives the relocations back. */
  lemma WriteEncodes(format: Format, base: nat, groups: seq<Group>)
    requires format.width > 0 && base < format.Modulus() && |All(groups)| < format.Modulus()
    requires format.GroupsFit(groups, Reloc(base, 0, 0))
    ensures format.Encodes(format.Write(base, groups), base, groups)
  {
    GroupsTokensAreWords(format, groups, Reloc(base, 0, 0));
    EncodeAllReads([|All(groups)|, base] + format.GroupsTokens(groups, Reloc(base, 0, 0)), format.width);
  }
}
