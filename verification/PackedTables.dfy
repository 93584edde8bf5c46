/** What the numbers in a packed relocation table mean (xhook/xh_elf.c), by the bits of the flags: bit 0 one
    info for the group, bit 1 one offset step, bit 2 one addend, bit 3 addends at all. */
module PackedTables {
  import opened Bytes
  import opened PackedReloc
  import opened Powers

  /** The numbers of one relocation, and those of a group; which of them are there, the flags say. */
  datatype Item = Item(step: nat, info: nat, addend: nat)

  datatype Numbers = Numbers(flags: nat, step: nat, info: nat, addend: nat, items: seq<Item>)

  function ItemNumbers(rela: bool, flags: nat, it: Item): seq<nat> {
    (if flags / 2 % 2 == 1 then [] else [it.step])
    + (if flags % 2 == 1 then [] else [it.info])
    + (if rela && flags / 8 % 2 == 1 && flags / 4 % 2 == 0 then [it.addend] else [])
  }

  function AllItemNumbers(rela: bool, flags: nat, items: seq<Item>): seq<nat> {
    if items == [] then [] else ItemNumbers(rela, flags, items[0]) + AllItemNumbers(rela, flags, items[1..])
  }

  function HeaderNumbers(d: Numbers): seq<nat> {
    [|d.items|, d.flags]
    + (if d.flags / 2 % 2 == 1 then [d.step] else [])
    + (if d.flags % 2 == 1 then [d.info] else [])
    + (if d.flags / 8 % 2 == 1 && d.flags / 4 % 2 == 1 then [d.addend] else [])
  }

  function TableNumbers(rela: bool, ds: seq<Numbers>): seq<nat> {
    if ds == [] then []
    else HeaderNumbers(ds[0]) + AllItemNumbers(rela, ds[0].flags, ds[0].items) + TableNumbers(rela, ds[1..])
  }

  function Total(ds: seq<Numbers>): nat {
    if ds == [] then 0 else |ds[0].items| + Total(ds[1..])
  }

  // ---------- what they mean ----------

  /** How far the offset has moved after n relocations of a group. */
  function Moved(d: Numbers, n: nat): nat
    requires n <= |d.items|
  {
    if n == 0 then 0 else Moved(d, n - 1) + if d.flags / 2 % 2 == 1 then d.step else d.items[n - 1].step
  }

  /** And the addend, where the table has addends. */
  function Added(rela: bool, d: Numbers, n: nat): nat
    requires n <= |d.items|
  {
    if d.flags / 4 % 2 == 1 then d.addend
    else if n == 0 || !rela then 0
    else Added(rela, d, n - 1) + d.items[n - 1].addend
  }

  /** Relocation i of a group that follows prev; m is 2 to the width of words. */
  function Meant(rela: bool, m: nat, prev: Reloc, d: Numbers, i: nat): Reloc
    requires i < |d.items| && m > 0
  {
    Reloc((prev.offset + Moved(d, i + 1)) % m,
          if d.flags % 2 == 1 then d.info else d.items[i].info,
          if d.flags / 8 % 2 == 0 then 0 else (prev.addend + Added(rela, d, i + 1)) % m)
  }

  /** These are the relocations of the groups. */
  predicate Means(rela: bool, m: nat, prev: Reloc, ds: seq<Numbers>, relocs: seq<Reloc>)
    requires m > 0
    decreases |ds|
  {
    if ds == [] then relocs == [] else
    var n := |ds[0].items|;
    && 0 < n <= |relocs| && (forall i :: 0 <= i < n ==> relocs[i] == Meant(rela, m, prev, ds[0], i))
    && Means(rela, m, relocs[n - 1], ds[1..], relocs[n..])
  }

  /** A group that a table of this kind can hold. */
  predicate Sound(rela: bool, m: nat, d: Numbers) {
    && d.items != [] && |d.items| < m && d.flags < m && d.step < m && d.info < m && d.addend < m
    && (forall it :: it in d.items ==> it.step < m && it.info < m && it.addend < m)
    && (d.flags / 8 % 2 == 1 && d.flags / 4 % 2 == 1 ==> rela)
  }

  // ---------- the writer's groups ----------

  /** A sum as a word. */
  function Wrap(x: nat, m: nat): nat
    requires m > 0
  {
    x % m
  }

  /** The relocation that an item makes of the one before. */
  function After(rela: bool, m: nat, d: Numbers, prev: Reloc, it: Item): Reloc
    requires m > 0
  {
    Reloc(Wrap(prev.offset + if d.flags / 2 % 2 == 1 then d.step else it.step, m),
          if d.flags % 2 == 1 then d.info else it.info,
          if AddsUp(rela, d.flags) then Wrap(prev.addend + it.addend, m) else prev.addend)
  }

  predicate AddsUp(rela: bool, flags: nat) {
    rela && flags / 8 % 2 == 1 && flags / 4 % 2 == 0
  }

  /** The relocations, one after the other. */
  function RelocsFrom(rela: bool, m: nat, d: Numbers, prev: Reloc, items: seq<Item>): (relocs: seq<Reloc>)
    requires m > 0
    ensures |relocs| == |items|
    decreases |items|
  {
    if items == [] then [] else
    var r := After(rela, m, d, prev, items[0]);
    [r] + RelocsFrom(rela, m, d, r, items[1..])
  }

  /** The running fields after the numbers of the group itself. */
  function Entered(m: nat, d: Numbers, prev: Reloc): Reloc
    requires m > 0
  {
    Reloc(prev.offset, if d.flags % 2 == 1 then d.info else prev.info,
          if d.flags / 8 % 2 == 0 then 0
          else if d.flags / 4 % 2 == 1 then Wrap(prev.addend + d.addend, m) else prev.addend)
  }

  function GroupOf(rela: bool, m: nat, d: Numbers, prev: Reloc): (g: Group)
    requires m > 0
    ensures |g.relocs| == |d.items|
  {
    Group(d.flags, RelocsFrom(rela, m, d, Entered(m, d, prev), d.items))
  }

  function GroupsOf(rela: bool, m: nat, ds: seq<Numbers>, prev: Reloc): (gs: seq<Group>)
    requires m > 0
    ensures |gs| == |ds|
    decreases |ds|
  {
    if ds == [] then [] else
    var g := GroupOf(rela, m, ds[0], prev);
    [g] + GroupsOf(rela, m, ds[1..], Last(prev, g.relocs))
  }

  lemma DifferenceBack(f: Format, a: nat, d: nat)
    requires d < f.Modulus()
    ensures f.Difference(a, Wrap(a + d, f.Modulus())) == d
  {
    hide Pow2;
    var m := f.Modulus();
    ModAddLeft(a + d, 0 - a, m);
    ModSmall(d, m);
  }

  // ---------- the numbers are the writer's ----------

  function StepOf(d: Numbers): nat {
    if d.flags / 2 % 2 == 1 then d.step else 0
  }

  lemma OneItem(f: Format, d: Numbers, prev: Reloc, it: Item)
    requires f.IsWord(prev) && it.step < f.Modulus() && it.info < f.Modulus() && it.addend < f.Modulus()
    requires d.flags % 2 == 1 ==> prev.info == d.info
    ensures var r := After(f.rela, f.Modulus(), d, prev, it);
      && f.IsWord(r) && f.ItemFits(d.flags, StepOf(d), prev, r)
      && f.ItemTokens(d.flags, prev, r) == ItemNumbers(f.rela, d.flags, it)
      && (f.rela || prev.addend == 0 ==> f.rela || r.addend == 0)
  {
    hide Flag, Format.Modulus, Format.Difference;
    FlagBits(d.flags);
    if d.flags / 2 % 2 == 0 { DifferenceBack(f, prev.offset, it.step); }
    DifferenceBack(f, prev.addend, it.addend);
  }

  lemma {:induction false} ItemsAre(f: Format, d: Numbers, prev: Reloc, items: seq<Item>)
    requires f.IsWord(prev) && (d.flags % 2 == 1 ==> prev.info == d.info)
    requires forall it :: it in items ==> it.step < f.Modulus() && it.info < f.Modulus() && it.addend < f.Modulus()
    ensures var relocs := RelocsFrom(f.rela, f.Modulus(), d, prev, items);
      && f.ItemsFit(d.flags, StepOf(d), prev, relocs)
      && f.ItemsTokens(d.flags, prev, relocs) == AllItemNumbers(f.rela, d.flags, items)
      && forall r :: r in relocs ==> f.IsWord(r)
    decreases |items|
  {
    hide Format.ItemFits, Format.ItemTokens, ItemNumbers, Format.Modulus, StepOf;
    if items != [] {
      var r := After(f.rela, f.Modulus(), d, prev, items[0]);
      OneItem(f, d, prev, items[0]);
      ItemsAre(f, d, r, items[1..]);
      var rest := RelocsFrom(f.rela, f.Modulus(), d, r, items[1..]);
      assert RelocsFrom(f.rela, f.Modulus(), d, prev, items) == [r] + rest;
      assert ([r] + rest)[1..] == rest;
    }
  }

  /** One group: it fits behind prev, and its numbers are these. */
  lemma GroupIs(f: Format, d: Numbers, prev: Reloc)
    requires f.IsWord(prev) && Sound(f.rela, f.Modulus(), d)
    ensures var g := GroupOf(f.rela, f.Modulus(), d, prev);
      && f.GroupFits(g, prev) && f.HeaderTokens(g, prev) == HeaderNumbers(d)
      && f.ItemsTokens(g.flags, f.Entry(g, prev), g.relocs) == AllItemNumbers(f.rela, d.flags, d.items)
      && forall r :: r in g.relocs ==> f.IsWord(r)
  {
    hide Flag, Format.Modulus, Format.Difference, Format.ItemsFit, Format.ItemsTokens, AllItemNumbers;
    FlagBits(d.flags);
    var m := f.Modulus();
    var cur := Entered(m, d, prev);
    ItemsAre(f, d, cur, d.items);
    DifferenceBack(f, prev.offset, d.step);
    DifferenceBack(f, prev.addend, d.addend);
    assert GroupOf(f.rela, m, d, prev).relocs[0] == After(f.rela, m, d, cur, d.items[0]);
    assert f.Entry(GroupOf(f.rela, m, d, prev), prev) == cur;
    assert f.Delta(GroupOf(f.rela, m, d, prev), prev) == StepOf(d);
  }

  lemma {:induction false} LastIs(prev: Reloc, relocs: seq<Reloc>)
    requires relocs != []
    ensures Last(prev, relocs) == relocs[|relocs| - 1]
    decreases |relocs|
  {
    if |relocs| > 1 { LastIs(relocs[0], relocs[1..]); }
  }

  // ---------- the sums ----------

  lemma {:induction false} MovedFirst(d: Numbers, n: nat)
    requires n < |d.items|
    ensures Moved(d, n + 1) ==
      (if d.flags / 2 % 2 == 1 then d.step else d.items[0].step) + Moved(d.(items := d.items[1..]), n)
  {
    if n > 0 { MovedFirst(d, n - 1); }
  }

  lemma {:induction false} AddedFirst(rela: bool, d: Numbers, n: nat)
    requires n < |d.items| && rela && d.flags / 4 % 2 == 0
    ensures Added(rela, d, n + 1) == d.items[0].addend + Added(rela, d.(items := d.items[1..]), n)
  {
    if n > 0 { AddedFirst(rela, d, n - 1); }
  }

  lemma WrapTwice(a: nat, b: nat, c: nat, m: nat)
    requires m > 0
    ensures Wrap(Wrap(a + b, m) + c, m) == Wrap(a + (b + c), m)
  {
    ModAddLeft(a + b, c, m);
  }

  lemma FromHere(rela: bool, m: nat, d: Numbers, prev: Reloc, i: nat, r: Reloc)
    requires m > 0 && i < |d.items| && r == After(rela, m, d, prev, d.items[0])
    ensures RelocsFrom(rela, m, d, prev, d.items)[i] ==
      if i == 0 then r else RelocsFrom(rela, m, d.(items := d.items[1..]), r, d.items[1..])[i - 1]
  {
    hide After;
    SameFrom(rela, m, d, d.(items := d.items[1..]), r, d.items[1..]);
  }

  /** The relocations in closed form. */
  lemma {:induction false} FromIs(rela: bool, m: nat, d: Numbers, prev: Reloc, i: nat, x: Reloc)
    requires m > 0 && i < |d.items| && x == RelocsFrom(rela, m, d, prev, d.items)[i]
    ensures x.offset == Wrap(prev.offset + Moved(d, i + 1), m)
    ensures x.info == if d.flags % 2 == 1 then d.info else d.items[i].info
    ensures x.addend == if AddsUp(rela, d.flags) then Wrap(prev.addend + Added(rela, d, i + 1), m) else prev.addend
    decreases i
  {
    hide Moved, Added, RelocsFrom, Wrap;
    var it, rest := d.items[0], d.(items := d.items[1..]);
    var r := After(rela, m, d, prev, it);
    FromHere(rela, m, d, prev, i, r);
    MovedFirst(d, i);
    MovedNone(rest, rela);
    if AddsUp(rela, d.flags) { AddedFirst(rela, d, i); }
    if i > 0 {
      FromIs(rela, m, rest, r, i - 1, x);
      WrapTwice(prev.offset, if d.flags / 2 % 2 == 1 then d.step else it.step, Moved(rest, i), m);
      if AddsUp(rela, d.flags) { WrapTwice(prev.addend, it.addend, Added(rela, rest, i), m); }
    }
  }

  lemma MovedNone(d: Numbers, rela: bool)
    ensures Moved(d, 0) == 0 && (d.flags / 4 % 2 == 0 ==> Added(rela, d, 0) == 0)
  {
  }

  /** The items of a description do not matter to RelocsFrom, which is given its own. */
  lemma {:induction false} SameFrom(rela: bool, m: nat, d: Numbers, d': Numbers, prev: Reloc, items: seq<Item>)
    requires m > 0 && d' == d.(items := d'.items)
    ensures RelocsFrom(rela, m, d, prev, items) == RelocsFrom(rela, m, d', prev, items)
    decreases |items|
  {
    if items != [] { SameFrom(rela, m, d, d', After(rela, m, d, prev, items[0]), items[1..]); }
  }

  lemma GroupMeant(rela: bool, m: nat, d: Numbers, prev: Reloc, i: nat)
    requires m > 0 && Sound(rela, m, d) && i < |d.items| && prev.offset < m && prev.addend < m
    requires rela || prev.addend == 0
    ensures GroupOf(rela, m, d, prev).relocs[i] == Meant(rela, m, prev, d, i)
  {
    hide RelocsFrom, Moved;
    var cur := Entered(m, d, prev);
    FromIs(rela, m, d, cur, i, RelocsFrom(rela, m, d, cur, d.items)[i]);
    ModSmall(prev.addend, m);
  }

  // ---------- the main result ----------

  lemma MeansMore(rela: bool, m: nat, prev: Reloc, ds: seq<Numbers>, relocs: seq<Reloc>, later: seq<Reloc>)
    requires m > 0 && ds != [] && 0 < |relocs| == |ds[0].items|
    requires forall i :: 0 <= i < |relocs| ==> relocs[i] == Meant(rela, m, prev, ds[0], i)
    requires Means(rela, m, relocs[|relocs| - 1], ds[1..], later)
    ensures Means(rela, m, prev, ds, relocs + later)
  {
    hide Meant;
    assert (relocs + later)[|relocs|..] == later;
  }

  lemma GroupsMore(f: Format, g: Group, later: seq<Group>, prev: Reloc)
    requires f.GroupFits(g, prev) && f.GroupsFit(later, Last(prev, g.relocs))
    ensures f.GroupsFit([g] + later, prev) && All([g] + later) == g.relocs + All(later) && g.relocs != []
    ensures f.GroupsTokens([g] + later, prev) == f.HeaderTokens(g, prev)
      + f.ItemsTokens(g.flags, f.Entry(g, prev), g.relocs) + f.GroupsTokens(later, Last(prev, g.relocs))
  {
    hide Format.HeaderTokens, Format.ItemsTokens, Format.ItemsFit, Format.Entry, Format.Delta, Last;
    assert ([g] + later)[1..] == later;
  }

  lemma {:induction false} TableMeans(f: Format, ds: seq<Numbers>, prev: Reloc)
    requires f.IsWord(prev) && (f.rela || prev.addend == 0) && forall d :: d in ds ==> Sound(f.rela, f.Modulus(), d)
    ensures var gs := GroupsOf(f.rela, f.Modulus(), ds, prev);
      && f.GroupsFit(gs, prev) && f.GroupsTokens(gs, prev) == TableNumbers(f.rela, ds)
      && |All(gs)| == Total(ds) && Means(f.rela, f.Modulus(), prev, ds, All(gs))
    decreases |ds|
  {
    hide Format.GroupFits, Format.HeaderTokens, Format.ItemsTokens, AllItemNumbers, HeaderNumbers, GroupOf, Sound,
      Format.Modulus, Meant, Format.IsWord;
    if ds != [] {
      hide Means, All, Format.GroupsFit, Format.GroupsTokens;
      var m := f.Modulus();
      var g := GroupOf(f.rela, m, ds[0], prev);
      var n := |g.relocs|;
      assert Sound(f.rela, m, ds[0]);
      SomeItems(f.rela, m, ds[0]);
      GroupIs(f, ds[0], prev);
      WordParts(f, prev);
      forall i | 0 <= i < n ensures g.relocs[i] == Meant(f.rela, m, prev, ds[0], i) {
        GroupMeant(f.rela, m, ds[0], prev, i);
      }
      LastIs(prev, g.relocs);
      NoAddend(f.rela, m, prev, ds[0], n - 1);
      TableMeans(f, ds[1..], g.relocs[n - 1]);
      var later := GroupsOf(f.rela, m, ds[1..], g.relocs[n - 1]);
      GroupsMore(f, g, later, prev);
      MeansMore(f.rela, m, prev, ds, g.relocs, All(later));
    }
  }

  lemma SomeItems(rela: bool, m: nat, d: Numbers)
    requires Sound(rela, m, d)
    ensures d.items != []
  {
  }

  lemma WordParts(f: Format, r: Reloc)
    requires f.IsWord(r)
    ensures r.offset < f.Modulus() && r.addend < f.Modulus()
  {
  }

  lemma NoAddend(rela: bool, m: nat, prev: Reloc, d: Numbers, i: nat)
    requires m > 0 && i < |d.items| && Sound(rela, m, d) && (rela || prev.addend == 0)
    ensures rela || Meant(rela, m, prev, d, i).addend == 0
  {
    ModSmall(0, m);
  }

  /** A table whose numbers are these is read as the relocations that they mean. */
  method ReadTable(data: seq<Byte>, format: Format, ghost base: nat, ghost ds: seq<Numbers>)
    returns (ok: bool, relocs: seq<Reloc>)
    requires format.width > 0 && base < Pow2(format.width) && Total(ds) < Pow2(format.width)
    requires forall d :: d in ds ==> Sound(format.rela, Pow2(format.width), d)
    requires Reads(data, [Total(ds), base] + TableNumbers(format.rela, ds), format.width)
    ensures ok && |relocs| == Total(ds)
    ensures Means(format.rela, Pow2(format.width), Reloc(base, 0, 0), ds, relocs)
  {
    hide Pow2, Means, TableNumbers, Reads, Sound, Format.GroupsFit;
    ghost var groups := GroupsOf(format.rela, format.Modulus(), ds, Reloc(base, 0, 0));
    TableMeans(format, ds, Reloc(base, 0, 0));
    ok, relocs := ReadAll(data, format, base, groups);
  }
}
