/** Which entries the virtual apk has, and in what order: ShadowZip::init (zip/shadow_zip.cpp). */
module ShadowMerge {
  import opened Bytes
  import opened ZipParse

  /** Entry number index of file number file; file 0 is the apk, 1 the changed headers, and the
      patches come after them. */
  datatype Ref = Ref(file: nat, index: nat)

  const FIRST_PATCH: nat := 2

  type Lists = seq<seq<Entry>>

  predicate InLists(lists: Lists, r: Ref) {
    r.file < |lists| && r.index < |lists[r.file]|
  }

  function NameOf(lists: Lists, r: Ref): Bytes {
    if InLists(lists, r) then lists[r.file][r.index].Name() else []
  }

  function Names(lists: Lists, refs: seq<Ref>): (names: seq<Bytes>)
    ensures |names| == |refs| && forall i :: 0 <= i < |refs| ==> names[i] == NameOf(lists, refs[i])
  {
    if refs == [] then [] else Names(lists, refs[..|refs| - 1]) + [NameOf(lists, refs[|refs| - 1])]
  }

  // ---------- all patch entries ----------

  function RefsOf(file: nat, n: nat): (refs: seq<Ref>)
    ensures |refs| == n && forall i :: 0 <= i < n ==> refs[i] == Ref(file, i)
  {
    if n == 0 then [] else RefsOf(file, n - 1) + [Ref(file, n - 1)]
  }

  /** The entries of the patches, file after file. */
  function PatchRefs(lists: Lists): seq<Ref> {
    if |lists| <= FIRST_PATCH then []
    else PatchRefs(lists[..|lists| - 1]) + RefsOf(|lists| - 1, |lists[|lists| - 1]|)
  }

  predicate NoRepeat(refs: seq<Ref>) {
    forall i, j :: 0 <= i < j < |refs| ==> refs[i] != refs[j]
  }

  predicate IsPatch(lists: Lists, r: Ref) {
    InLists(lists, r) && r.file >= FIRST_PATCH
  }

  lemma {:induction false} PatchRefsAre(lists: Lists)
    ensures forall r: Ref :: r in PatchRefs(lists) <==> IsPatch(lists, r)
    ensures NoRepeat(PatchRefs(lists))
  {
    if |lists| > FIRST_PATCH {
      var init, f := lists[..|lists| - 1], |lists| - 1;
      PatchRefsAre(init);
      RefsOfAre(f, |lists[f]|);
      NoRepeatJoin(PatchRefs(init), RefsOf(f, |lists[f]|));
    }
  }

  lemma RefsOfAre(file: nat, n: nat)
    ensures forall r: Ref :: r in RefsOf(file, n) <==> r.file == file && r.index < n
    ensures NoRepeat(RefsOf(file, n))
  {
    forall r: Ref | r.file == file && r.index < n ensures r in RefsOf(file, n) {
      assert RefsOf(file, n)[r.index] == r;
    }
  }

  lemma NoRepeatJoin(a: seq<Ref>, b: seq<Ref>)
    requires NoRepeat(a) && NoRepeat(b) && forall r :: r in a ==> r !in b
    ensures NoRepeat(a + b)
  {
    forall i, j | 0 <= i < j < |a + b| ensures (a + b)[i] != (a + b)[j] {
      if i < |a| <= j { assert a[i] in a && b[j - |a|] in b; }
    }
  }

  // ---------- the index of patch names ----------

  /** index holds exactly the names of refs that are not removed, each with its one ref. */
  predicate Indexed(lists: Lists, refs: seq<Ref>, removed: set<Bytes>, index: map<Bytes, Ref>) {
    && (forall i :: 0 <= i < |refs| && NameOf(lists, refs[i]) !in removed ==>
          NameOf(lists, refs[i]) in index && index[NameOf(lists, refs[i])] == refs[i])
    && forall n :: n in index ==> n !in removed && index[n] in refs && NameOf(lists, index[n]) == n
  }

  /** Two entries of the patches share a name that is not removed. */
  predicate Shared(lists: Lists, refs: seq<Ref>, removed: set<Bytes>) {
    exists i, j :: 0 <= i < j < |refs| && NameOf(lists, refs[i]) == NameOf(lists, refs[j])
      && NameOf(lists, refs[i]) !in removed
  }

  /** An index exists only when no such name is shared. */
  lemma IndexedNotShared(lists: Lists, refs: seq<Ref>, removed: set<Bytes>, index: map<Bytes, Ref>)
    requires Indexed(lists, refs, removed, index) && NoRepeat(refs)
    ensures !Shared(lists, refs, removed)
  {
  }

  // ---------- the merged order ----------

  /** The first n entries of the apk, with the patches' versions in place and removed names left out. */
  function FirstPass(lists: Lists, removed: set<Bytes>, index: map<Bytes, Ref>, n: nat): seq<Ref> {
    if n == 0 then [] else
    var name := NameOf(lists, Ref(0, n - 1));
    FirstPass(lists, removed, index, n - 1)
    + if name in removed then [] else [if name in index then index[name] else Ref(0, n - 1)]
  }

  /** The patch entries that the first pass has not used. */
  function Unused(refs: seq<Ref>, used: seq<Ref>): seq<Ref> {
    if refs == [] then []
    else Unused(refs[..|refs| - 1], used) + if refs[|refs| - 1] in used then [] else [refs[|refs| - 1]]
  }

  function Order(lists: Lists, removed: set<Bytes>, index: map<Bytes, Ref>): seq<Ref>
    requires lists != []
  {
    var first := FirstPass(lists, removed, index, |lists[0]|);
    first + Unused(PatchRefs(lists), first)
  }

  // ---------- the names of the merged directory ----------

  function Kept(names: seq<Bytes>, removed: set<Bytes>): seq<Bytes> {
    if names == [] then [] else
    var last := names[|names| - 1];
    Kept(names[..|names| - 1], removed) + if last in removed then [] else [last]
  }

  /** The patch names that do not stand in for a name of the apk. */
  function Added(names: seq<Bytes>, apk: seq<Bytes>, removed: set<Bytes>): seq<Bytes> {
    if names == [] then [] else
    var last := names[|names| - 1];
    Added(names[..|names| - 1], apk, removed) + if last in apk && last !in removed then [] else [last]
  }

  lemma {:induction false} FirstPassNames(lists: Lists, removed: set<Bytes>, index: map<Bytes, Ref>, n: nat)
    requires lists != [] && n <= |lists[0]| && Indexed(lists, PatchRefs(lists), removed, index)
    ensures Names(lists, FirstPass(lists, removed, index, n)) == Kept(Names(lists, RefsOf(0, n)), removed)
  {
    hide NameOf, Names, PatchRefs;
    if n == 0 {
      NamesOfNone(lists);
    } else {
      FirstPassNames(lists, removed, index, n - 1);
      var name := NameOf(lists, Ref(0, n - 1));
      NamesPush(lists, RefsOf(0, n - 1), Ref(0, n - 1));
      var names := Names(lists, RefsOf(0, n - 1));
      assert (names + [name])[..n - 1] == names;
      var r := if name in index then index[name] else Ref(0, n - 1);
      NamesPush(lists, FirstPass(lists, removed, index, n - 1), r);
    }
  }

  lemma NamesOfNone(lists: Lists)
    ensures Names(lists, []) == []
  {
  }

  lemma NamesPush(lists: Lists, refs: seq<Ref>, r: Ref)
    ensures Names(lists, refs + [r]) == Names(lists, refs) + [NameOf(lists, r)]
    ensures Names(lists, refs + []) == Names(lists, refs) + []
  {
    hide NameOf;
    assert (refs + [r])[..|refs|] == refs;
    assert refs + [] == refs;
  }

  lemma NamesConcat(lists: Lists, a: seq<Ref>, b: seq<Ref>)
    ensures Names(lists, a + b) == Names(lists, a) + Names(lists, b)
  {
    hide NameOf, Names;
    forall i | 0 <= i < |a + b| ensures Names(lists, a + b)[i] == (Names(lists, a) + Names(lists, b))[i] {}
  }

  /** The first pass uses a patch entry exactly when the apk has its name and it is not removed. */
  lemma {:induction false} UsedWhen(lists: Lists, removed: set<Bytes>, index: map<Bytes, Ref>, n: nat, r: Ref)
    requires Indexed(lists, PatchRefs(lists), removed, index) && r in PatchRefs(lists)
    ensures r in FirstPass(lists, removed, index, n) <==>
      NameOf(lists, r) in Names(lists, RefsOf(0, n)) && NameOf(lists, r) !in removed
  {
    hide NameOf, Names, PatchRefs;
    if n == 0 {
      NamesOfNone(lists);
    } else {
      UsedWhen(lists, removed, index, n - 1, r);
      PatchRefsAre(lists);
      NamesPush(lists, RefsOf(0, n - 1), Ref(0, n - 1));
    }
  }

  lemma {:induction false} UnusedNames(lists: Lists, removed: set<Bytes>, index: map<Bytes, Ref>, refs: seq<Ref>,
                                       first: seq<Ref>)
    requires lists != [] && Indexed(lists, PatchRefs(lists), removed, index)
    requires forall r :: r in refs ==> r in PatchRefs(lists)
    requires first == FirstPass(lists, removed, index, |lists[0]|)
    ensures Names(lists, Unused(refs, first))
            == Added(Names(lists, refs), Names(lists, RefsOf(0, |lists[0]|)), removed)
  {
    hide NameOf, Names, PatchRefs, Indexed, RefsOf, FirstPass;
    if refs == [] {
      NamesOfNone(lists);
    } else {
      var init, last := refs[..|refs| - 1], refs[|refs| - 1];
      assert last in refs && forall r :: r in init ==> r in refs;
      UnusedNames(lists, removed, index, init, first);
      UsedWhen(lists, removed, index, |lists[0]|, last);
      assert refs == init + [last];
      NamesPush(lists, init, last);
      var names := Names(lists, init);
      assert (names + [NameOf(lists, last)])[..|init|] == names;
      NamesPush(lists, Unused(init, first), last);
    }
  }

  /** The merged directory: the apk's names without the removed ones, then the patch names that
      do not stand in for a name of the apk. A removed name that a patch brings is among these. */
  lemma MergedNames(lists: Lists, removed: set<Bytes>, index: map<Bytes, Ref>)
    requires lists != [] && Indexed(lists, PatchRefs(lists), removed, index)
    ensures var apk := Names(lists, RefsOf(0, |lists[0]|));
      Names(lists, Order(lists, removed, index))
      == Kept(apk, removed) + Added(Names(lists, PatchRefs(lists)), apk, removed)
  {
    var first := FirstPass(lists, removed, index, |lists[0]|);
    FirstPassNames(lists, removed, index, |lists[0]|);
    UnusedNames(lists, removed, index, PatchRefs(lists), first);
    NamesConcat(lists, first, Unused(PatchRefs(lists), first));
  }

  predicate Distinct(names: seq<Bytes>) {
    forall i, j :: 0 <= i < j < |names| ==> names[i] != names[j]
  }

  /** No name outside the removed set occurs twice. */
  predicate KeptOnce(names: seq<Bytes>, removed: set<Bytes>) {
    forall i, j :: 0 <= i < j < |names| && names[i] == names[j] ==> names[i] in removed
  }

  lemma {:induction false} KeptMembers(names: seq<Bytes>, removed: set<Bytes>)
    ensures forall x :: x in Kept(names, removed) <==> x in names && x !in removed
    ensures Distinct(Kept(names, removed)) <==> KeptOnce(names, removed)
  {
    if names != [] {
      var init, last := names[..|names| - 1], names[|names| - 1];
      KeptMembers(init, removed);
      assert names == init + [last];
      KeptOncePush(init, last, removed);
      if last in removed {
        assert Kept(init, removed) + [] == Kept(init, removed);
      } else {
        DistinctPush(Kept(init, removed), last);
      }
    }
  }

  lemma KeptOncePush(names: seq<Bytes>, last: Bytes, removed: set<Bytes>)
    ensures KeptOnce(names + [last], removed) <==> KeptOnce(names, removed) && (last in names ==> last in removed)
  {
    var all := names + [last];
    if KeptOnce(all, removed) {
      assert forall i, j :: 0 <= i < j < |names| ==> names[i] == all[i] && names[j] == all[j];
      assert forall i :: 0 <= i < |names| && names[i] == last ==> all[i] == all[|names|];
    }
  }

  lemma DistinctPush(names: seq<Bytes>, last: Bytes)
    ensures Distinct(names + [last]) <==> Distinct(names) && last !in names
  {
    var all := names + [last];
    if Distinct(all) {
      assert forall i, j :: 0 <= i < j < |names| ==> names[i] == all[i] && names[j] == all[j];
      assert forall i :: 0 <= i < |names| && names[i] == last ==> all[i] == all[|names|];
    }
  }

  lemma {:induction false} AddedMembers(names: seq<Bytes>, apk: seq<Bytes>, removed: set<Bytes>)
    ensures forall x :: x in Added(names, apk, removed) <==> x in names && !(x in apk && x !in removed)
  {
    if names != [] {
      AddedMembers(names[..|names| - 1], apk, removed);
      assert names == names[..|names| - 1] + [names[|names| - 1]];
    }
  }

  lemma {:induction false} AddedDistinct(names: seq<Bytes>, apk: seq<Bytes>, removed: set<Bytes>)
    requires KeptOnce(names, removed)
    ensures Distinct(Added(names, apk, removed)) <==> Distinct(names)
  {
    if names != [] {
      var init, last := names[..|names| - 1], names[|names| - 1];
      assert names == init + [last];
      KeptOncePush(init, last, removed);
      AddedDistinct(init, apk, removed);
      AddedMembers(init, apk, removed);
      DistinctPush(init, last);
      if last in apk && last !in removed {
        assert Added(init, apk, removed) + [] == Added(init, apk, removed);
      } else {
        DistinctPush(Added(init, apk, removed), last);
      }
    }
  }

  /** A name is in the merged directory when the apk keeps it or a patch has it; so a removed
      name is there exactly when a patch has it. */
  lemma MergedName(lists: Lists, removed: set<Bytes>, index: map<Bytes, Ref>, n: Bytes)
    requires lists != [] && Indexed(lists, PatchRefs(lists), removed, index)
    ensures n in Names(lists, Order(lists, removed, index)) <==>
      (n in Names(lists, RefsOf(0, |lists[0]|)) && n !in removed) || n in Names(lists, PatchRefs(lists))
  {
    hide Order, Kept, Added, FirstPass;
    var apk, patches := Names(lists, RefsOf(0, |lists[0]|)), Names(lists, PatchRefs(lists));
    MergedNames(lists, removed, index);
    KeptMembers(apk, removed);
    AddedMembers(patches, apk, removed);
  }

  /** Every name of the merged directory occurs once exactly when no name that the apk keeps
      occurs twice there, and no two patch entries have one name, be it a removed one. */
  lemma MergedNamesOnce(lists: Lists, removed: set<Bytes>, index: map<Bytes, Ref>)
    requires lists != [] && Indexed(lists, PatchRefs(lists), removed, index)
    ensures Distinct(Names(lists, Order(lists, removed, index))) <==>
      KeptOnce(Names(lists, RefsOf(0, |lists[0]|)), removed) && Distinct(Names(lists, PatchRefs(lists)))
  {
    hide Order, Kept, Added, FirstPass, Indexed, PatchRefs, RefsOf, Names, Distinct, KeptOnce;
    var apk, patches := Names(lists, RefsOf(0, |lists[0]|)), Names(lists, PatchRefs(lists));
    PatchRefsAre(lists);
    PatchNamesOnce(lists, PatchRefs(lists), removed, index);
    MergedNames(lists, removed, index);
    KeptMembers(apk, removed);
    AddedMembers(patches, apk, removed);
    AddedDistinct(patches, apk, removed);
    DistinctJoin(Kept(apk, removed), Added(patches, apk, removed));
  }

  lemma DistinctJoin(a: seq<Bytes>, b: seq<Bytes>)
    requires forall x :: x in a ==> x !in b
    ensures Distinct(a + b) <==> Distinct(a) && Distinct(b)
  {
    var all := a + b;
    if Distinct(all) {
      assert forall i :: 0 <= i < |a| ==> a[i] == all[i];
      assert forall i :: 0 <= i < |b| ==> b[i] == all[|a| + i];
    }
    if Distinct(a) && Distinct(b) {
      assert forall i :: 0 <= i < |a| ==> all[i] == a[i] && all[i] in a;
      assert forall i :: |a| <= i < |all| ==> all[i] == b[i - |a|] && all[i] in b;
    }
  }

  /** An index leaves only removed names to be shared by patch entries. */
  lemma PatchNamesOnce(lists: Lists, refs: seq<Ref>, removed: set<Bytes>, index: map<Bytes, Ref>)
    requires Indexed(lists, refs, removed, index) && NoRepeat(refs)
    ensures KeptOnce(Names(lists, refs), removed)
  {
    hide NameOf;
    var names := Names(lists, refs);
    assert forall i :: 0 <= i < |names| && names[i] !in removed ==> names[i] in index && index[names[i]] == refs[i];
  }

  /** So with distinct apk names, and no patch name removed, every name of (apk - removed) + patches
      occurs exactly once. */
  lemma MergedOnce(lists: Lists, removed: set<Bytes>, index: map<Bytes, Ref>)
    requires lists != [] && Indexed(lists, PatchRefs(lists), removed, index)
    requires Distinct(Names(lists, RefsOf(0, |lists[0]|)))
    requires forall n :: n in Names(lists, PatchRefs(lists)) ==> n !in removed
    ensures var merged := Names(lists, Order(lists, removed, index));
      && Distinct(merged)
      && forall n :: n in merged <==>
          (n in Names(lists, RefsOf(0, |lists[0]|)) && n !in removed) || n in Names(lists, PatchRefs(lists))
  {
    hide Order, Indexed, PatchRefs, RefsOf, Names;
    PatchRefsAre(lists);
    PatchNamesOnce(lists, PatchRefs(lists), removed, index);
    MergedNamesOnce(lists, removed, index);
    var merged := Names(lists, Order(lists, removed, index));
    forall n: Bytes
      ensures n in merged <==>
        (n in Names(lists, RefsOf(0, |lists[0]|)) && n !in removed) || n in Names(lists, PatchRefs(lists))
    {
      MergedName(lists, removed, index, n);
    }
  }

  /** An entry of the apk itself is used only where no patch has a version of it. */
  lemma {:induction false} PatchWins(lists: Lists, removed: set<Bytes>, index: map<Bytes, Ref>, n: nat, r: Ref)
    requires Indexed(lists, PatchRefs(lists), removed, index)
    requires r in FirstPass(lists, removed, index, n) && r.file == 0
    ensures NameOf(lists, r) !in removed && NameOf(lists, r) !in Names(lists, PatchRefs(lists))
  {
    hide NameOf, PatchRefs;
    PatchRefsAre(lists);
    if r in FirstPass(lists, removed, index, n - 1) {
      PatchWins(lists, removed, index, n - 1, r);
    } else {
      var refs, names := PatchRefs(lists), Names(lists, PatchRefs(lists));
      assert NameOf(lists, r) !in index;
      assert forall i :: 0 <= i < |names| ==> names[i] == NameOf(lists, refs[i]);
    }
  }

  /** No name that a patch replaces occurs twice in the apk. */
  predicate PatchedOnce(lists: Lists, removed: set<Bytes>, index: map<Bytes, Ref>)
    requires lists != []
  {
    forall i, j :: 0 <= i < j < |lists[0]| && NameOf(lists, Ref(0, i)) == NameOf(lists, Ref(0, j)) ==>
      NameOf(lists, Ref(0, i)) in removed || NameOf(lists, Ref(0, i)) !in index
  }

  /** Where a used entry comes from: its own place in the apk, or the name it replaces. */
  predicate ComesFrom(lists: Lists, index: map<Bytes, Ref>, r: Ref, k: nat) {
    var name := NameOf(lists, Ref(0, k));
    if name in index then r == index[name] else r == Ref(0, k)
  }

  lemma {:induction false} FirstPassNoRepeat(lists: Lists, removed: set<Bytes>, index: map<Bytes, Ref>, n: nat)
    requires lists != [] && n <= |lists[0]| && Indexed(lists, PatchRefs(lists), removed, index)
    requires PatchedOnce(lists, removed, index)
    ensures NoRepeat(FirstPass(lists, removed, index, n))
    ensures forall r :: r in FirstPass(lists, removed, index, n) ==>
      InLists(lists, r) &&
      exists k: nat :: k < n && NameOf(lists, Ref(0, k)) !in removed && ComesFrom(lists, index, r, k)
  {
    hide NameOf, PatchRefs, Names, RefsOf;
    if n > 0 {
      FirstPassNoRepeat(lists, removed, index, n - 1);
      PatchRefsAre(lists);
      var name := NameOf(lists, Ref(0, n - 1));
      var r := if name in index then index[name] else Ref(0, n - 1);
      assert ComesFrom(lists, index, r, n - 1);
      if name !in removed && r in FirstPass(lists, removed, index, n - 1) {
        var k: nat :| k < n - 1 && NameOf(lists, Ref(0, k)) !in removed && ComesFrom(lists, index, r, k);
        SameSource(lists, removed, index, r, k, n - 1);
      }
    }
  }

  /** Two places of the apk have the same source only when they have one patched name. */
  lemma SameSource(lists: Lists, removed: set<Bytes>, index: map<Bytes, Ref>, r: Ref, k: nat, m: nat)
    requires Indexed(lists, PatchRefs(lists), removed, index) && k < m
    requires ComesFrom(lists, index, r, k) && ComesFrom(lists, index, r, m)
    ensures NameOf(lists, Ref(0, k)) == NameOf(lists, Ref(0, m)) && NameOf(lists, Ref(0, m)) in index
  {
    hide NameOf, PatchRefs;
    PatchRefsAre(lists);
  }

  /** A patched name that occurs twice makes the first pass use the patch entry twice. */
  lemma {:induction false} UsedTwice(lists: Lists, removed: set<Bytes>, index: map<Bytes, Ref>, i: nat, j: nat)
    requires lists != [] && i < j && NameOf(lists, Ref(0, i)) == NameOf(lists, Ref(0, j))
    requires NameOf(lists, Ref(0, i)) !in removed && NameOf(lists, Ref(0, i)) in index
    ensures !NoRepeat(FirstPass(lists, removed, index, j + 1))
  {
    hide NameOf;
    var first, r := FirstPass(lists, removed, index, j), index[NameOf(lists, Ref(0, i))];
    UsedBefore(lists, removed, index, i, j);
    var k :| 0 <= k < |first| && first[k] == r;
    var more := FirstPass(lists, removed, index, j + 1);
    assert more == first + [r] && more[k] == more[|first|];
  }

  lemma {:induction false} UsedBefore(lists: Lists, removed: set<Bytes>, index: map<Bytes, Ref>, i: nat, n: nat)
    requires i < n && NameOf(lists, Ref(0, i)) !in removed && NameOf(lists, Ref(0, i)) in index
    ensures index[NameOf(lists, Ref(0, i))] in FirstPass(lists, removed, index, n)
  {
    hide NameOf;
    if i < n - 1 { UsedBefore(lists, removed, index, i, n - 1); }
  }

  lemma {:induction false} UnusedMembers(refs: seq<Ref>, used: seq<Ref>)
    requires NoRepeat(refs)
    ensures NoRepeat(Unused(refs, used))
    ensures forall r :: r in Unused(refs, used) <==> r in refs && r !in used
  {
    if refs != [] {
      UnusedMembers(refs[..|refs| - 1], used);
      assert refs == refs[..|refs| - 1] + [refs[|refs| - 1]];
    }
  }

  lemma {:induction false} FirstPassPrefix(lists: Lists, removed: set<Bytes>, index: map<Bytes, Ref>, m: nat, n: nat)
    requires m <= n
    ensures FirstPass(lists, removed, index, m) <= FirstPass(lists, removed, index, n)
  {
    hide NameOf;
    if m < n { FirstPassPrefix(lists, removed, index, m, n - 1); }
  }

  /** The merged order holds entries of the apk and of the patches. */
  lemma {:induction false} FirstPassInLists(lists: Lists, removed: set<Bytes>, index: map<Bytes, Ref>, n: nat)
    requires lists != [] && n <= |lists[0]| && Indexed(lists, PatchRefs(lists), removed, index)
    ensures forall r :: r in FirstPass(lists, removed, index, n) ==> InLists(lists, r)
  {
    hide NameOf, PatchRefs, Names, RefsOf;
    if n > 0 {
      FirstPassInLists(lists, removed, index, n - 1);
      PatchRefsAre(lists);
    }
  }

  lemma {:induction false} UnusedAmong(refs: seq<Ref>, used: seq<Ref>)
    ensures forall r :: r in Unused(refs, used) ==> r in refs
  {
    if refs != [] { UnusedAmong(refs[..|refs| - 1], used); }
  }

  lemma OrderInLists(lists: Lists, removed: set<Bytes>, index: map<Bytes, Ref>)
    requires lists != [] && Indexed(lists, PatchRefs(lists), removed, index)
    ensures forall r :: r in Order(lists, removed, index) ==> InLists(lists, r)
  {
    hide NameOf, PatchRefs, FirstPass, Unused, Indexed;
    FirstPassInLists(lists, removed, index, |lists[0]|);
    PatchRefsAre(lists);
    UnusedAmong(PatchRefs(lists), FirstPass(lists, removed, index, |lists[0]|));
  }

  /** init places every entry object at most once exactly when no patched name occurs twice in
      the apk. */
  lemma OrderNoRepeat(lists: Lists, removed: set<Bytes>, index: map<Bytes, Ref>)
    requires lists != [] && Indexed(lists, PatchRefs(lists), removed, index)
    ensures NoRepeat(Order(lists, removed, index)) <==> PatchedOnce(lists, removed, index)
    ensures PatchedOnce(lists, removed, index) ==> forall r :: r in Order(lists, removed, index) ==> InLists(lists, r)
  {
    hide NameOf, PatchRefs, Names, RefsOf, FirstPass, Unused, NoRepeat, Indexed, Distinct, InLists;
    var first := FirstPass(lists, removed, index, |lists[0]|);
    PatchRefsAre(lists);
    UnusedMembers(PatchRefs(lists), first);
    if PatchedOnce(lists, removed, index) {
      FirstPassNoRepeat(lists, removed, index, |lists[0]|);
      NoRepeatJoin(first, Unused(PatchRefs(lists), first));
    } else {
      var i, j :| 0 <= i < j < |lists[0]| && NameOf(lists, Ref(0, i)) == NameOf(lists, Ref(0, j))
        && NameOf(lists, Ref(0, i)) !in removed && NameOf(lists, Ref(0, i)) in index;
      UsedTwice(lists, removed, index, i, j);
      FirstPassPrefix(lists, removed, index, j + 1, |lists[0]|);
      RepeatStays(FirstPass(lists, removed, index, j + 1), Order(lists, removed, index));
    }
  }

  lemma RepeatStays(a: seq<Ref>, b: seq<Ref>)
    requires a <= b && !NoRepeat(a)
    ensures !NoRepeat(b)
  {
    var i, j :| 0 <= i < j < |a| && a[i] == a[j];
    assert b[i] == b[j];
  }
}
