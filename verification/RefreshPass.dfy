/** One pass over /proc/self/maps (xhook/xh_core.c): which records the map-info tree
    holds afterwards, and for which of them hooking ran. */
module RefreshPass {
  import opened Options
  import opened CString
  import opened RbShape
  import opened RbSearch
  import opened RbWalk
  import opened RbTree

  /** A registered hook and an ignore rule; a rule without a symbol is for all symbols.
      A compiled regular expression is known by a number. */
  datatype HookInfo = HookInfo(regex: nat, symbol: CStr)

  datatype IgnoreInfo = IgnoreInfo(regex: nat, symbol: Option<CStr>)

  /** What regexec answers for a regular expression and a path. */
  type Matcher = (nat, CStr) -> bool

  /** A line of the maps file: what sscanf took from it, the text after that, whether an
      ELF header is found at the base, and whether a record can be allocated for it. */
  datatype Line = Malformed | Line(base: nat, perm: seq<char>, offset: nat, rest: CStr, elf: bool, alloc: bool)

  // ---------- which lines count ----------

  predicate IsSpace(c: CChar) {
    c == 32 || 9 <= c <= 13
  }

  function SkipSpaces(s: CStr): CStr {
    if s != [] && IsSpace(s[0]) then SkipSpaces(s[1..]) else s
  }

  const NEWLINE: CChar := 10
  const BRACKET: CChar := 91

  /** The pathname of a line; empty and bracketed names are not files. */
  function PathOf(rest: CStr): Option<CStr> {
    var s := SkipSpaces(rest);
    var t := if s != [] && s[|s| - 1] == NEWLINE then s[..|s| - 1] else s;
    if t == [] || t[0] == BRACKET then None else Some(t)
  }

  /** An ignore rule that stops the hook on this path. */
  predicate Ignores(m: Matcher, ii: IgnoreInfo, path: CStr, symbol: CStr) {
    m(ii.regex, path) && (ii.symbol.None? || ii.symbol.value == symbol)
  }

  predicate AnyIgnores(m: Matcher, ignores: seq<IgnoreInfo>, path: CStr, symbol: CStr) {
    exists i :: 0 <= i < |ignores| && Ignores(m, ignores[i], path, symbol)
  }

  /** The pre-filter: the first hook whose expression matches decides. */
  predicate Wanted(m: Matcher, hooks: seq<HookInfo>, ignores: seq<IgnoreInfo>, path: CStr) {
    hooks != [] &&
    if m(hooks[0].regex, path) then !AnyIgnores(m, ignores, path, hooks[0].symbol)
    else Wanted(m, hooks[1..], ignores, path)
  }

  method IsWanted(m: Matcher, hooks: seq<HookInfo>, ignores: seq<IgnoreInfo>, path: CStr) returns (match': bool)
    ensures match' == Wanted(m, hooks, ignores, path)
  {
    match' := false;
    for i := 0 to |hooks|
      invariant !match'
      invariant Wanted(m, hooks, ignores, path) == Wanted(m, hooks[i..], ignores, path)
    {
      assert hooks[i..][1..] == hooks[i + 1..];
      if m(hooks[i].regex, path) {
        for j := 0 to |ignores|
          invariant forall k :: 0 <= k < j ==> !Ignores(m, ignores[k], path, hooks[i].symbol)
        {
          if m(ignores[j].regex, path) {
            if ignores[j].symbol.None? {
              assert Ignores(m, ignores[j], path, hooks[i].symbol);
              return;
            }
            if ignores[j].symbol.value == hooks[i].symbol {
              assert Ignores(m, ignores[j], path, hooks[i].symbol);
              return;
            }
          }
        }
        match' := true;
        return;
      }
    }
  }

  // ---------- what hooking a file does ----------

  /** How the ignore list answers for one hook in xh_core_hook_impl. */
  datatype Answer = HookIt | SkipIt | StopAll

  function AnswerOf(m: Matcher, ignores: seq<IgnoreInfo>, path: CStr, symbol: CStr): Answer {
    if ignores == [] then HookIt
    else if m(ignores[0].regex, path) && ignores[0].symbol.None? then StopAll
    else if m(ignores[0].regex, path) && ignores[0].symbol.value == symbol then SkipIt
    else AnswerOf(m, ignores[1..], path, symbol)
  }

  /** The symbols xh_core_hook_impl hooks in a file, in order. */
  function HookedSymbols(m: Matcher, hooks: seq<HookInfo>, ignores: seq<IgnoreInfo>, path: CStr): seq<CStr> {
    if hooks == [] then []
    else if !m(hooks[0].regex, path) then HookedSymbols(m, hooks[1..], ignores, path)
    else match AnswerOf(m, ignores, path, hooks[0].symbol)
      case StopAll => []
      case SkipIt => HookedSymbols(m, hooks[1..], ignores, path)
      case HookIt => [hooks[0].symbol] + HookedSymbols(m, hooks[1..], ignores, path)
  }

  lemma {:induction false} AnswerIgnores(m: Matcher, ignores: seq<IgnoreInfo>, path: CStr, symbol: CStr)
    ensures AnswerOf(m, ignores, path, symbol) == HookIt <==> !AnyIgnores(m, ignores, path, symbol)
  {
    if ignores != [] {
      AnswerIgnores(m, ignores[1..], path, symbol);
      if AnyIgnores(m, ignores[1..], path, symbol) {
        var i :| 0 <= i < |ignores[1..]| && Ignores(m, ignores[1..][i], path, symbol);
        assert Ignores(m, ignores[i + 1], path, symbol);
      }
      if AnyIgnores(m, ignores, path, symbol) && !Ignores(m, ignores[0], path, symbol) {
        var i :| 0 <= i < |ignores| && Ignores(m, ignores[i], path, symbol);
        assert Ignores(m, ignores[1..][i - 1], path, symbol);
      }
    }
  }

  /** The hooks before the first one whose expression matches the path. */
  function FirstMatch(m: Matcher, hooks: seq<HookInfo>, path: CStr): (i: nat)
    ensures i <= |hooks| && (i < |hooks| ==> m(hooks[i].regex, path))
    ensures forall j :: 0 <= j < i ==> !m(hooks[j].regex, path)
  {
    if hooks == [] || m(hooks[0].regex, path) then 0 else 1 + FirstMatch(m, hooks[1..], path)
  }

  /** The pre-filter agrees with hooking except when the first matching hook is ignored
      for its symbol alone and a later one is not: then the file is skipped although
      hooking it would have done something. */
  lemma {:induction false} WantedVersusHooked(m: Matcher, hooks: seq<HookInfo>, ignores: seq<IgnoreInfo>, path: CStr)
    ensures var i := FirstMatch(m, hooks, path);
      Wanted(m, hooks, ignores, path) <==>
        HookedSymbols(m, hooks, ignores, path) != [] &&
        !(i < |hooks| && AnswerOf(m, ignores, path, hooks[i].symbol) == SkipIt)
  {
    if hooks != [] {
      if m(hooks[0].regex, path) {
        AnswerIgnores(m, ignores, path, hooks[0].symbol);
      } else {
        WantedVersusHooked(m, hooks[1..], ignores, path);
      }
    }
  }

  /** Such a file exists. */
  lemma SkippedFile()
    ensures var m: Matcher := (r: nat, p: CStr) => true;
      var hooks, ignores := [HookInfo(0, [97]), HookInfo(1, [98])], [IgnoreInfo(2, Some([97]))];
      !Wanted(m, hooks, ignores, [47]) && HookedSymbols(m, hooks, ignores, [47]) == [[98]]
  {
    var m: Matcher := (r: nat, p: CStr) => true;
    var hooks, ignores := [HookInfo(0, [97]), HookInfo(1, [98])], [IgnoreInfo(2, Some([97]))];
    assert Ignores(m, ignores[0], [47], [97]);
    assert AnswerOf(m, ignores, [47], [97]) == SkipIt;
    assert ignores[1..] == [];
    assert AnswerOf(m, ignores, [47], [98]) == HookIt;
    assert hooks[1..] == [HookInfo(1, [98])] && hooks[1..][1..] == [];
  }

  // ---------- what a pass computes ----------

  /** Everything a pass depends on besides the tree: the registered hooks and rules. */
  datatype Rules = Rules(matches: Matcher, hooks: seq<HookInfo>, ignores: seq<IgnoreInfo>)

  datatype FileBase = FileBase(path: CStr, base: nat)

  /** The file a line maps, if the pass takes the line at all. */
  function Accepted(r: Rules, line: Line): Option<FileBase> {
    if line.Malformed? || |line.perm| < 4 || line.perm[0] != 'r' || line.perm[3] != 'p' || line.offset != 0 then None
    else match PathOf(line.rest)
      case None => None
      case Some(path) =>
        if Wanted(r.matches, r.hooks, r.ignores, path) && line.elf then Some(FileBase(path, line.base)) else None
  }

  lemma AcceptedIsLine(r: Rules, line: Line)
    ensures Accepted(r, line).Some? ==> line.Line? && Accepted(r, line).value.base == line.base
  {
  }

  type Bases = map<CStr, nat>

  /** Line i puts a file into the refreshed tree: it is the first line taken for its
      file, and for a file not known before there was memory for a record. */
  predicate Enters(r: Rules, known: Bases, lines: seq<Line>, i: nat)
    requires i < |lines|
  {
    && Accepted(r, lines[i]).Some?
    && var f := Accepted(r, lines[i]).value;
    && (f.path in known || lines[i].alloc)
    && f.path !in Refreshed(r, known, lines[..i])
  }

  /** The base address per file after these lines: the first line that can enter wins. */
  function Refreshed(r: Rules, known: Bases, lines: seq<Line>): Bases
    decreases |lines|
  {
    if lines == [] then map[]
    else
      var n := |lines| - 1;
      Step(r, known, Refreshed(r, known, lines[..n]), lines[n])
  }

  function Step(r: Rules, known: Bases, now: Bases, line: Line): Bases {
    match Accepted(r, line)
    case None => now
    case Some(f) => if f.path !in now && (f.path in known || line.alloc) then now[f.path := f.base] else now
  }

  function StepCalls(r: Rules, known: Bases, now: Bases, line: Line): seq<FileBase> {
    match Accepted(r, line)
    case None => []
    case Some(f) => if f.path !in now && (f.path in known || line.alloc) && Changed(known, f) then [f] else []
  }

  lemma NoLines(r: Rules, known: Bases)
    ensures Refreshed(r, known, []) == map[] && HookCalls(r, known, []) == [] && known - {} == known
  {
  }

  lemma OneMoreLine(r: Rules, known: Bases, lines: seq<Line>, i: nat)
    requires i < |lines|
    ensures Refreshed(r, known, lines[..i + 1]) == Step(r, known, Refreshed(r, known, lines[..i]), lines[i])
    ensures HookCalls(r, known, lines[..i + 1]) ==
            HookCalls(r, known, lines[..i]) + StepCalls(r, known, Refreshed(r, known, lines[..i]), lines[i])
  {
    assert lines[..i + 1][..i] == lines[..i];
  }

  /** The hook calls for these lines: one for each file that enters and is new or moved. */
  function HookCalls(r: Rules, known: Bases, lines: seq<Line>): seq<FileBase> {
    if lines == [] then []
    else
      var n := |lines| - 1;
      var before := HookCalls(r, known, lines[..n]);
      if Enters(r, known, lines, n) && Changed(known, Accepted(r, lines[n]).value)
      then before + [Accepted(r, lines[n]).value] else before
  }

  predicate Changed(known: Bases, f: FileBase) {
    f.path !in known || known[f.path] != f.base
  }

  lemma EntersPrefix(r: Rules, known: Bases, lines: seq<Line>, n: nat, i: nat)
    requires i < n <= |lines|
    ensures Enters(r, known, lines[..n], i) == Enters(r, known, lines, i) && lines[..n][i] == lines[i]
  {
    assert lines[..n][..i] == lines[..i];
  }

  lemma {:induction false} EntrantIsIn(r: Rules, known: Bases, lines: seq<Line>, i: nat)
    requires i < |lines| && Enters(r, known, lines, i)
    ensures var f := Accepted(r, lines[i]).value;
      f.path in Refreshed(r, known, lines) && Refreshed(r, known, lines)[f.path] == f.base
  {
    hide Accepted;
    var n := |lines| - 1;
    if i < n {
      EntersPrefix(r, known, lines, n, i);
      EntrantIsIn(r, known, lines[..n], i);
    }
  }

  lemma {:induction false} EntrantOf(r: Rules, known: Bases, lines: seq<Line>, path: CStr) returns (i: nat)
    requires path in Refreshed(r, known, lines)
    ensures i < |lines| && Enters(r, known, lines, i) && Accepted(r, lines[i]).value.path == path
  {
    hide Accepted;
    var n := |lines| - 1;
    if path in Refreshed(r, known, lines[..n]) {
      i := EntrantOf(r, known, lines[..n], path);
      EntersPrefix(r, known, lines, n, i);
    } else {
      i := n;
    }
  }

  /** The refreshed tree holds exactly the files that some line enters, each with the
      base of the one line that enters it. */
  lemma FirstLineWins(r: Rules, known: Bases, lines: seq<Line>)
    ensures forall path :: path in Refreshed(r, known, lines) <==>
              exists i :: 0 <= i < |lines| && Enters(r, known, lines, i) && Accepted(r, lines[i]).value.path == path
    ensures forall i :: 0 <= i < |lines| && Enters(r, known, lines, i) ==>
              var f := Accepted(r, lines[i]).value;
              f.path in Refreshed(r, known, lines) && Refreshed(r, known, lines)[f.path] == f.base
    ensures forall i, j :: 0 <= i < j < |lines| && Enters(r, known, lines, i) && Enters(r, known, lines, j) ==>
              Accepted(r, lines[i]).value.path != Accepted(r, lines[j]).value.path
  {
    hide Accepted, Refreshed;
    forall i | 0 <= i < |lines| && Enters(r, known, lines, i)
      ensures var f := Accepted(r, lines[i]).value;
        f.path in Refreshed(r, known, lines) && Refreshed(r, known, lines)[f.path] == f.base
    {
      EntrantIsIn(r, known, lines, i);
    }
    forall path | path in Refreshed(r, known, lines)
      ensures exists i :: 0 <= i < |lines| && Enters(r, known, lines, i) && Accepted(r, lines[i]).value.path == path
    {
      var i := EntrantOf(r, known, lines, path);
    }
    forall i, j | 0 <= i < j < |lines| && Enters(r, known, lines, i) && Enters(r, known, lines, j)
      ensures Accepted(r, lines[i]).value.path != Accepted(r, lines[j]).value.path
    {
      EntersPrefix(r, known, lines, j, i);
      EntrantIsIn(r, known, lines[..j], i);
    }
  }

  /** The first accepted line of a known file, or of any file when memory never runs out,
      is the one that enters. */
  lemma {:induction false} FirstAcceptedEnters(r: Rules, known: Bases, lines: seq<Line>, i: nat, f: FileBase)
    requires i < |lines| && Accepted(r, lines[i]) == Some(f) && (f.path in known || lines[i].alloc)
    requires forall j :: 0 <= j < i && Accepted(r, lines[j]).Some? ==> Accepted(r, lines[j]).value.path != f.path
    ensures Enters(r, known, lines, i)
  {
    FirstLineWins(r, known, lines[..i]);
    assert forall j :: 0 <= j < i ==> lines[..i][j] == lines[j];
  }

  lemma {:induction false} CallsAreChanges(r: Rules, known: Bases, lines: seq<Line>, k: nat)
    requires k < |HookCalls(r, known, lines)|
    ensures var f := HookCalls(r, known, lines)[k];
      && f.path in Refreshed(r, known, lines) && Refreshed(r, known, lines)[f.path] == f.base && Changed(known, f)
      && forall j :: 0 <= j < k ==> HookCalls(r, known, lines)[j].path != f.path
  {
    hide Accepted;
    var n := |lines| - 1;
    var before := HookCalls(r, known, lines[..n]);
    if k < |before| {
      CallsAreChanges(r, known, lines[..n], k);
    } else {
      forall j | 0 <= j < k
        ensures HookCalls(r, known, lines)[j].path != Accepted(r, lines[n]).value.path
      {
        CallsAreChanges(r, known, lines[..n], j);
      }
    }
  }

  lemma {:induction false} ChangesAreCalled(r: Rules, known: Bases, lines: seq<Line>, path: CStr) returns (k: nat)
    requires path in Refreshed(r, known, lines) && Changed(known, FileBase(path, Refreshed(r, known, lines)[path]))
    ensures k < |HookCalls(r, known, lines)| && HookCalls(r, known, lines)[k].path == path
  {
    hide Accepted;
    var n := |lines| - 1;
    if path in Refreshed(r, known, lines[..n]) {
      k := ChangesAreCalled(r, known, lines[..n], path);
    } else {
      k := |HookCalls(r, known, lines[..n])|;
    }
  }

  /** Hooking runs at most once per file, exactly for the files of the refreshed tree
      that are new or have another base than before. */
  lemma HookedOnce(r: Rules, known: Bases, lines: seq<Line>)
    ensures var calls, after := HookCalls(r, known, lines), Refreshed(r, known, lines);
      && (forall f: FileBase :: f in calls <==> f.path in after && after[f.path] == f.base && Changed(known, f))
      && (forall i, j :: 0 <= i < j < |calls| ==> calls[i].path != calls[j].path)
  {
    hide Accepted, Refreshed, HookCalls;
    var calls, after := HookCalls(r, known, lines), Refreshed(r, known, lines);
    forall k | 0 <= k < |calls|
      ensures calls[k].path in after && after[calls[k].path] == calls[k].base && Changed(known, calls[k])
      ensures forall j :: 0 <= j < k ==> calls[j].path != calls[k].path
    {
      CallsAreChanges(r, known, lines, k);
    }
    forall f: FileBase | f.path in after && after[f.path] == f.base && Changed(known, f)
      ensures f in calls
    {
      var k := ChangesAreCalled(r, known, lines, f.path);
      assert calls[k] == f;
    }
  }

  // ---------- the pass in memory ----------

  /** The records in s are the files of m, one each. */
  ghost predicate Represents(s: set<Ptr>, key: Keys, base: map<Ptr, nat>, m: Bases) {
    && (forall n :: n in s ==> n in key && n in base && key[n] in m && m[key[n]] == base[n])
    && (forall k :: k in m ==> exists n :: n in s && n in key && key[n] == k)
    && (forall n, n' :: n in s && n' in s && key[n] == key[n'] ==> n == n')
  }

  lemma RepresentsWithout(s: set<Ptr>, n: Ptr, key: Keys, base: map<Ptr, nat>, m: Bases)
    requires Represents(s, key, base, m) && n in s
    ensures Represents(s - {n}, key, base, m - {key[n]})
  {
    forall k | k in m - {key[n]}
      ensures exists x :: x in s - {n} && x in key && key[x] == k
    {
      var x :| x in s && x in key && key[x] == k;
      assert x in s - {n};
    }
  }

  lemma RepresentsWith(s: set<Ptr>, n: Ptr, key: Keys, base: map<Ptr, nat>, m: Bases)
    requires Represents(s, key, base, m) && n in key && n in base && key[n] !in m
    ensures Represents(s + {n}, key, base, m[key[n] := base[n]])
  {
    var m' := m[key[n] := base[n]];
    forall k | k in m'
      ensures exists x :: x in s + {n} && x in key && key[x] == k
    {
      if k == key[n] {
        assert n in s + {n};
      } else {
        var x :| x in s && x in key && key[x] == k;
        assert x in s + {n};
      }
    }
  }

  /** A fresh address beside two sets that made up all others. */
  lemma OneLoose(a: set<Ptr>, b: set<Ptr>, keys: set<Ptr>, n: Ptr)
    requires keys == a + b + {} && n !in keys
    ensures {n} !! a && {n} !! b && a !! {n} && b !! {n} && keys + {n} == a + b + {n}
  {
  }

  lemma RepresentsSame(s: set<Ptr>, key: Keys, base: map<Ptr, nat>, key': Keys, base': map<Ptr, nat>, m: Bases)
    requires Represents(s, key, base, m)
    requires forall n :: n in s ==> n in key' && n in base' && key'[n] == key[n] && base'[n] == base[n]
    ensures Represents(s, key', base', m)
  {
    forall k | k in m
      ensures exists n :: n in s && n in key' && key'[n] == k
    {
      var n :| n in s && n in key && key[n] == k;
      assert key'[n] == k;
    }
  }

  lemma PathOfRecord(s: set<Ptr>, n: Ptr, key: Keys, base: map<Ptr, nat>, m: Bases)
    requires Represents(s, key, base, m) && n in s
    ensures n in key && n in base && key[n] in m && m[key[n]] == base[n]
  {
  }

  lemma RepresentsMoved(s: set<Ptr>, n: Ptr, key: Keys, base: map<Ptr, nat>, m: Bases, b: nat)
    requires Represents(s, key, base, m) && n in s
    ensures Represents(s, key, base[n := b], m[key[n] := b])
  {
  }

  lemma NothingRefreshed(key: Keys, base: map<Ptr, nat>)
    ensures Members(InOrder(Leaf)) == {} && Represents({}, key, base, map[])
  {
  }

  lemma FollowsFirst(s: seq<Ptr>, next: Ptr)
    requires s != [] && Follows(s, s[0], next)
    ensures next == FirstOf(s[1..])
  {
  }

  /** Looking a file up among the records is looking it up in the map. */
  lemma RepresentsHas(s: seq<Ptr>, key: Keys, base: map<Ptr, nat>, m: Bases, path: CStr)
    requires Represents(Members(s), key, base, m)
    ensures HasKey(s, path, key) <==> path in m
  {
  }

  /** Erasing one record of a sorted sequence takes out exactly that record. */
  lemma ErasedMembers(s: seq<Ptr>, n: Ptr, s': seq<Ptr>, key: Keys)
    requires Sorted(s, key) && RbSplice.Erases(s, n, s')
    ensures Members(s') == Members(s) - {n} && n in s
  {
    SortedDistinct(s, key);
    var i :| RbSplice.ErasesAt(s, n, s', i);
    assert forall x :: x in s ==> x == n || x in s';
    assert forall j :: 0 <= j < |s'| ==> s'[j] == s[if j < i then j else j + 1];
  }

  class Core {
    const rules: Rules
    const mem: Records
    var mapInfo: RbHead
    var hooked: seq<FileBase>
    ghost var known: Bases

    ghost predicate Owns(head: RbHead, files: Bases)
      reads this, mem, head
    {
      && head.mem == mem && head.Valid()
      && Represents(Members(InOrder(head.tree)), mem.pathname, mem.baseAddr, files)
      && Members(InOrder(head.tree)) <= mem.links.Keys
    }

    /** Every allocated record is in the tree, and the tree is the known files. */
    ghost predicate Valid()
      reads this, mem, mapInfo
    {
      && Owns(mapInfo, known)
      && mem.links.Keys == mem.pathname.Keys == mem.baseAddr.Keys == Members(InOrder(mapInfo.tree))
    }

    /** During a pass: two trees and a few loose records make up memory, and no file is
        in both trees. */
    ghost predicate Between(refreshed: RbHead, stale: Bases, now: Bases, loose: set<Ptr>)
      reads this, mem, mapInfo, refreshed
    {
      && mapInfo != refreshed
      && Owns(mapInfo, stale) && Owns(refreshed, now) && stale.Keys !! now.Keys
      && Members(InOrder(mapInfo.tree)) !! Members(InOrder(refreshed.tree))
      && loose !! Members(InOrder(mapInfo.tree)) && loose !! Members(InOrder(refreshed.tree)) && NULL !in loose
      && mem.links.Keys == mem.pathname.Keys == mem.baseAddr.Keys
      && mem.links.Keys == Members(InOrder(mapInfo.tree)) + Members(InOrder(refreshed.tree)) + loose
    }

    constructor (rules: Rules)
      ensures Valid() && known == map[] && hooked == [] && this.rules == rules
    {
      this.rules := rules;
      var memory := new Records();
      mem := memory;
      mapInfo := new RbHead(memory);
      hooked, known := [], map[];
    }

    /** xh_core_hook, as far as the pass is concerned: the file it runs for. */
    method Hook(mi: Ptr)
      requires mi in mem.pathname && mi in mem.baseAddr
      modifies `hooked
      ensures hooked == old(hooked) + [FileBase(mem.pathname[mi], mem.baseAddr[mi])]
    {
      hooked := hooked + [FileBase(mem.pathname[mi], mem.baseAddr[mi])];
    }

    /** The checks of one line, up to the ELF header. */
    method Accept(line: Line) returns (f: Option<FileBase>)
      ensures f == Accepted(rules, line)
    {
      if line.Malformed? || |line.perm| < 4 { return None; }
      if line.perm[0] != 'r' { return None; }
      if line.perm[3] != 'p' { return None; }
      if line.offset != 0 { return None; }
      var path := PathOf(line.rest);
      if path.None? { return None; }
      var wanted := IsWanted(rules.matches, rules.hooks, rules.ignores, path.value);
      if !wanted { return None; }
      if !line.elf { return None; }
      return Some(FileBase(path.value, line.base));
    }

    /** RB_REMOVE from the old tree. */
    method Take(mi: Ptr, refreshed: RbHead, ghost stale: Bases, ghost now: Bases)
      requires Between(refreshed, stale, now, {}) && mi in InOrder(mapInfo.tree)
      modifies mem`links, mapInfo
      ensures mapInfo == old(mapInfo) && refreshed.tree == old(refreshed.tree)
      ensures Between(refreshed, stale - {mem.pathname[mi]}, now, {mi})
      ensures RbSplice.Erases(old(InOrder(mapInfo.tree)), mi, InOrder(mapInfo.tree))
    {
      hide RbHead.Valid, InOrder, Sorted, RbSplice.Erases, Represents;
      ghost var order, a := InOrder(mapInfo.tree), Members(InOrder(mapInfo.tree));
      RepresentsWithout(a, mi, mem.pathname, mem.baseAddr, stale);
      mapInfo.Facts();
      label L:
      var _ := mapInfo.Remove(mi);
      ErasedMembers(order, mi, InOrder(mapInfo.tree), mem.pathname);
      refreshed.Untouched@L(a);
    }

    /** RB_INSERT into the refreshed tree. */
    method Put(mi: Ptr, refreshed: RbHead, ghost stale: Bases, ghost now: Bases) returns (existing: Ptr)
      requires Between(refreshed, stale, now, {mi}) && mem.pathname[mi] !in stale
      modifies mem`links, refreshed
      ensures existing == NULL <==> mem.pathname[mi] !in now
      ensures existing != NULL ==> Between(refreshed, stale, now, {mi})
      ensures existing == NULL ==>
        Between(refreshed, stale, now[mem.pathname[mi] := mem.baseAddr[mi]], {}) && mi in InOrder(refreshed.tree)
    {
      hide RbHead.Valid, InOrder, HasKey, Represents;
      ghost var b := Members(InOrder(refreshed.tree));
      RepresentsHas(InOrder(refreshed.tree), mem.pathname, mem.baseAddr, now, mem.pathname[mi]);
      label L:
      existing := refreshed.Insert(mi);
      mapInfo.Untouched@L(b + {mi});
      if existing == NULL {
        RepresentsWith(b, mi, mem.pathname, mem.baseAddr, now);
      }
    }

    /** malloc and strdup. */
    method Allocate(path: CStr, base: nat, refreshed: RbHead, ghost stale: Bases, ghost now: Bases) returns (mi: Ptr)
      requires Between(refreshed, stale, now, {})
      modifies mem
      ensures Between(refreshed, stale, now, {mi}) && mem.pathname[mi] == path && mem.baseAddr[mi] == base
    {
      hide RbHead.Valid, InOrder, Represents, Members, HasKey, Sorted;
      ghost var key, bases := mem.pathname, mem.baseAddr;
      ghost var a, b, keys := Members(InOrder(mapInfo.tree)), Members(InOrder(refreshed.tree)), mem.links.Keys;
      label L:
      mi := mem.New(path, base);
      OneLoose(a, b, keys, mi);
      mapInfo.Untouched@L({mi});
      refreshed.Untouched@L({mi});
      RepresentsSame(a, key, bases, mem.pathname, mem.baseAddr, stale);
      RepresentsSame(b, key, bases, mem.pathname, mem.baseAddr, now);
    }

    /** free(mi->pathname); free(mi) */
    method Discard(mi: Ptr, refreshed: RbHead, ghost stale: Bases, ghost now: Bases)
      requires Between(refreshed, stale, now, {mi})
      modifies mem
      ensures Between(refreshed, stale, now, {})
    {
      hide RbHead.Valid, InOrder, Represents, Members;
      ghost var key, bases := mem.pathname, mem.baseAddr;
      label L:
      mem.Free(mi);
      mapInfo.Untouched@L({mi});
      refreshed.Untouched@L({mi});
      RepresentsSame(Members(InOrder(mapInfo.tree)), key, bases, mem.pathname, mem.baseAddr, stale);
      RepresentsSame(Members(InOrder(refreshed.tree)), key, bases, mem.pathname, mem.baseAddr, now);
    }

    /** "exist": the record moves to the refreshed tree, and is hooked again if its base
        changed. There its key is new, so the branch for a repeated record is never taken. */
    method Renew(mi: Ptr, base: nat, refreshed: RbHead, ghost stale: Bases, ghost now: Bases)
      requires Between(refreshed, stale, now, {}) && mi in InOrder(mapInfo.tree)
      modifies this`hooked, mem`links, mem`baseAddr, mapInfo, refreshed
      ensures mapInfo == old(mapInfo)
      ensures var path := mem.pathname[mi];
        && Between(refreshed, stale - {path}, now[path := base], {})
        && hooked == old(hooked) + if old(mem.baseAddr[mi]) != base then [FileBase(path, base)] else []
    {
      hide RbHead.Valid, InOrder, HasKey, Represents, RbSplice.Erases;
      ghost var path, bases := mem.pathname[mi], mem.baseAddr;
      PathOfRecord(Members(InOrder(mapInfo.tree)), mi, mem.pathname, bases, stale);
      Take(mi, refreshed, stale, now);
      var existing := Put(mi, refreshed, stale - {path}, now);
      if existing != NULL {
        assert false;
      }
      if mem.baseAddr[mi] != base {
        Rebase(mi, base, refreshed, stale - {path}, now[path := bases[mi]]);
        assert now[path := bases[mi]][path := base] == now[path := base];
        Hook(mi);
      }
    }

    /** mi->base_addr = base_addr */
    method Rebase(mi: Ptr, base: nat, refreshed: RbHead, ghost stale: Bases, ghost now: Bases)
      requires Between(refreshed, stale, now, {}) && mi in InOrder(refreshed.tree)
      modifies mem`baseAddr
      ensures Between(refreshed, stale, now[mem.pathname[mi] := base], {}) && mem.baseAddr[mi] == base
    {
      hide RbHead.Valid, InOrder, Represents;
      ghost var a, b := Members(InOrder(mapInfo.tree)), Members(InOrder(refreshed.tree));
      ghost var bases := mem.baseAddr;
      PathOfRecord(b, mi, mem.pathname, bases, now);
      label L:
      mem.SetBase(mi, base);
      mapInfo.Untouched@L({});
      refreshed.Untouched@L({});
      RepresentsSame(a, mem.pathname, bases, mem.pathname, mem.baseAddr, stale);
      RepresentsMoved(b, mi, mem.pathname, bases, now, base);
    }

    /** "not exist": a new record, unless an earlier line of this pass had the same file. */
    method Create(path: CStr, base: nat, refreshed: RbHead, ghost stale: Bases, ghost now: Bases)
      requires Between(refreshed, stale, now, {}) && path !in stale
      modifies this`hooked, mem, refreshed
      ensures Between(refreshed, stale, if path in now then now else now[path := base], {})
      ensures hooked == old(hooked) + if path in now then [] else [FileBase(path, base)]
    {
      hide RbHead.Valid, InOrder, Represents;
      var mi := Allocate(path, base, refreshed, stale, now);
      var existing := Put(mi, refreshed, stale, now);
      if existing != NULL {
        Discard(mi, refreshed, stale, now);
        return;
      }
      Hook(mi);
    }

    /** The first record of the old tree goes: one turn of RB_FOREACH_SAFE. */
    method FreeFirst(mi: Ptr, refreshed: RbHead, ghost stale: Bases, ghost now: Bases)
      returns (next: Ptr, ghost stale': Bases)
      requires Between(refreshed, stale, now, {}) && InOrder(mapInfo.tree) != [] && mi == InOrder(mapInfo.tree)[0]
      modifies mem, mapInfo
      ensures Between(refreshed, stale', now, {}) && refreshed.tree == old(refreshed.tree) && mapInfo == old(mapInfo)
      ensures InOrder(mapInfo.tree) == old(InOrder(mapInfo.tree))[1..] && next == FirstOf(InOrder(mapInfo.tree))
    {
      hide RbHead.Valid, InOrder, Sorted, RbSplice.Erases, Represents, Follows;
      ghost var order := InOrder(mapInfo.tree);
      mapInfo.Facts();
      next := mapInfo.Next(mi);
      FollowsFirst(order, next);
      ghost var key := mem.pathname;
      Take(mi, refreshed, stale, now);
      EraseFirst(order, InOrder(mapInfo.tree), key);
      stale' := stale - {mem.pathname[mi]};
      Discard(mi, refreshed, stale', now);
    }

    /** RB_FOREACH_SAFE over the old tree, freeing every record: each is visited once,
        in key order, although removing rebalances the tree under the walk. */
    method FreeStale(refreshed: RbHead, ghost stale: Bases, ghost now: Bases) returns (ghost visited: seq<Ptr>)
      requires Between(refreshed, stale, now, {})
      modifies mem, mapInfo
      ensures mapInfo == old(mapInfo) && visited == old(InOrder(mapInfo.tree)) && InOrder(mapInfo.tree) == []
      ensures Owns(refreshed, now) && refreshed.tree == old(refreshed.tree)
      ensures mem.links.Keys == mem.pathname.Keys == mem.baseAddr.Keys == Members(InOrder(refreshed.tree))
    {
      hide RbHead.Valid, InOrder, Represents;
      ghost var rest := stale;
      var mi := mapInfo.MinMax(-1);
      visited := [];
      assert Members([]) == {};
      while mi != NULL
        invariant Between(refreshed, rest, now, {}) && mapInfo == old(mapInfo) && refreshed.tree == old(refreshed.tree)
        invariant mi == FirstOf(InOrder(mapInfo.tree))
        invariant visited + InOrder(mapInfo.tree) == old(InOrder(mapInfo.tree))
        decreases |InOrder(mapInfo.tree)|
      {
        visited := visited + [mi];
        mi, rest := FreeFirst(mi, refreshed, rest, now);
      }
      mapInfo.Facts();
    }

    /** One line of the file. */
    method PassLine(line: Line, refreshed: RbHead, ghost stale: Bases, ghost now: Bases) returns (ghost now': Bases)
      requires Between(refreshed, stale, now, {}) && stale == known - now.Keys
      modifies this`hooked, mem, mapInfo, refreshed
      ensures mapInfo == old(mapInfo) && now' == Step(rules, known, now, line)
      ensures Between(refreshed, known - now'.Keys, now', {})
      ensures hooked == old(hooked) + StepCalls(rules, known, now, line)
    {
      hide RbHead.Valid, InOrder, Sorted, HasKey, Represents, Accepted;
      now' := now;
      var f := Accept(line);
      AcceptedIsLine(rules, line);
      if f.None? { return; }
      var path, base := f.value.path, f.value.base;
      var mi := mapInfo.Find(path);
      RepresentsHas(InOrder(mapInfo.tree), mem.pathname, mem.baseAddr, stale, path);
      if mi != NULL {
        PathOfRecord(Members(InOrder(mapInfo.tree)), mi, mem.pathname, mem.baseAddr, stale);
        Renew(mi, base, refreshed, stale, now);
        now' := now[path := base];
        assert stale - {path} == known - now'.Keys;
      } else {
        if !line.alloc { return; }
        Create(path, base, refreshed, stale, now);
        now' := if path in now then now else now[path := base];
        assert stale == known - now'.Keys;
      }
    }

    /** xh_core_refresh_impl. */
    method Refresh(lines: seq<Line>)
      requires Valid()
      modifies this, mem, mapInfo
      ensures Valid() && fresh(mapInfo)
      ensures known == Refreshed(rules, old(known), lines)
      ensures hooked == old(hooked) + HookCalls(rules, old(known), lines)
    {
      hide RbHead.Valid, InOrder, Represents, Accepted, Refreshed, HookCalls;
      var refreshed := new RbHead(mem);
      NothingRefreshed(mem.pathname, mem.baseAddr);
      NoLines(rules, known);
      ghost var now: Bases := map[];
      assert known - now.Keys == known && now.Keys == {};
      assert Members(InOrder(refreshed.tree)) == {};
      assert Owns(refreshed, now);
      assert Owns(mapInfo, known);
      for i := 0 to |lines|
        invariant fresh(refreshed) && mapInfo == old(mapInfo) && known == old(known)
        invariant Between(refreshed, known - now.Keys, now, {})
        invariant now == Refreshed(rules, known, lines[..i])
        invariant hooked == old(hooked) + HookCalls(rules, known, lines[..i])
      {
        OneMoreLine(rules, known, lines, i);
        now := PassLine(lines[i], refreshed, known - now.Keys, now);
      }
      assert lines[..|lines|] == lines;
      ghost var visited := FreeStale(refreshed, known - now.Keys, now);
      mapInfo, known := refreshed, now;
    }
  }
}
