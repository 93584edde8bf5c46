/** Which lines of /proc/self/maps a pass takes (xhook/xh_core.c), and what the pass does with them. */
module RefreshLines {
  import opened CString
  import opened Options
  import opened RefreshPass

  // ---------- the text of a line ----------

  /** White space, a pathname, and a newline if the text ends in one; a pathname is not empty and does not
      start with a bracket. */
  predicate Shows(rest: CStr, spaces: CStr, path: CStr, end: CStr) {
    && rest == spaces + path + end && (forall c :: c in spaces ==> c == 32 || 9 <= c <= 13)
    && path != [] && path[0] != 32 && !(9 <= path[0] <= 13) && path[0] != 91
    && (end == [10] || (end == [] && path[|path| - 1] != 10))
  }

  lemma {:induction false} SkipIs(spaces: CStr, s: CStr)
    requires forall c :: c in spaces ==> c == 32 || 9 <= c <= 13
    requires s != [] ==> s[0] != 32 && !(9 <= s[0] <= 13)
    ensures SkipSpaces(spaces + s) == s
  {
    if spaces == [] {
      assert spaces + s == s;
    } else {
      assert (spaces + s)[0] in spaces && (spaces + s)[1..] == spaces[1..] + s;
      assert forall c :: c in spaces[1..] ==> c in spaces;
      SkipIs(spaces[1..], s);
    }
  }

  lemma {:induction false} SkipSplits(s: CStr) returns (spaces: CStr)
    ensures s == spaces + SkipSpaces(s) && forall c :: c in spaces ==> c == 32 || 9 <= c <= 13
    ensures SkipSpaces(s) != [] ==> SkipSpaces(s)[0] != 32 && !(9 <= SkipSpaces(s)[0] <= 13)
  {
    if s != [] && IsSpace(s[0]) {
      var rest := SkipSplits(s[1..]);
      spaces := [s[0]] + rest;
      assert s == [s[0]] + s[1..];
    } else {
      spaces := [];
    }
  }

  lemma PathShown(rest: CStr, spaces: CStr, path: CStr, end: CStr)
    requires Shows(rest, spaces, path, end)
    ensures PathOf(rest) == Some(path)
  {
    assert rest == spaces + (path + end);
    SkipIs(spaces, path + end);
    assert (path + [10])[..|path|] == path && path + [] == path;
  }

  lemma PathIsShown(rest: CStr) returns (spaces: CStr, end: CStr)
    requires PathOf(rest).Some?
    ensures Shows(rest, spaces, PathOf(rest).value, end)
  {
    spaces := SkipSplits(rest);
    var s, path := SkipSpaces(rest), PathOf(rest).value;
    end := s[|path|..];
    assert s == path + end;
  }

  // ---------- the filter ----------

  /** The first hook whose expression matches the path is subject to no ignore rule. */
  predicate FirstHookStands(r: Rules, path: CStr) {
    exists i :: 0 <= i < |r.hooks| && Stands(r, path, i)
  }

  predicate Stands(r: Rules, path: CStr, i: nat)
    requires i < |r.hooks|
  {
    && r.matches(r.hooks[i].regex, path) && (forall j :: 0 <= j < i ==> !r.matches(r.hooks[j].regex, path))
    && forall k :: 0 <= k < |r.ignores| ==>
         !(r.matches(r.ignores[k].regex, path)
           && (r.ignores[k].symbol == None || r.ignores[k].symbol == Some(r.hooks[i].symbol)))
  }

  lemma {:induction false} WantedExactly(r: Rules, path: CStr)
    ensures Wanted(r.matches, r.hooks, r.ignores, path) <==> FirstHookStands(r, path)
    decreases |r.hooks|
  {
    if r.hooks != [] {
      var rest := r.(hooks := r.hooks[1..]);
      if r.matches(r.hooks[0].regex, path) {
        NoRuleFor(r, path, r.hooks[0].symbol);
        assert Stands(r, path, 0) <==> !AnyIgnores(r.matches, r.ignores, path, r.hooks[0].symbol);
      } else {
        WantedExactly(rest, path);
        forall i | 0 <= i < |rest.hooks| ensures Stands(rest, path, i) <==> Stands(r, path, i + 1) {
          StandsLater(r, path, i);
        }
        if FirstHookStands(r, path) {
          var i :| 0 <= i < |r.hooks| && Stands(r, path, i);
          assert Stands(rest, path, i - 1);
        }
      }
    }
  }

  lemma NoRuleFor(r: Rules, path: CStr, symbol: CStr)
    ensures AnyIgnores(r.matches, r.ignores, path, symbol) <==>
      exists k :: 0 <= k < |r.ignores| && r.matches(r.ignores[k].regex, path)
        && (r.ignores[k].symbol == None || r.ignores[k].symbol == Some(symbol))
  {
    if AnyIgnores(r.matches, r.ignores, path, symbol) {
      var k :| 0 <= k < |r.ignores| && Ignores(r.matches, r.ignores[k], path, symbol);
      assert r.matches(r.ignores[k].regex, path);
    }
    if k :| 0 <= k < |r.ignores| && r.matches(r.ignores[k].regex, path)
            && (r.ignores[k].symbol == None || r.ignores[k].symbol == Some(symbol)) {
      assert Ignores(r.matches, r.ignores[k], path, symbol);
    }
  }

  lemma StandsLater(r: Rules, path: CStr, i: nat)
    requires r.hooks != [] && !r.matches(r.hooks[0].regex, path) && i + 1 < |r.hooks|
    ensures Stands(r.(hooks := r.hooks[1..]), path, i) <==> Stands(r, path, i + 1)
  {
    var rest := r.(hooks := r.hooks[1..]);
    assert forall j :: 0 <= j <= i ==> rest.hooks[j] == r.hooks[j + 1];
    if Stands(rest, path, i) {
      forall j | 0 <= j < i + 1 ensures !r.matches(r.hooks[j].regex, path) {
        if j > 0 { assert rest.hooks[j - 1] == r.hooks[j]; }
      }
    }
  }

  // ---------- the lines that are taken ----------

  /** A readable, private mapping of the beginning of a file, with an ELF header there, that is to be hooked. */
  ghost predicate Maps(r: Rules, line: Line, f: FileBase) {
    && line.Line? && |line.perm| >= 4 && line.perm[0] == 'r' && line.perm[3] == 'p' && line.offset == 0
    && line.elf && line.base == f.base
    && (exists spaces, end :: Shows(line.rest, spaces, f.path, end)) && FirstHookStands(r, f.path)
  }

  lemma AcceptedExactly(r: Rules, line: Line, f: FileBase)
    ensures Accepted(r, line) == Some(f) <==> Maps(r, line, f)
    ensures Maps(r, line, f) ==> line.Line?
  {
    hide Shows, PathOf, Wanted, FirstHookStands;
    if line.Line? {
      if PathOf(line.rest).Some? {
        var spaces, end := PathIsShown(line.rest);
      }
      if spaces, end :| Shows(line.rest, spaces, f.path, end) {
        PathShown(line.rest, spaces, f.path, end);
      }
      WantedExactly(r, f.path);
    }
  }

  // ---------- the pass ----------

  /** Line i is the first one that maps the file and has its record or the memory for one. */
  ghost predicate FirstFor(r: Rules, known: Bases, lines: seq<Line>, i: nat, f: FileBase)
    requires i < |lines|
  {
    && Maps(r, lines[i], f) && (f.path in known || lines[i].alloc)
    && forall j, base :: 0 <= j < i && Maps(r, lines[j], FileBase(f.path, base)) ==>
         f.path !in known && !lines[j].alloc
  }

  lemma EnteringIsFirst(r: Rules, known: Bases, lines: seq<Line>, i: nat, f: FileBase)
    requires i < |lines|
    ensures Enters(r, known, lines, i) && Accepted(r, lines[i]) == Some(f) <==> FirstFor(r, known, lines, i, f)
  {
    hide Accepted, Maps, Refreshed, Enters;
    AcceptedExactly(r, lines[i], f);
    if Accepted(r, lines[i]) == Some(f) {
      if Enters(r, known, lines, i) {
        EntersMeans(r, known, lines, i, f);
        forall j, base | 0 <= j < i && Maps(r, lines[j], FileBase(f.path, base))
          ensures f.path !in known && lines[j].Line? && !lines[j].alloc
        {
          AcceptedExactly(r, lines[j], FileBase(f.path, base));
          if f.path in known || lines[j].alloc { TakenBefore(r, known, lines, i, j); }
        }
      } else if FirstFor(r, known, lines, i, f) {
        EntersMeans(r, known, lines, i, f);
        var j := EntrantOf(r, known, lines[..i], f.path);
        EntersPrefix(r, known, lines, i, j);
        EntersMeans(r, known, lines, j, f);
        var g := Accepted(r, lines[j]).value;
        EntersMeans(r, known, lines, j, g);
        AcceptedExactly(r, lines[j], FileBase(f.path, g.base));
      }
    }
  }

  lemma EntersMeans(r: Rules, known: Bases, lines: seq<Line>, i: nat, f: FileBase)
    requires i < |lines|
    ensures Enters(r, known, lines, i) ==> Accepted(r, lines[i]).Some?
    ensures Accepted(r, lines[i]) == Some(f) ==>
      (Enters(r, known, lines, i) <==>
        (f.path in known || lines[i].alloc) && f.path !in Refreshed(r, known, lines[..i]))
  {
    hide Accepted, Refreshed;
  }

  /** Of two lines for one file, the first with a record or the memory for one keeps the second out. */
  lemma {:induction false} TakenBefore(r: Rules, known: Bases, lines: seq<Line>, i: nat, j: nat)
    requires j < i < |lines| && Accepted(r, lines[j]).Some?
    requires var f := Accepted(r, lines[j]).value; f.path in known || lines[j].alloc
    ensures Accepted(r, lines[j]).value.path in Refreshed(r, known, lines[..i])
    decreases i
  {
    hide Accepted;
    var n := i - 1;
    assert lines[..i][..n] == lines[..n] && lines[..i][n] == lines[n];
    if j < n { TakenBefore(r, known, lines, n, j); }
  }

  /** What is known after a pass: each file that some line maps, with the base of the first line that can be
      taken for it. */
  lemma PassExactly(r: Rules, known: Bases, lines: seq<Line>, f: FileBase)
    ensures var after := Refreshed(r, known, lines);
      f.path in after && after[f.path] == f.base <==> exists i :: 0 <= i < |lines| && FirstFor(r, known, lines, i, f)
  {
    hide Refreshed, Enters, Accepted, FirstFor;
    if f.path in Refreshed(r, known, lines) && Refreshed(r, known, lines)[f.path] == f.base {
      var i := EntrantOf(r, known, lines, f.path);
      EntrantIsIn(r, known, lines, i);
      EntersMeans(r, known, lines, i, f);
      var g := Accepted(r, lines[i]).value;
      assert g == f;
      EnteringIsFirst(r, known, lines, i, f);
    }
    if i :| 0 <= i < |lines| && FirstFor(r, known, lines, i, f) {
      EnteringIsFirst(r, known, lines, i, f);
      EntrantIsIn(r, known, lines, i);
    }
  }

  /** What a pass hooks: these files, where they were not known or had another base; each once. */
  lemma HooksExactly(r: Rules, known: Bases, lines: seq<Line>)
    ensures var calls := HookCalls(r, known, lines);
      && (forall f :: f in calls <==>
            (exists i :: 0 <= i < |lines| && FirstFor(r, known, lines, i, f))
            && (f.path in known ==> known[f.path] != f.base))
      && (forall i, j :: 0 <= i < j < |calls| ==> calls[i].path != calls[j].path)
  {
    hide Refreshed, HookCalls, FirstFor;
    HookedOnce(r, known, lines);
    forall f | true
      ensures f in HookCalls(r, known, lines) <==>
        (exists i :: 0 <= i < |lines| && FirstFor(r, known, lines, i, f))
        && (f.path in known ==> known[f.path] != f.base)
    {
      PassExactly(r, known, lines, f);
    }
  }

  // ---------- what hooking a file does ----------

  /** The hooks that match a path and are subject to no ignore rule. */
  function Standing(r: Rules, path: CStr): seq<CStr>
    decreases |r.hooks|
  {
    if r.hooks == [] then [] else
    var rest := Standing(r.(hooks := r.hooks[1..]), path);
    if r.matches(r.hooks[0].regex, path)
       && forall k :: 0 <= k < |r.ignores| ==>
            !(r.matches(r.ignores[k].regex, path)
              && (r.ignores[k].symbol == None || r.ignores[k].symbol == Some(r.hooks[0].symbol)))
    then [r.hooks[0].symbol] + rest else rest
  }

  /** Returning at a rule for all symbols leaves out no hook that stands. */
  lemma {:induction false} HookedExactly(r: Rules, path: CStr)
    ensures HookedSymbols(r.matches, r.hooks, r.ignores, path) == Standing(r, path)
    decreases |r.hooks|
  {
    hide AnswerOf, AnyIgnores;
    if r.hooks != [] {
      var rest := r.(hooks := r.hooks[1..]);
      HookedExactly(rest, path);
      if r.matches(r.hooks[0].regex, path) {
        NoRuleFor(r, path, r.hooks[0].symbol);
        AnswerIgnores(r.matches, r.ignores, path, r.hooks[0].symbol);
        if AnswerOf(r.matches, r.ignores, path, r.hooks[0].symbol) == StopAll {
          var k := StoppedBy(r.matches, r.ignores, path, r.hooks[0].symbol);
          NoneStand(rest, path, k);
        }
      }
    }
  }

  lemma {:induction false} StoppedBy(m: Matcher, ignores: seq<IgnoreInfo>, path: CStr, symbol: CStr) returns (k: nat)
    requires AnswerOf(m, ignores, path, symbol) == StopAll
    ensures k < |ignores| && m(ignores[k].regex, path) && ignores[k].symbol == None
  {
    if m(ignores[0].regex, path) && ignores[0].symbol == None {
      k := 0;
    } else {
      k := StoppedBy(m, ignores[1..], path, symbol);
      k := k + 1;
    }
  }

  lemma {:induction false} NoneStand(r: Rules, path: CStr, k: nat)
    requires k < |r.ignores| && r.matches(r.ignores[k].regex, path) && r.ignores[k].symbol == None
    ensures Standing(r, path) == []
    decreases |r.hooks|
  {
    if r.hooks != [] { NoneStand(r.(hooks := r.hooks[1..]), path, k); }
  }
}
