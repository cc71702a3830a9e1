/** The applications mode: a fixed store of desktop applications, their
    lowercased names, the reused score buffer and the projection that
    every search rewrites. */
module Apps {
  import opened Base
  import opened IndexList
  import opened Ranking
  import MenuItemModels

  /** An application found by the desktop-file scan. */
  datatype Application = Application(name: string, exec: string)

  /** The Desktop Entry field codes removed from `exec` before launch, in
      the order they are removed. */
  const FieldCodes: seq<string> :=
    ["%f", "%F", "%u", "%U", "%d", "%D", "%n", "%N", "%i", "%c", "%k", "%v", "%m"]

  /** `str::replace(pattern, "")`: drop every occurrence of `pattern`,
      scanning left to right without overlaps. */
  function RemoveAll(s: string, pattern: string): (r: string)
    requires pattern != []
    ensures |r| <= |s|
    decreases |s|
  {
    if |s| < |pattern| then s
    else if s[..|pattern|] == pattern then RemoveAll(s[|pattern|..], pattern)
    else [s[0]] + RemoveAll(s[1..], pattern)
  }

  /** The fold that removes each code in turn. */
  function RemoveEach(s: string, codes: seq<string>): (r: string)
    requires forall k :: 0 <= k < |codes| ==> codes[k] != []
    ensures |r| <= |s|
    decreases |codes|
  {
    if codes == [] then s else RemoveEach(RemoveAll(s, codes[0]), codes[1..])
  }

  /** The command line `run_action` hands to `sh -c`. */
  function StripFieldCodes(exec: string): (r: string)
    ensures |r| <= |exec|
  {
    RemoveEach(exec, FieldCodes)
  }

  /** A character that can belong to a field code. */
  predicate CodeChar(c: char)
  {
    c == '%' || c in "fFuUdDnNickvm"
  }

  /** The characters that no field code can touch, in order. */
  function Untouchable(s: string): string
  {
    if s == [] then [] else (if CodeChar(s[0]) then [] else [s[0]]) + Untouchable(s[1..])
  }

  lemma {:induction false} UntouchableConcat(a: string, b: string)
    ensures Untouchable(a + b) == Untouchable(a) + Untouchable(b)
  {
    if a == [] {
      assert a + b == b;
    } else {
      assert (a + b)[1..] == a[1..] + b;
      UntouchableConcat(a[1..], b);
    }
  }

  lemma {:induction false} UntouchableOfCode(p: string)
    requires forall k :: 0 <= k < |p| ==> CodeChar(p[k])
    ensures Untouchable(p) == []
  {
    if p != [] {
      UntouchableOfCode(p[1..]);
    }
  }

  /** Removing a code keeps every other character, in order. */
  lemma {:induction false} RemoveAllKeepsUntouchable(s: string, p: string)
    requires p != [] && forall k :: 0 <= k < |p| ==> CodeChar(p[k])
    ensures Untouchable(RemoveAll(s, p)) == Untouchable(s)
    decreases |s|
  {
    if |s| < |p| {
    } else if s[..|p|] == p {
      RemoveAllKeepsUntouchable(s[|p|..], p);
      assert s == p + s[|p|..];
      UntouchableConcat(p, s[|p|..]);
      UntouchableOfCode(p);
    } else {
      RemoveAllKeepsUntouchable(s[1..], p);
      UntouchableConcat([s[0]], RemoveAll(s[1..], p));
      assert s == [s[0]] + s[1..];
      UntouchableConcat([s[0]], s[1..]);
    }
  }

  lemma {:induction false} RemoveEachKeepsUntouchable(s: string, codes: seq<string>)
    requires forall k :: 0 <= k < |codes| ==> codes[k] != []
    requires forall k, j :: 0 <= k < |codes| && 0 <= j < |codes[k]| ==> CodeChar(codes[k][j])
    ensures Untouchable(RemoveEach(s, codes)) == Untouchable(s)
    decreases |codes|
  {
    if codes != [] {
      RemoveAllKeepsUntouchable(s, codes[0]);
      RemoveEachKeepsUntouchable(RemoveAll(s, codes[0]), codes[1..]);
    }
  }

  /** Every field code is `%` followed by one letter. */
  lemma FieldCodesShape()
    ensures forall k :: 0 <= k < |FieldCodes| ==>
      |FieldCodes[k]| == 2 && FieldCodes[k][0] == '%' && FieldCodes[k][1] in "fFuUdDnNickvm"
    ensures forall k :: 0 <= k < |FieldCodes| ==> CodeChar(FieldCodes[k][1]) && FieldCodes[k][1] != '%'
  {
  }

  /** Stripping removes only `%` and field-code letters: every other
      character of `exec` reaches the shell, in order. */
  lemma StripKeepsUntouchable(exec: string)
    ensures Untouchable(StripFieldCodes(exec)) == Untouchable(exec)
    ensures |StripFieldCodes(exec)| <= |exec|
  {
    FieldCodesShape();
    RemoveEachKeepsUntouchable(exec, FieldCodes);
  }

  /** A prefix without `%` is never part of a removed code: it is kept
      whole and the removal goes on in what follows it. */
  lemma {:induction false} PercentFreePrefix(a: string, b: string, p: string)
    requires p != [] && p[0] == '%' && '%' !in a
    ensures RemoveAll(a + b, p) == a + RemoveAll(b, p)
    decreases |a|
  {
    if a == [] {
      assert a + b == b;
    } else {
      var s := a + b;
      assert s[0] == a[0] != '%';
      assert s[1..] == a[1..] + b;
      PercentFreePrefix(a[1..], b, p);
      if |s| >= |p| {
        assert s[..|p|][0] != '%';
        assert RemoveAll(s, p) == [a[0]] + (a[1..] + RemoveAll(b, p));
      } else {
        assert RemoveAll(b, p) == b;
      }
      assert a == [a[0]] + a[1..];
    }
  }

  lemma {:induction false} RemoveEachPercentFreePrefix(a: string, b: string, codes: seq<string>)
    requires forall k :: 0 <= k < |codes| ==> codes[k] != [] && codes[k][0] == '%'
    requires '%' !in a
    ensures RemoveEach(a + b, codes) == a + RemoveEach(b, codes)
    decreases |codes|
  {
    if codes != [] {
      PercentFreePrefix(a, b, codes[0]);
      RemoveEachPercentFreePrefix(a, RemoveAll(b, codes[0]), codes[1..]);
    }
  }

  /** The program part of a command line, up to its first `%`, reaches the
      shell unchanged; only the rest is stripped. */
  lemma StripPercentFreePrefix(prog: string, rest: string)
    requires '%' !in prog
    ensures StripFieldCodes(prog + rest) == prog + StripFieldCodes(rest)
  {
    FieldCodesShape();
    RemoveEachPercentFreePrefix(prog, rest, FieldCodes);
  }

  lemma {:induction false} RemoveAllWithoutPercent(s: string, p: string)
    requires p != [] && p[0] == '%' && '%' !in s
    ensures RemoveAll(s, p) == s
    decreases |s|
  {
    if |s| >= |p| {
      assert s[..|p|][0] == s[0] != '%';
      RemoveAllWithoutPercent(s[1..], p);
      assert s == [s[0]] + s[1..];
    }
  }

  lemma {:induction false} RemoveEachWithoutPercent(s: string, codes: seq<string>)
    requires forall k :: 0 <= k < |codes| ==> codes[k] != [] && codes[k][0] == '%'
    requires '%' !in s
    ensures RemoveEach(s, codes) == s
    decreases |codes|
  {
    if codes != [] {
      RemoveAllWithoutPercent(s, codes[0]);
      RemoveEachWithoutPercent(s, codes[1..]);
    }
  }

  /** A command line without `%` reaches the shell unchanged. */
  lemma StripWithoutPercent(exec: string)
    requires '%' !in exec
    ensures StripFieldCodes(exec) == exec
  {
    FieldCodesShape();
    RemoveEachWithoutPercent(exec, FieldCodes);
  }

  /** A code standing at the head of a `%`-free rest is removed, and only
      it. */
  lemma RemoveAllSameCode(s: string, c: string)
    requires |c| == 2 && c[0] == '%' && '%' !in s
    ensures RemoveAll(c + s, c) == s
  {
    var t := c + s;
    assert t[..|c|] == c;
    assert t[|c|..] == s;
    RemoveAllWithoutPercent(s, c);
  }

  /** Removing a different code leaves a code at the head of a `%`-free
      rest alone. */
  lemma RemoveAllOtherCode(s: string, c: string, p: string)
    requires |c| == 2 && c[0] == '%' && c[1] != '%' && '%' !in s
    requires |p| == 2 && p[0] == '%' && p != c
    ensures RemoveAll(c + s, p) == c + s
  {
    var t := c + s;
    assert t[..|p|] == c;
    assert t[1..] == [c[1]] + s;
    assert '%' !in t[1..];
    RemoveAllWithoutPercent(t[1..], p);
    assert t == [t[0]] + t[1..];
  }

  /** The fold removes a code that is in its list. */
  lemma {:induction false} RemoveEachCode(s: string, c: string, codes: seq<string>)
    requires forall k :: 0 <= k < |codes| ==> |codes[k]| == 2 && codes[k][0] == '%'
    requires |c| == 2 && c[0] == '%' && c[1] != '%' && '%' !in s
    requires c in codes
    ensures RemoveEach(c + s, codes) == s
    decreases |codes|
  {
    if codes[0] == c {
      RemoveAllSameCode(s, c);
      RemoveEachWithoutPercent(s, codes[1..]);
    } else {
      RemoveAllOtherCode(s, c, codes[0]);
      RemoveEachCode(s, c, codes[1..]);
    }
  }

  /** Each of the field codes is removed from the command line: a code
      between a `%`-free program part and a `%`-free tail disappears, and
      nothing else does. */
  lemma StripRemovesCode(prog: string, c: string, tail: string)
    requires '%' !in prog && '%' !in tail && c in FieldCodes
    ensures StripFieldCodes(prog + c + tail) == prog + tail
  {
    FieldCodesShape();
    assert prog + c + tail == prog + (c + tail);
    StripPercentFreePrefix(prog, c + tail);
    RemoveEachCode(tail, c, FieldCodes);
  }

  /** `replace` goes on past a removed code: a code at the head of any
      rest is removed and removal continues in the rest. */
  lemma RemoveAllLeadingCode(s: string, c: string)
    requires |c| == 2
    ensures RemoveAll(c + s, c) == RemoveAll(s, c)
  {
    var t := c + s;
    assert t[..|c|] == c;
    assert t[|c|..] == s;
  }

  /** Removing a pattern steps over a `%`-led pair that is not that
      pattern, whatever follows it. */
  lemma RemoveAllOtherCodeAny(s: string, c: string, p: string)
    requires |c| == 2 && c[0] == '%' && c[1] != '%'
    requires |p| == 2 && p[0] == '%' && p != c
    ensures RemoveAll(c + s, p) == c + RemoveAll(s, p)
  {
    var t := c + s;
    assert t[..|p|] == c;
    assert t[1..] == [c[1]] + s;
    PercentFreePrefix([c[1]], s, p);
    assert c == [t[0]] + [c[1]];
  }

  /** The fold removes a listed code wherever it stands, before any rest. */
  lemma {:induction false} RemoveEachCodeAny(s: string, c: string, codes: seq<string>)
    requires forall k :: 0 <= k < |codes| ==> |codes[k]| == 2 && codes[k][0] == '%'
    requires |c| == 2 && c[0] == '%' && c[1] != '%'
    requires c in codes
    ensures RemoveEach(c + s, codes) == RemoveEach(s, codes)
    decreases |codes|
  {
    if codes[0] == c {
      RemoveAllLeadingCode(s, c);
    } else {
      RemoveAllOtherCodeAny(s, c, codes[0]);
      RemoveEachCodeAny(RemoveAll(s, codes[0]), c, codes[1..]);
    }
  }

  /** The fold keeps a `%`-led pair that is not in its list. */
  lemma {:induction false} RemoveEachKeepsOther(s: string, c: string, codes: seq<string>)
    requires forall k :: 0 <= k < |codes| ==> |codes[k]| == 2 && codes[k][0] == '%'
    requires |c| == 2 && c[0] == '%' && c[1] != '%'
    requires c !in codes
    ensures RemoveEach(c + s, codes) == c + RemoveEach(s, codes)
    decreases |codes|
  {
    if codes != [] {
      RemoveAllOtherCodeAny(s, c, codes[0]);
      RemoveEachKeepsOther(RemoveAll(s, codes[0]), c, codes[1..]);
    }
  }

  /** A field code is dropped wherever it stands, whatever follows it. */
  lemma StripDropsCode(c: string, s: string)
    requires c in FieldCodes
    ensures StripFieldCodes(c + s) == StripFieldCodes(s)
  {
    FieldCodesShape();
    RemoveEachCodeAny(s, c, FieldCodes);
  }

  /** A `%` followed by a character that makes no field code (and is no
      second `%`) is kept, with that character. */
  lemma StripKeepsStrayPercent(c: string, s: string)
    requires |c| == 2 && c[0] == '%' && c[1] != '%' && c !in FieldCodes
    ensures StripFieldCodes(c + s) == c + StripFieldCodes(s)
  {
    FieldCodesShape();
    RemoveEachKeepsOther(s, c, FieldCodes);
  }

  /** A command line built from field codes, each followed by a piece of
      text: `codes[0] + texts[0] + codes[1] + texts[1] + …`. */
  function Interleave(codes: seq<string>, texts: seq<string>): string
    requires |codes| == |texts|
  {
    if codes == [] then [] else codes[0] + texts[0] + Interleave(codes[1..], texts[1..])
  }

  /** The pieces joined in order. */
  function Join(texts: seq<string>): string
  {
    if texts == [] then [] else texts[0] + Join(texts[1..])
  }

  lemma {:induction false} StripInterleave(codes: seq<string>, texts: seq<string>)
    requires |codes| == |texts|
    requires forall k :: 0 <= k < |codes| ==> codes[k] in FieldCodes
    requires forall k :: 0 <= k < |texts| ==> '%' !in texts[k]
    ensures StripFieldCodes(Interleave(codes, texts)) == Join(texts)
    decreases |codes|
  {
    if codes == [] {
      StripWithoutPercent([]);
    } else {
      var rest := Interleave(codes[1..], texts[1..]);
      assert Interleave(codes, texts) == codes[0] + (texts[0] + rest);
      StripDropsCode(codes[0], texts[0] + rest);
      StripPercentFreePrefix(texts[0], rest);
      StripInterleave(codes[1..], texts[1..]);
    }
  }

  /** Every field code is removed from a command line of the form
      `prog code text code text …` with no other `%`, repeated codes
      included, and the rest reaches the shell in order: `app %c %u`
      becomes `app  `. */
  lemma StripBuild(prog: string, codes: seq<string>, texts: seq<string>)
    requires |codes| == |texts| && '%' !in prog
    requires forall k :: 0 <= k < |codes| ==> codes[k] in FieldCodes
    requires forall k :: 0 <= k < |texts| ==> '%' !in texts[k]
    ensures StripFieldCodes(prog + Interleave(codes, texts)) == prog + Join(texts)
  {
    StripPercentFreePrefix(prog, Interleave(codes, texts));
    StripInterleave(codes, texts);
  }

  /** `name()` of an application. */
  function Name(app: Application): (r: string)
    ensures r == app.name
  {
    app.name
  }

  /** The process `run_action` starts: a shell running the stripped
      command line. */
  datatype ShellInvocation = ShellInvocation(program: string, args: seq<string>)

  function LaunchCommand(app: Application): (c: ShellInvocation)
    ensures c.program == "sh" && |c.args| == 2 && c.args[0] == "-c"
    ensures c.args[1] == StripFieldCodes(app.exec)
  {
    ShellInvocation("sh", ["-c", StripFieldCodes(app.exec)])
  }

  /** `run_action()`, given what the OS answers to the spawn request. The
      error carries the original `exec`, not the stripped command line. */
  function RunAction(app: Application, outcome: SpawnOutcome): (r: Result<(), MenuItemModels.ActionError>)
    ensures r.Err? <==> outcome.SpawnFailed?
    ensures r.Err? ==> r.error.command == app.exec && r.error.cause == outcome.cause
    ensures r.Err? ==> r.error.error == "Failed to launch application"
  {
    if outcome.Started? then Ok(())
    else Err(MenuItemModels.ActionError(outcome.cause, "Failed to launch application", app.exec))
  }

  /** For an `exec` with no `%` the shell runs exactly the command the
      error would report. */
  lemma ReportedCommandIsRunWithoutCodes(app: Application, cause: string)
    requires '%' !in app.exec
    ensures RunAction(app, SpawnFailed(cause)).error.command == LaunchCommand(app).args[1]
  {
    StripWithoutPercent(app.exec);
  }

  class AppsMode {
    const apps: seq<Application>
    const metrics: Metrics
    /** `lowered_names`: each application's name, lowercased once. */
    const loweredNames: seq<string>
    /** `indecies_buffer`: the scored entries of the last non-empty search. */
    var buffer: seq<ScoredIndex>
    const model: ListModel

    ghost predicate Valid()
      reads this, model
    {
      && |loweredNames| == |apps|
      && (forall i :: 0 <= i < |apps| ==> loweredNames[i] == metrics.toLowercase(apps[i].name))
      && model.Valid()
    }

    /** `AppsMode::new` after the scan: the applications it found. */
    constructor (apps: seq<Application>, metrics: Metrics)
      ensures Valid()
      ensures this.apps == apps && this.metrics == metrics
      ensures buffer == [] && fresh(model)
      ensures model.items == [] && model.pool == [] && model.emitted == []
    {
      this.apps := apps;
      this.metrics := metrics;
      this.loweredNames := seq(|apps|, i requires 0 <= i < |apps| => metrics.toLowercase(apps[i].name));
      this.buffer := [];
      this.model := new ListModel();
    }

    /** `search`: install the ranking of `query` in the projection. The
        empty query leaves the buffer alone; any other refills it from
        scratch, so the result depends only on the query and the store. */
    method Search(query: string) returns (result: ListModel)
      requires Valid()
      modifies this, model
      ensures Valid() && result == model
      ensures model.items == Rank(loweredNames, query, metrics)
      ensures query == [] ==> buffer == old(buffer)
      ensures query != [] ==> buffer == SortByScore(Scored(loweredNames, metrics.toLowercase(query), metrics))
      ensures query != [] ==> model.items == Column(buffer)
      ensures model.pool == old(model.pool) && model.handedOut == old(model.handedOut)
      ensures model.emitted == old(model.emitted) + [ItemsChanged(0, 0, Wrap(|model.items|))]
    {
      if query == [] {
        model.SetIndices(Identity(Wrap(|apps|)));
        return model;
      }
      var queryLower := metrics.toLowercase(query);
      buffer := [];
      var i := 0;
      while i < |apps|
        invariant 0 <= i <= |apps|
        invariant buffer == Scored(loweredNames[..i], queryLower, metrics)
        modifies this
      {
        var score := Score(loweredNames[i], queryLower, metrics);
        assert loweredNames[..i + 1][..i] == loweredNames[..i];
        if score > Threshold {
          buffer := buffer + [ScoredIndex(Wrap(i), score)];
        }
        i := i + 1;
      }
      assert loweredNames[..|apps|] == loweredNames;
      buffer := SortByScore(buffer);
      model.SetIndices(Column(buffer));
      return model;
    }

    /** `filled_model`: every application, in store order. */
    method FilledModel() returns (result: ListModel)
      requires Valid()
      modifies model
      ensures Valid() && result == model
      ensures model.items == Identity(|apps|)
      ensures model.pool == old(model.pool) && model.handedOut == old(model.handedOut)
      ensures model.emitted == old(model.emitted) + [ItemsChanged(0, 0, Wrap(|apps|))]
    {
      model.SetIndices(Identity(|apps|));
      return model;
    }

    /** `get_menu_item_model`: the application a wrapper stands for; an
        index past the store panics, so it is excluded. */
    function GetMenuItemModel(item: Index): (app: Application)
      reads item
      requires item.index < |apps|
      ensures app == apps[item.index] && app in apps
    {
      apps[item.index]
    }
  }

  /** After a non-empty search, the wrapper for any row resolves to an
      application in the store whose lowercased name scores above 0.3
      against the lowercased query. */
  lemma SearchRowsResolve(mode: AppsMode, query: string, p: nat, item: Index)
    requires mode.Valid() && |mode.apps| <= U32Limit && query != []
    requires p < |Rank(mode.loweredNames, query, mode.metrics)|
    requires item.index == Rank(mode.loweredNames, query, mode.metrics)[p]
    ensures item.index < |mode.apps|
    ensures Score(mode.metrics.toLowercase(Name(mode.GetMenuItemModel(item))),
                  mode.metrics.toLowercase(query), mode.metrics) > Threshold
  {
    RankCorrect(mode.loweredNames, query, mode.metrics);
  }
}
