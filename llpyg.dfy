// The command-line generator of cmd/llpyg/llpyg.go: the run mode it picks
// for its argument, the file a module's bindings are written to, and its
// own, older versions of genMod, genFunc, genParams and genName.
module LLPyg {
  import opened GoStrings
  import opened PySig
  import opened PyGenNames
  import opened PyGenParams
  import opened PyGenSpec

  // ---------------------------------------------------------------------
  // parseArgs
  // ---------------------------------------------------------------------

  /** The run mode parseArgs picks for its positional argument: "cfg" for
      a configuration file, "cmd" for the name of a Python library. */
  function RunMode(narg: string): (mode: string)
    ensures mode == "cfg" <==> HasSuffix(narg, ".cfg")
    ensures mode == "cfg" || mode == "cmd"
  {
    if HasSuffix(narg, ".cfg") then "cfg" else "cmd"
  }

  /** parseArgs on the arguments left after the flags: without one the
      program stops with its usage text (None); otherwise the run mode and
      the first of them. */
  function ParseArgs(positional: seq<string>): (r: Option<(string, string)>)
    ensures r.None? <==> positional == []
    ensures r.Some? ==> r.value == (RunMode(positional[0]), positional[0])
  {
    if |positional| < 1 then None else Some((RunMode(positional[0]), positional[0]))
  }

  /** Any name ending in ".cfg" is read as a configuration file. */
  lemma CfgFile(name: string)
    ensures RunMode(name + ".cfg") == "cfg"
  {
    var s := name + ".cfg";
    assert s[|s| - 4..] == ".cfg";
  }

  /** The modes of the invocations `llpyg numpy`, `llpyg pandas` and
      `llpyg -o test -mod numpy llpyg.cfg`. */
  lemma ParseArgsExamples()
    ensures ParseArgs(["numpy"]) == Some(("cmd", "numpy"))
    ensures ParseArgs(["pandas"]) == Some(("cmd", "pandas"))
    ensures ParseArgs(["llpyg.cfg"]) == Some(("cfg", "llpyg.cfg"))
  {
    CfgFile("llpyg");
    assert "llpyg" + ".cfg" == "llpyg.cfg";
    assert "numpy"[1..] == "umpy";
  }

  // ---------------------------------------------------------------------
  // moduleToPath
  // ---------------------------------------------------------------------

  /** filepath.Clean on a slash-separated path none of whose elements is
      "." or "..", and which does not end in '/': every run of '/' becomes
      a single '/'. This is the path from position i on. */
  function CollapseSlashes(p: string, i: nat): string
    decreases |p| - i
  {
    if i >= |p| then []
    else if i + 1 < |p| && p[i] == '/' && p[i + 1] == '/' then CollapseSlashes(p, i + 1)
    else [p[i]] + CollapseSlashes(p, i + 1)
  }

  /** filepath.Join(dir, file) for a file name that is neither empty nor
      "." nor ".." and carries no '/': an empty directory is dropped,
      otherwise the two are joined by '/' and the result cleaned. */
  function JoinPath(dir: string, file: string): string {
    if dir == "" then file else CollapseSlashes(dir + "/" + file, 0)
  }

  /** moduleToPath: the file <last component>.go in the directory made of
      the components after the first (the last one included). The
      components come from splitting on '.', so none of them is "." or
      "..". */
  function ModuleToPath(moduleName: string): string {
    PathOfParts(Split(moduleName, '.'))
  }

  /** The path for the components of a module name. */
  function PathOfParts(parts: seq<string>): string
    requires parts != []
  {
    JoinPath(Join(parts[1..], "/"), parts[|parts| - 1] + ".go")
  }

  /** A dotted Python module name: no empty component and no '/'. */
  predicate DottedName(moduleName: string) {
    '/' !in moduleName && forall i :: 0 <= i < |Split(moduleName, '.')| ==> Split(moduleName, '.')[i] != ""
  }

  /** A module name without a '.' gives <name>.go. */
  lemma ModuleToPathSingle(moduleName: string)
    requires '.' !in moduleName
    ensures ModuleToPath(moduleName) == moduleName + ".go"
  {
    assert Split(moduleName, '.') == [moduleName];
  }

  /** A dotted module name a.b1...bn gives b1/.../bn/bn.go. */
  lemma ModuleToPathShape(moduleName: string)
    requires DottedName(moduleName) && '.' in moduleName
    ensures var parts := Split(moduleName, '.');
      ModuleToPath(moduleName) == Join(parts[1..], "/") + "/" + (parts[|parts| - 1] + ".go")
  {
    var parts := Split(moduleName, '.');
    var dirs := parts[1..];
    var last := parts[|parts| - 1];
    assert dirs != [] && (forall i :: 0 <= i < |dirs| ==> dirs[i] != "" && '/' !in dirs[i]) && '/' !in last by {
      SplitNoChar(moduleName, '.', '/');
      assert forall i :: 0 <= i < |dirs| ==> dirs[i] == parts[i + 1];
    }
    GoFileName(last);
    CleanFilePath(dirs, last + ".go");
  }

  /** The file name of a component is not empty and carries no '/'. */
  lemma GoFileName(last: string)
    requires '/' !in last
    ensures last + ".go" != "" && '/' !in last + ".go"
  {
    var f := last + ".go";
    assert forall j :: 0 <= j < |f| ==> f[j] == if j < |last| then last[j] else ".go"[j - |last|];
  }

  /** The path moduleToPath joins, for non-empty slash-free directory
      and file names, needs no cleaning. */
  lemma CleanFilePath(dirs: seq<string>, file: string)
    requires dirs != [] && forall i :: 0 <= i < |dirs| ==> dirs[i] != "" && '/' !in dirs[i]
    requires file != "" && '/' !in file
    ensures JoinPath(Join(dirs, "/"), file) == Join(dirs, "/") + "/" + file
  {
    var pieces: seq<string> := dirs + [file];
    assert forall i :: 0 <= i < |pieces| ==> pieces[i] == if i < |dirs| then dirs[i] else file;
    JoinSnoc(dirs, file, "/");
    JoinNoDoubleSlash(pieces);
    JoinFirst(dirs, "/");
    assert Join(dirs, "/") != [];
    CollapseNoDoubleSlash(Join(dirs, "/") + "/" + file, 0);
  }

  /** A two-component module name a.b gives b/b.go, so numpy.linalg is
      written to linalg/linalg.go. */
  lemma ModuleToPathPair(a: string, b: string)
    requires '.' !in a && '.' !in b && '/' !in a && '/' !in b && a != "" && b != ""
    ensures ModuleToPath(a + "." + b) == b + "/" + (b + ".go")
  {
    var m := a + "." + b;
    SplitAt(a, b, '.');
    assert forall i :: 0 <= i < |m| ==> m[i] == if i < |a| then a[i] else if i == |a| then '.' else b[i - |a| - 1];
    assert m[|a|] == '.';
    ModuleToPathShape(m);
    assert Split(m, '.')[1..] == [b];
  }

  /** No two adjacent '/'. */
  predicate NoDoubleSlash(s: string) {
    forall i :: 0 <= i < |s| - 1 ==> !(s[i] == '/' && s[i + 1] == '/')
  }

  lemma {:induction false} CollapseNoDoubleSlash(p: string, i: nat)
    requires NoDoubleSlash(p) && i <= |p|
    ensures CollapseSlashes(p, i) == p[i..]
    decreases |p| - i
  {
    if i < |p| {
      CollapseNoDoubleSlash(p, i + 1);
      assert p[i..] == [p[i]] + p[i + 1..];
    }
  }

  /** Joining non-empty, slash-free pieces with '/' leaves no '//'. */
  lemma {:induction false} JoinNoDoubleSlash(ps: seq<string>)
    requires forall i :: 0 <= i < |ps| ==> ps[i] != "" && '/' !in ps[i]
    ensures NoDoubleSlash(Join(ps, "/"))
    decreases |ps|
  {
    if |ps| > 1 {
      var rest := Join(ps[1..], "/");
      JoinNoDoubleSlash(ps[1..]);
      JoinFirst(ps[1..], "/");
      var s := ps[0] + "/" + rest;
      assert Join(ps, "/") == s;
      forall i | 0 <= i < |s| - 1
        ensures !(s[i] == '/' && s[i + 1] == '/')
      {
        if i < |ps[0]| - 1 {
          assert s[i] == ps[0][i];
        } else if i == |ps[0]| - 1 {
          assert s[i] == ps[0][i];
        } else if i == |ps[0]| {
          assert s[i + 1] == rest[0] == ps[1][0];
        } else {
          assert s[i] == rest[i - |ps[0]| - 1] && s[i + 1] == rest[i - |ps[0]|];
        }
      }
    }
  }

  // ---------------------------------------------------------------------
  // genName (the older variant)
  // ---------------------------------------------------------------------

  /** The joined cores the older genName escapes with a '_'. */
  predicate IsReservedCore(c: string) {
    c == "default" || c == "func" || c == "var" || c == "range" || c == ""
  }

  /** The older genName: the same titled, underscore-free core as the
      generator's genName, then a '_' when that core is "default", "func",
      "var", "range" or empty, then the trailing '_' run of the name. */
  function OldGoName(name: string, idxDontTitle: int): string {
    var c := Core(name, idxDontTitle);
    (if IsReservedCore(c) then c + "_" else c) + name[TrailStart(name)..]
  }

  method OldGenName(name: string, idxDontTitle: int) returns (r: string)
    ensures r == OldGoName(name, idxDontTitle)
  {
    var k := TrailOf(name);
    var workingName := name[..k];
    var trail := name[k..];
    var split := Split(workingName, '_');
    var parts := new string[|split|](i => if 0 <= i < |split| then split[i] else "");
    assert parts[..] == split;
    TitleInPlace(parts, idxDontTitle);
    r := Join(parts[..], "");
    if r == "default" || r == "func" || r == "var" || r == "range" || r == "" {
      r := r + "_";
    }
    r := r + trail;
  }

  /** The result is never empty and never one of the escaped words: it is
      the core, a '_' exactly when the core is one of them, and the
      trailing '_' run of the name unchanged. */
  lemma OldGoNameShape(name: string, idxDontTitle: int)
    ensures var r, c, t := OldGoName(name, idxDontTitle), Core(name, idxDontTitle), name[TrailStart(name)..];
      '_' !in c
      && (forall i :: 0 <= i < |t| ==> t[i] == '_')
      && (IsReservedCore(c) ==> r == c + "_" + t)
      && (!IsReservedCore(c) ==> r == c + t)
      && r != "" && !IsReservedCore(r)
  {
    var r, c, t := OldGoName(name, idxDontTitle), Core(name, idxDontTitle), name[TrailStart(name)..];
    CoreNoUnderscore(name, idxDontTitle);
    if IsReservedCore(c) {
      assert r[|c|] == '_';
      ReservedNoUnderscore(r);
    } else if t != [] {
      assert r[|r| - 1] == '_';
      ReservedNoUnderscore(r);
    } else {
      assert r == c;
    }
  }

  lemma ReservedNoUnderscore(w: string)
    requires '_' in w
    ensures !IsReservedCore(w)
  {
  }

  /** For a name whose core is not empty, with every part titled, the
      older genName agrees with the generator's genName. */
  lemma OldGoNameAgrees(name: string)
    requires Core(name, -1) != ""
    ensures OldGoName(name, -1) == GoName(name, -1)
  {
    var c, t := Core(name, -1), name[TrailStart(name)..];
    CoreTitledFirst(name);
    assert (c + t)[0] == c[0];
    if IsGoKeyword(c + t) {
      KeywordsAreLowerWords(c + t);
    }
  }

  /** A name made of '_' only (the empty name included) keeps its run and
      gets one more '_' in front of it, where the generator's genName
      leaves it unchanged. */
  lemma OldGoNameUnderscores(name: string, idxDontTitle: int)
    requires forall i :: 0 <= i < |name| ==> name[i] == '_'
    ensures OldGoName(name, idxDontTitle) == "_" + name
    ensures GoName(name, idxDontTitle) == name
  {
    assert TrailStart(name) == 0 by {
      TrailStartUnique(name, 0);
    }
    assert Core(name, idxDontTitle) == [] by {
      assert name[..0] == [];
      assert Split([], '_') == [[]];
      assert TitleParts([[]], idxDontTitle) == [[]];
      assert Join([[]], "") == [];
    }
    assert name[0..] == name;
    assert OldGoName(name, idxDontTitle) == [] + "_" + name;
    assert !IsGoKeyword(name) by {
      if IsGoKeyword(name) {
        KeywordsAreLowerWords(name);
      }
    }
    assert GoName(name, idxDontTitle) == [] + name;
  }

  /** A visible function name (not empty, not starting with '_') has a
      non-empty core, so both generators name the function alike. */
  lemma VisibleCore(name: string)
    requires !IsHidden(name)
    ensures Core(name, -1) != ""
    ensures OldGoName(name, -1) == GoName(name, -1)
  {
    var k := TrailStart(name);
    assert k > 0;
    var w := name[..k];
    var parts := Split(w, '_');
    assert w[0] == name[0] != '_';
    assert parts[0] != [] by {
      assert w == [w[0]] + w[1..];
    }
    var titled := TitleParts(parts, -1);
    assert titled[0] != [];
    JoinFirst(titled, "");
    OldGoNameAgrees(name);
  }

  // ---------------------------------------------------------------------
  // genParams (the older variant)
  // ---------------------------------------------------------------------

  /** The older genParams on one argument name (after TrimSpace): a Go
      keyword gets a leading '_', a name starting with '(' becomes
      list_<listNum>, then "/", "" and "," are skipped, the star rules of
      the generator's genParams apply, and any other name becomes a
      parameter named by the older genName. The first byte is read before
      the skip test, so an empty name is an index out of range. */
  function OldArgStep(name: string, listNum: nat): (s: Outcome<Step>)
    ensures s.Panic? <==> name == ""
    ensures !s.Diverge?
    ensures s.Ok? && s.value.End? ==>
      (s.value.tail == [] && !s.value.variadic) || (s.value.tail == [VaList] && s.value.variadic)
  {
    if name == "" then Panic
    else
      var kw := if IsGoKeyword(name) then "_" + name else name;
      var grouped := kw[0] == '(';
      var n := if grouped then "list_" + Itoa(listNum) else kw;
      var next := if grouped then listNum + 1 else listNum;
      if n == "/" || n == "" || n == "," then Ok(Skip)
      else if n == "*" || n == "\\*" then Ok(End([], false))
      else if HasPrefix(n, "*") then
        assert n[..1] == "*";
        if n[1] != '*' then Ok(End([VaList], true)) else Ok(End([], false))
      else Ok(Named(OldGoName(n, 0), next))
  }

  /** The parameters `list` followed by those of an outcome. */
  function After(list: seq<Param>, r: Outcome<(seq<Param>, bool)>): Outcome<(seq<Param>, bool)> {
    if r.Ok? then Ok((list + r.value.0, r.value.1)) else r
  }

  /** The loop of the older genParams over the arguments, with listNum
      groups already numbered. */
  function OldParamsOf(args: seq<Arg>, listNum: nat): (r: Outcome<(seq<Param>, bool)>)
    ensures !r.Diverge?
    decreases |args|
  {
    if args == [] then Ok(([], false))
    else match OldArgStep(TrimSpace(args[0].name), listNum)
      case Ok(Skip) => OldParamsOf(args[1..], listNum)
      case Ok(End(tail, variadic)) => Ok((tail, variadic))
      case Ok(Named(goName, next)) => After([Obj(goName)], OldParamsOf(args[1..], next))
      case _ => Panic
  }

  /** The older genParams: the parameters of a signature, or a panic. */
  function OldGenParamsSpec(sig: string): Outcome<(seq<Param>, bool)> {
    match ParseSpec(sig)
    case Ok(args) => if |args| == 0 then Ok(([], false)) else OldParamsOf(args, 0)
    case Panic => Panic
    case Diverge => Diverge
  }

  method OldGenParams(sig: string) returns (r: Outcome<(seq<Param>, bool)>)
    ensures r == OldGenParamsSpec(sig) && !r.Diverge?
  {
    var parsed := Parse(sig);
    if !parsed.Ok? {
      return Panic;
    }
    var args := parsed.value;
    if |args| == 0 {
      return Ok(([], false));
    }
    var list: seq<Param> := [];
    var listNum: nat := 0;
    var i := 0;
    assert args[0..] == args;
    AfterNil(OldParamsOf(args, 0));
    while i < |args|
      invariant 0 <= i <= |args|
      invariant OldParamsOf(args, 0) == After(list, OldParamsOf(args[i..], listNum))
    {
      OldParamsOfStep(args, i, listNum);
      var step := OldGenArg(TrimSpace(args[i].name), listNum);
      match step {
        case Ok(Skip) =>
        case Ok(End(tail, v)) =>
          return Ok((list + tail, v));
        case Ok(Named(goName, next)) =>
          AfterAssoc(list, [Obj(goName)], OldParamsOf(args[i + 1..], next));
          list := list + [Obj(goName)];
          listNum := next;
        case _ =>
          return Panic;
      }
      i := i + 1;
    }
    assert args[i..] == [];
    assert list + [] == list;
    return Ok((list, false));
  }

  /** The body of the loop of the older genParams for one argument name. */
  method OldGenArg(name: string, listNum: nat) returns (s: Outcome<Step>)
    ensures s == OldArgStep(name, listNum)
  {
    if name == "" {
      return Panic;
    }
    var n := name;
    var next := listNum;
    if IsGoKeyword(n) {
      n := "_" + n;
    }
    if n[0] == '(' {
      n := "list_" + Itoa(listNum);
      next := listNum + 1;
    }
    if n == "/" || n == "" || n == "," {
      return Ok(Skip);
    }
    if n == "*" || n == "\\*" {
      return Ok(End([], false));
    }
    if HasPrefix(n, "*") {
      assert n[..1] == "*";
      if n[1] != '*' {
        return Ok(End([VaList], true));
      }
      return Ok(End([], false));
    }
    var goName := OldGenName(n, 0);
    return Ok(Named(goName, next));
  }

  /** One round of the loop of the older genParams, in terms of
      OldParamsOf. */
  lemma OldParamsOfStep(args: seq<Arg>, i: nat, listNum: nat)
    requires i < |args|
    ensures var s := OldArgStep(TrimSpace(args[i].name), listNum);
      && (s.Panic? ==> OldParamsOf(args[i..], listNum) == Panic)
      && (s.Ok? && s.value.Skip? ==> OldParamsOf(args[i..], listNum) == OldParamsOf(args[i + 1..], listNum))
      && (s.Ok? && s.value.End? ==> OldParamsOf(args[i..], listNum) == Ok((s.value.tail, s.value.variadic)))
      && (s.Ok? && s.value.Named? ==>
            OldParamsOf(args[i..], listNum) == After([Obj(s.value.goName)], OldParamsOf(args[i + 1..], s.value.next)))
  {
    assert args[i..][0] == args[i] && args[i..][1..] == args[i + 1..];
  }

  lemma AfterNil(r: Outcome<(seq<Param>, bool)>)
    ensures After([], r) == r
  {
    if r.Ok? {
      assert [] + r.value.0 == r.value.0;
    }
  }

  lemma AfterAssoc(a: seq<Param>, b: seq<Param>, r: Outcome<(seq<Param>, bool)>)
    ensures After(a, After(b, r)) == After(a + b, r)
  {
    if r.Ok? {
      assert a + (b + r.value.0) == a + b + r.value.0;
    }
  }

  // ---------------------------------------------------------------------
  // What the older genParams does with each kind of name
  // ---------------------------------------------------------------------

  /** A Go keyword gets a leading '_' (where the generator's genParams
      appends one), and the older genName then titles it: `type` becomes
      the parameter `Type`. */
  lemma OldKeywordStep(kw: string, listNum: nat)
    requires IsGoKeyword(kw)
    ensures OldArgStep(kw, listNum) == Ok(Named(Title(kw), listNum))
  {
    KeywordsAreLowerWords(kw);
    var n := "_" + kw;
    assert n[0] == '_' && n[1..] == kw;
    assert !HasPrefix(n, "*") && n != "*" && n != "\\*" && n != "/" && n != ",";
    KeywordParamName(kw);
  }

  lemma KeywordParamName(kw: string)
    requires IsGoKeyword(kw)
    ensures OldGoName("_" + kw, 0) == Title(kw)
  {
    KeywordsAreLowerWords(kw);
    var n := "_" + kw;
    assert '_' !in kw;
    assert TrailStart(n) == |n| by {
      assert n[|n| - 1] == kw[|kw| - 1];
      TrailStartUnique(n, |n|);
    }
    assert Split(n[..|n|], '_') == [[], kw] by {
      SplitAt([], kw, '_');
      assert [] + ['_'] + kw == n == n[..|n|];
    }
    assert Core(n, 0) == Title(kw) by {
      assert TitleParts([[], kw], 0) == [[], Title(kw)];
      assert Join([[], Title(kw)], "") == Title(kw);
    }
    assert !IsReservedCore(Title(kw)) by {
      assert !IsLower(Title(kw)[0]);
    }
    assert n[|n|..] == [];
  }

  /** The n-th parenthesised argument group (counting from listNum)
      becomes the parameter list<n>, and the count goes up by one. */
  lemma OldGroupStep(name: string, listNum: nat)
    requires name != "" && name[0] == '('
    ensures OldArgStep(name, listNum) == Ok(Named("list" + Itoa(listNum), listNum + 1))
  {
    if IsGoKeyword(name) {
      KeywordsAreLowerWords(name);
    }
    var n := "list_" + Itoa(listNum);
    assert n[..1] == "l" && n[0] == 'l';
    assert n != "/" && n != "" && n != "," && n != "*" && n != "\\*";
    GroupParamName(listNum);
  }

  lemma GroupParamName(k: nat)
    ensures OldGoName("list_" + Itoa(k), 0) == "list" + Itoa(k)
  {
    var n, d := "list_" + Itoa(k), Itoa(k);
    var r := "list" + d;
    ListParamName(k);
    GoNameShape(n, 0);
    var c, t := Core(n, 0), n[TrailStart(n)..];
    assert r[|r| - 1] == d[|d| - 1] != '_';
    assert (c + t + "_")[|c| + |t|] == '_';
    assert c == r;
    assert r[0] == 'l';
  }

  /** `*` and `\*` end the list, not variadic; `*args` ends it with the
      variadic parameter; `**kwargs` ends it, not variadic. */
  lemma OldStarSteps(name: string, listNum: nat)
    requires name != "" && (name[0] == '*' || name == "\\*")
    ensures name[0] == '*' && |name| >= 2 && name[1] != '*' ==> OldArgStep(name, listNum) == Ok(End([VaList], true))
    ensures name == "*" || name == "\\*" || (name[0] == '*' && |name| >= 2 && name[1] == '*') ==>
      OldArgStep(name, listNum) == Ok(End([], false))
  {
    if IsGoKeyword(name) {
      KeywordsAreLowerWords(name);
    }
    assert name[..1] == [name[0]];
  }

  /** "/" and "," produce no parameter. */
  lemma OldSkipStep(name: string, listNum: nat)
    requires name == "/" || name == ","
    ensures OldArgStep(name, listNum) == Ok(Skip)
  {
    assert !IsGoKeyword(name);
  }

  /** Any other name becomes one parameter named by the older genName. */
  lemma OldPlainStep(name: string, listNum: nat)
    requires IsPlain(name) && !IsGoKeyword(name)
    ensures OldArgStep(name, listNum) == Ok(Named(OldGoName(name, 0), listNum))
  {
    assert name[..1] == [name[0]];
  }

  /** A parameter list of at most n parameters that is variadic exactly
      when it ends with the variadic parameter, which appears nowhere
      else. */
  predicate ParamsShaped(ps: seq<Param>, variadic: bool, n: nat) {
    |ps| <= n
    && (variadic <==> ps != [] && ps[|ps| - 1] == VaList)
    && (forall j :: 0 <= j < |ps| - 1 ==> ps[j].Obj?)
  }

  /** The older genParams gives at most one parameter per argument, and
      its result is variadic exactly when the list ends with the variadic
      parameter, which appears nowhere else. */
  lemma {:induction false} OldParamsShape(args: seq<Arg>, listNum: nat)
    ensures OldParamsOf(args, listNum).Ok? ==>
      ParamsShaped(OldParamsOf(args, listNum).value.0, OldParamsOf(args, listNum).value.1, |args|)
    decreases |args|
  {
    if args != [] {
      match OldArgStep(TrimSpace(args[0].name), listNum)
      case Ok(Skip) => OldParamsShape(args[1..], listNum);
      case Ok(End(_, _)) =>
      case Ok(Named(g, next)) =>
        var r := OldParamsOf(args[1..], next);
        OldParamsShape(args[1..], next);
        if r.Ok? {
          ShapedCons(Obj(g), r.value.0, r.value.1, |args| - 1);
        }
      case _ =>
    }
  }

  lemma ShapedCons(p: Param, ps: seq<Param>, variadic: bool, n: nat)
    requires p.Obj? && ParamsShaped(ps, variadic, n)
    ensures ParamsShaped([p] + ps, variadic, n + 1)
  {
    var l := [p] + ps;
    assert forall j :: 1 <= j < |l| ==> l[j] == ps[j - 1];
  }

  /** Arguments with non-empty trimmed names never reach the index out of
      range. */
  lemma {:induction false} OldParamsNoPanic(args: seq<Arg>, listNum: nat)
    requires forall i :: 0 <= i < |args| ==> TrimSpace(args[i].name) != ""
    ensures OldParamsOf(args, listNum).Ok?
    decreases |args|
  {
    if args != [] {
      assert forall i :: 0 <= i < |args[1..]| ==> args[1..][i] == args[i + 1];
      match OldArgStep(TrimSpace(args[0].name), listNum)
      case Ok(Skip) => OldParamsNoPanic(args[1..], listNum);
      case Ok(End(_, _)) =>
      case Ok(Named(g, next)) => OldParamsNoPanic(args[1..], next);
    }
  }

  /** The parser never returns an argument with an empty name, so the
      older genParams fails only where the parser panics. */
  lemma OldGenParamsEnds(sig: string)
    ensures !OldGenParamsSpec(sig).Diverge?
    ensures OldGenParamsSpec(sig).Panic? <==> ParseSpec(sig).Panic?
  {
    SpecEnds(sig);
    SpecWellFormed(sig);
    if ParseSpec(sig).Ok? {
      var args := ParseSpec(sig).value;
      forall i | 0 <= i < |args|
        ensures TrimSpace(args[i].name) != ""
      {
        assert WellFormed(args[i]);
        TrimmedUnchanged(args[i].name);
      }
      OldParamsNoPanic(args, 0);
    }
  }

  // ---------------------------------------------------------------------
  // inFuncSet
  // ---------------------------------------------------------------------

  /** funcSet: the Python type names whose symbols are generated as
      functions. */
  const FuncSet: seq<string> := [
    "ufunc", "method", "function", "method-wrapper",
    "builtin_function_or_method", "_ArrayFunctionDispatcher"
  ]

  predicate IsFuncType(typeName: string) {
    typeName in FuncSet
  }

  method InFuncSet(typeName: string) returns (r: bool)
    ensures r <==> IsFuncType(typeName)
  {
    var i := 0;
    while i < |FuncSet|
      invariant 0 <= i <= |FuncSet|
      invariant forall j :: 0 <= j < i ==> FuncSet[j] != typeName
    {
      if FuncSet[i] == typeName {
        return true;
      }
      i := i + 1;
    }
    return false;
  }

  // ---------------------------------------------------------------------
  // genFunc
  // ---------------------------------------------------------------------

  /** An entry of ctx.skips or ctx.todos: a symbol's name and its Python
      type. */
  datatype Element = Element(name: string, pyType: string)

  /** The effect of the older genFunc on one symbol: a hidden name is
      ignored, a missing signature is skipped, anything else is declared
      under the older genName with its doc and linkname. The depth only
      defers the unfolding for the verifier (OldFuncEffectUnfold). */
  function OldFuncEffect(sym: Symbol, depth: nat := 3): (e: FuncEffect)
    ensures e.Declares? ==> e.decl.FuncDecl? && |e.decl.comments| >= 1
  {
    if depth > 0 then OldFuncEffect(sym, depth - 1) else
    if IsHidden(sym.name) then Hidden
    else if sym.sig == "" then NoSig
    else match OldGenParamsSpec(sym.sig)
      case Ok((ps, variadic)) =>
        var goName := OldGoName(sym.name, -1);
        Declares(FuncDecl(goName, ps, variadic, Commented(sym.doc, Linkname(goName, sym.name))))
      case _ => Panics
  }

  lemma OldFuncEffectUnfold(sym: Symbol, depth: nat := 3)
    ensures OldFuncEffect(sym, depth) == OldFuncEffect(sym, 0)
  {
    if depth > 0 {
      OldFuncEffectUnfold(sym, depth - 1);
    }
  }

  /** genFunc ignores hidden names, skips symbols without a signature,
      panics only where the parser does, and otherwise declares a function
      named as the generator's genName would name it, whose last comment
      links it to the Python name. */
  lemma OldFuncEffectShape(sym: Symbol)
    ensures OldFuncEffect(sym).Hidden? <==> IsHidden(sym.name)
    ensures OldFuncEffect(sym).NoSig? <==> !IsHidden(sym.name) && sym.sig == ""
    ensures OldFuncEffect(sym).Panics? <==> !IsHidden(sym.name) && sym.sig != "" && ParseSpec(sym.sig).Panic?
    ensures OldFuncEffect(sym).Declares? ==>
      var d := OldFuncEffect(sym).decl;
      d.goName == GoName(sym.name, -1)
      && d.comments == Commented(sym.doc, Linkname(d.goName, sym.name))
      && (d.variadic <==> d.params != [] && d.params[|d.params| - 1] == VaList)
  {
    OldFuncEffectUnfold(sym);
    OldGenParamsEnds(sym.sig);
    if !IsHidden(sym.name) && sym.sig != "" && ParseSpec(sym.sig).Ok? {
      var args := ParseSpec(sym.sig).value;
      if |args| > 0 {
        OldParamsShape(args, 0);
      }
      VisibleCore(sym.name);
    }
  }

  /** What genFunc adds to ctx.skips and to the package for one symbol. */
  function SkipOfFunc(sym: Symbol): seq<Element> {
    if OldFuncEffect(sym).NoSig? then [Element(sym.name, sym.typ)] else []
  }

  function DeclOfFunc(sym: Symbol): seq<Decl> {
    if OldFuncEffect(sym).Declares? then [OldFuncEffect(sym).decl] else []
  }

  // ---------------------------------------------------------------------
  // genMod
  // ---------------------------------------------------------------------

  /** funcMap of genMod: each function-typed symbol under its name, a
      later one replacing an earlier one of the same name. */
  function FuncMapOf(items: seq<Symbol>): map<string, Symbol>
    decreases |items|
  {
    if items == [] then map[]
    else
      var m := FuncMapOf(items[..|items| - 1]);
      var s := items[|items| - 1];
      if IsFuncType(s.typ) then m[s.name := s] else m
  }

  /** What genMod appends to ctx.todos: every other symbol, in input
      order. */
  function TodosOf(items: seq<Symbol>): seq<Element>
    decreases |items|
  {
    if items == [] then []
    else
      var s := items[|items| - 1];
      TodosOf(items[..|items| - 1]) + (if IsFuncType(s.typ) then [] else [Element(s.name, s.typ)])
  }

  /** What genFunc adds to ctx.skips and to the package for the entries of
      fm visited in the given order. */
  function SkipsFor(order: seq<string>, fm: map<string, Symbol>): seq<Element>
    requires forall i :: 0 <= i < |order| ==> order[i] in fm
    decreases |order|
  {
    if order == [] then [] else SkipsFor(order[..|order| - 1], fm) + SkipOfFunc(fm[order[|order| - 1]])
  }

  function DeclsFor(order: seq<string>, fm: map<string, Symbol>): seq<Decl>
    requires forall i :: 0 <= i < |order| ==> order[i] in fm
    decreases |order|
  {
    if order == [] then [] else DeclsFor(order[..|order| - 1], fm) + DeclOfFunc(fm[order[|order| - 1]])
  }

  /** The last function-typed symbol of a name is the one kept. */
  lemma {:induction false} FuncMapLastWins(items: seq<Symbol>, j: nat)
    requires j < |items| && IsFuncType(items[j].typ)
    requires forall i :: j < i < |items| ==> !(IsFuncType(items[i].typ) && items[i].name == items[j].name)
    ensures items[j].name in FuncMapOf(items) && FuncMapOf(items)[items[j].name] == items[j]
    decreases |items|
  {
    var init := items[..|items| - 1];
    if j < |items| - 1 {
      assert forall i :: j < i < |init| ==> init[i] == items[i];
      FuncMapLastWins(init, j);
      assert init[j] == items[j];
    }
  }

  /** Every function-typed symbol's name is a key, and each key holds a
      function-typed symbol of the list with that name. */
  lemma {:induction false} FuncMapEntries(items: seq<Symbol>)
    ensures forall i :: 0 <= i < |items| && IsFuncType(items[i].typ) ==> items[i].name in FuncMapOf(items)
    ensures forall k :: k in FuncMapOf(items) ==>
      FuncMapOf(items)[k].name == k && IsFuncType(FuncMapOf(items)[k].typ) && FuncMapOf(items)[k] in items
    decreases |items|
  {
    if items != [] {
      var init := items[..|items| - 1];
      FuncMapEntries(init);
      assert forall i :: 0 <= i < |init| ==> init[i] == items[i];
      assert forall s :: s in init ==> s in items;
    }
  }

  /** ctx.todos gets every symbol that is not function-typed, and only
      those. */
  lemma {:induction false} TodosOfFilter(items: seq<Symbol>)
    ensures forall i :: 0 <= i < |items| && !IsFuncType(items[i].typ) ==> Element(items[i].name, items[i].typ) in TodosOf(items)
    ensures forall e :: e in TodosOf(items) ==> !IsFuncType(e.pyType)
    decreases |items|
  {
    if items != [] {
      var init := items[..|items| - 1];
      TodosOfFilter(init);
      assert forall i :: 0 <= i < |init| ==> init[i] == items[i];
    }
  }

  // ---------------------------------------------------------------------
  // The context of genMod and genFunc
  // ---------------------------------------------------------------------

  /** No name twice. */
  predicate Distinct(ns: seq<string>) {
    forall i, j :: 0 <= i < j < |ns| ==> ns[i] != ns[j]
  }

  class Context {
    /** Functions without a signature. */
    var skips: seq<Element>
    /** Symbols that are not functions, left for later. */
    var todos: seq<Element>
    /** Declarations added to the Go package, in order. */
    var decls: seq<Decl>

    constructor ()
      ensures skips == [] && todos == [] && decls == []
    {
      skips := [];
      todos := [];
      decls := [];
    }

    /** genFunc. The signature must not be one on which the parser
        panics. */
    method GenFunc(sym: Symbol)
      requires !OldFuncEffect(sym).Panics?
      modifies this
      ensures skips == old(skips) + SkipOfFunc(sym)
      ensures decls == old(decls) + DeclOfFunc(sym)
      ensures todos == old(todos)
    {
      OldFuncEffectUnfold(sym);
      var name := sym.name;
      if |name| == 0 || name[0] == '_' {
        return;
      }
      if sym.sig == "" {
        skips := skips + [Element(name, sym.typ)];
        return;
      }
      var r := OldGenParams(sym.sig);
      var ps, variadic := r.value.0, r.value.1;
      var goName := OldGenName(name, -1);
      var docList := GenDoc(sym.doc);
      if |docList| > 0 {
        docList := docList + ["//"];
      }
      docList := docList + [Linkname(goName, name)];
      decls := decls + [FuncDecl(goName, ps, variadic, docList)];
    }

    /** genMod: the symbols that are not functions go to todos in input
        order; each function name is generated once, from the last symbol
        of that name, in an order the model leaves open (Go's map order):
        `order` is that order, each name of funcMap once. */
    method GenMod(items: seq<Symbol>) returns (ghost order: seq<string>)
      requires forall k :: k in FuncMapOf(items) ==> !OldFuncEffect(FuncMapOf(items)[k]).Panics?
      modifies this
      ensures todos == old(todos) + TodosOf(items)
      ensures Distinct(order) && (forall i :: 0 <= i < |order| ==> order[i] in FuncMapOf(items))
      ensures forall k :: k in FuncMapOf(items) ==> k in order
      ensures skips == old(skips) + SkipsFor(order, FuncMapOf(items))
      ensures decls == old(decls) + DeclsFor(order, FuncMapOf(items))
    {
      var funcMap := SortItems(items);
      order := GenFuncs(funcMap);
    }

    /** The first loop of genMod: function-typed symbols into funcMap, the
        others onto todos. */
    method SortItems(items: seq<Symbol>) returns (funcMap: map<string, Symbol>)
      modifies this
      ensures funcMap == FuncMapOf(items)
      ensures todos == old(todos) + TodosOf(items)
      ensures skips == old(skips) && decls == old(decls)
    {
      funcMap := map[];
      var i := 0;
      while i < |items|
        invariant 0 <= i <= |items|
        invariant funcMap == FuncMapOf(items[..i])
        invariant todos == old(todos) + TodosOf(items[..i])
        invariant skips == old(skips) && decls == old(decls)
      {
        var sym := items[i];
        assert items[..i + 1][..i] == items[..i];
        var isFunc := InFuncSet(sym.typ);
        if isFunc {
          funcMap := funcMap[sym.name := sym];
        } else {
          todos := todos + [Element(sym.name, sym.typ)];
        }
        i := i + 1;
      }
      assert items[..i] == items;
    }

    /** The second loop of genMod: genFunc on every entry of funcMap, in
        the order `order`. */
    method GenFuncs(funcMap: map<string, Symbol>) returns (ghost order: seq<string>)
      requires forall k :: k in funcMap ==> !OldFuncEffect(funcMap[k]).Panics?
      modifies this
      ensures Distinct(order) && (forall i :: 0 <= i < |order| ==> order[i] in funcMap)
      ensures forall k :: k in funcMap ==> k in order
      ensures skips == old(skips) + SkipsFor(order, funcMap)
      ensures decls == old(decls) + DeclsFor(order, funcMap)
      ensures todos == old(todos)
    {
      var keys := funcMap.Keys;
      order := [];
      while keys != {}
        invariant Visiting(order, keys, funcMap)
        invariant skips == old(skips) + SkipsFor(order, funcMap)
        invariant decls == old(decls) + DeclsFor(order, funcMap)
        invariant todos == old(todos)
        decreases |keys|
      {
        var k :| k in keys;
        VisitStep(order, keys, funcMap, k);
        ForAppend(order, k, funcMap);
        GenFunc(funcMap[k]);
        ConcatAssoc(old(skips), SkipsFor(order, funcMap), SkipOfFunc(funcMap[k]));
        ConcatAssoc(old(decls), DeclsFor(order, funcMap), DeclOfFunc(funcMap[k]));
        keys := keys - {k};
        order := order + [k];
      }
      VisitDone(order, funcMap);
    }
  }

  /** The loop over funcMap so far: `order` holds the names visited, each
      once, `keys` those still to visit. */
  predicate Visiting(order: seq<string>, keys: set<string>, fm: map<string, Symbol>) {
    keys <= fm.Keys
    && Distinct(order) && (forall j :: 0 <= j < |order| ==> order[j] in fm && order[j] !in keys)
    && (forall k :: k in fm ==> k in keys || k in order)
  }

  lemma VisitStep(order: seq<string>, keys: set<string>, fm: map<string, Symbol>, k: string)
    requires Visiting(order, keys, fm) && k in keys
    ensures Visiting(order + [k], keys - {k}, fm)
  {
    var o := order + [k];
    assert forall j :: 0 <= j < |order| ==> o[j] == order[j];
  }

  lemma VisitDone(order: seq<string>, fm: map<string, Symbol>)
    requires Visiting(order, {}, fm)
    ensures Distinct(order) && (forall i :: 0 <= i < |order| ==> order[i] in fm)
    ensures forall k :: k in fm ==> k in order
  {
  }

  lemma ForAppend(order: seq<string>, k: string, fm: map<string, Symbol>)
    requires (forall i :: 0 <= i < |order| ==> order[i] in fm) && k in fm
    ensures SkipsFor(order + [k], fm) == SkipsFor(order, fm) + SkipOfFunc(fm[k])
    ensures DeclsFor(order + [k], fm) == DeclsFor(order, fm) + DeclOfFunc(fm[k])
  {
    assert (order + [k])[..|order|] == order;
  }

  /** Whatever the order, every visited function without a signature is
      in the skip list and every declared one is in the package. */
  lemma {:induction false} ForContents(order: seq<string>, fm: map<string, Symbol>)
    requires forall i :: 0 <= i < |order| ==> order[i] in fm
    ensures forall i :: 0 <= i < |order| && OldFuncEffect(fm[order[i]]).NoSig? ==>
      Element(fm[order[i]].name, fm[order[i]].typ) in SkipsFor(order, fm)
    ensures forall i :: 0 <= i < |order| && OldFuncEffect(fm[order[i]]).Declares? ==>
      OldFuncEffect(fm[order[i]]).decl in DeclsFor(order, fm)
    ensures |SkipsFor(order, fm)| <= |order| && |DeclsFor(order, fm)| <= |order|
    decreases |order|
  {
    if order != [] {
      var init := order[..|order| - 1];
      ForContents(init, fm);
      assert forall i :: 0 <= i < |init| ==> init[i] == order[i];
    }
  }
}
