// The Go parameter list the binding generator in tool/pygen/pygen.go
// derives from a Python signature (genParams): one *py.Object parameter per
// named Python argument, a list_<n> parameter per parenthesised argument
// group, and a trailing variadic parameter for *args.
module PyGenParams {
  import opened GoStrings
  import opened PySig
  import opened PyGenNames

  /** The name of the variadic parameter that stands for *args. */
  const NameValist: string := "__llgo_va_list"

  /** A generated Go parameter: a *py.Object named `name`, or the variadic
      `__llgo_va_list []any`. */
  datatype Param = Obj(name: string) | VaList

  /** A Go keyword used as a Python argument name gets a trailing '_'. */
  function Escaped(name: string): (r: string)
    ensures !IsGoKeyword(r)
    ensures IsGoKeyword(name) ==> r == name + "_"
    ensures !IsGoKeyword(name) ==> r == name
  {
    UnderscoredNotKeyword(name);
    if IsGoKeyword(name) then name + "_" else name
  }

  /** The name genParams skips without producing a parameter. */
  predicate IsSkipped(name: string) {
    name == "/" || name == "" || name == ","
  }

  /** What genParams does with one (trimmed) argument name: skip it,
      append a *py.Object parameter named goName and go on with next as the
      group counter, or end the list with the given tail. */
  datatype Step = Skip | Named(goName: string, next: nat) | End(tail: seq<Param>, variadic: bool)

  function ArgStep(name: string, listNum: nat): (s: Step)
    ensures s.Skip? <==> IsSkipped(name)
    ensures s.End? ==> (s.tail == [] && !s.variadic) || (s.tail == [VaList] && s.variadic)
    ensures s.Named? ==> !IsGoKeyword(s.goName) && s.goName != NameValist
    ensures s.Named? ==> s.next == listNum || s.next == listNum + 1
  {
    if IsSkipped(name) then Skip
    else
      var kw := Escaped(name);
      var grouped := kw[0] == '(';
      var n := if grouped then "list_" + Itoa(listNum) else kw;
      var next := if grouped then listNum + 1 else listNum;
      if n == "*" || n == "\\*" then End([], false)
      else if HasPrefix(n, "*") then
        assert n[..1] == "*";
        if n[1] != '*' then End([VaList], true) else End([], false)
      else
        GoNameShape(n, 0);
        GoNameNotValist(n, 0);
        Named(GoName(n, 0), next)
  }

  /** The star names: "*" and "\\*" end the list without a tail, "*x"
      ends it with the variadic parameter and "**x" ends it without one. */
  lemma StarSteps(name: string, listNum: nat)
    requires name != "" && (name[0] == '*' || name == "\\*")
    ensures name[0] == '*' && |name| >= 2 && name[1] != '*' ==> ArgStep(name, listNum) == End([VaList], true)
    ensures name == "*" || name == "\\*" || (name[0] == '*' && |name| >= 2 && name[1] == '*') ==>
      ArgStep(name, listNum) == End([], false)
  {
    if IsGoKeyword(name) {
      KeywordsAreLowerWords(name);
    }
    assert name[..1] == [name[0]];
  }

  /** The loop of genParams over the arguments from position i on, with
      listNum groups already numbered: the parameters it appends and
      whether the list ends with the variadic parameter. */
  function ParamsOf(args: seq<Arg>, listNum: nat): (seq<Param>, bool)
    decreases |args|
  {
    if args == [] then ([], false)
    else
      match ArgStep(TrimSpace(args[0].name), listNum)
      case Skip => ParamsOf(args[1..], listNum)
      case End(tail, variadic) => (tail, variadic)
      case Named(goName, next) =>
        var rest := ParamsOf(args[1..], next);
        ([Obj(goName)] + rest.0, rest.1)
  }

  /** genParams: the parameters of a signature, or the panic of its
      parser. */
  function GenParamsSpec(sig: string): Outcome<(seq<Param>, bool)> {
    match ParseSpec(sig)
    case Ok(args) => Ok(ParamsOf(args, 0))
    case Panic => Panic
    case Diverge => Diverge
  }

  method GenParams(sig: string) returns (r: Outcome<(seq<Param>, bool)>)
    ensures r == GenParamsSpec(sig) && !r.Diverge?
  {
    var parsed := Parse(sig);
    if !parsed.Ok? {
      return Panic;
    }
    var args := parsed.value;
    if |args| == 0 {
      return Ok(([], false));
    }
    var list, variadic := ParamsLoop(args);
    return Ok((list, variadic));
  }

  /** The loop of genParams over the parsed arguments. */
  method ParamsLoop(args: seq<Arg>) returns (list: seq<Param>, variadic: bool)
    ensures (list, variadic) == ParamsOf(args, 0)
  {
    list := [];
    var listNum: nat := 0;
    var i := 0;
    assert args[0..] == args;
    while i < |args|
      invariant 0 <= i <= |args|
      invariant ParamsOf(args, 0).0 == list + ParamsOf(args[i..], listNum).0
      invariant ParamsOf(args, 0).1 == ParamsOf(args[i..], listNum).1
    {
      ParamsLoopStep(args, i, listNum, list);
      var step := GenArg(TrimSpace(args[i].name), listNum);
      match step {
        case Skip =>
        case End(tail, v) =>
          return list + tail, v;
        case Named(goName, next) =>
          list := list + [Obj(goName)];
          listNum := next;
      }
      i := i + 1;
    }
    assert args[i..] == [];
    assert list + [] == list;
    return list, false;
  }

  /** One round of the loop of genParams keeps its invariant. */
  lemma ParamsLoopStep(args: seq<Arg>, i: nat, listNum: nat, list: seq<Param>)
    requires i < |args|
    requires ParamsOf(args, 0).0 == list + ParamsOf(args[i..], listNum).0
    requires ParamsOf(args, 0).1 == ParamsOf(args[i..], listNum).1
    ensures var s := ArgStep(TrimSpace(args[i].name), listNum);
      && (s.Skip? ==>
            ParamsOf(args, 0).0 == list + ParamsOf(args[i + 1..], listNum).0
            && ParamsOf(args, 0).1 == ParamsOf(args[i + 1..], listNum).1)
      && (s.End? ==> ParamsOf(args, 0) == (list + s.tail, s.variadic))
      && (s.Named? ==>
            ParamsOf(args, 0).0 == (list + [Obj(s.goName)]) + ParamsOf(args[i + 1..], s.next).0
            && ParamsOf(args, 0).1 == ParamsOf(args[i + 1..], s.next).1)
  {
    ParamsOfStep(args, i, listNum);
    var s := ArgStep(TrimSpace(args[i].name), listNum);
    if s.Named? {
      ConcatAssoc(list, [Obj(s.goName)], ParamsOf(args[i + 1..], s.next).0);
    }
  }

  lemma ConcatAssoc<T>(a: seq<T>, b: seq<T>, c: seq<T>)
    ensures a + (b + c) == (a + b) + c
  {
  }

  /** One round of the loop of genParams, in terms of ParamsOf. */
  lemma ParamsOfStep(args: seq<Arg>, i: nat, listNum: nat)
    requires i < |args|
    ensures var s := ArgStep(TrimSpace(args[i].name), listNum);
      && (s.Skip? ==> ParamsOf(args[i..], listNum) == ParamsOf(args[i + 1..], listNum))
      && (s.End? ==> ParamsOf(args[i..], listNum) == (s.tail, s.variadic))
      && (s.Named? ==>
            ParamsOf(args[i..], listNum).0 == [Obj(s.goName)] + ParamsOf(args[i + 1..], s.next).0
            && ParamsOf(args[i..], listNum).1 == ParamsOf(args[i + 1..], s.next).1)
  {
    assert args[i..][0] == args[i] && args[i..][1..] == args[i + 1..];
  }

  /** The body of the loop of genParams for one argument name. */
  method GenArg(name: string, listNum: nat) returns (s: Step)
    ensures s == ArgStep(name, listNum)
  {
    if IsSkipped(name) {
      return Skip;
    }
    var n := name;
    var next := listNum;
    if IsGoKeyword(n) {
      n := n + "_";
    }
    if n[0] == '(' {
      n := "list_" + Itoa(listNum);
      next := listNum + 1;
    }
    if n == "*" || n == "\\*" {
      return End([], false);
    }
    if HasPrefix(n, "*") {
      assert n[..1] == "*";
      if n[1] != '*' {
        return End([VaList], true);
      }
      return End([], false);
    }
    var goName := GenName(n, 0);
    return Named(goName, next);
  }

  // ---------------------------------------------------------------------
  // What the parameter list looks like
  // ---------------------------------------------------------------------

  /** genParams never loops forever: it fails only where Parse panics. */
  lemma GenParamsEnds(sig: string)
    ensures !GenParamsSpec(sig).Diverge?
    ensures GenParamsSpec(sig).Panic? <==> ParseSpec(sig).Panic?
  {
    SpecEnds(sig);
  }

  /** At most one parameter per argument; the result is variadic exactly
      when the list ends with the variadic parameter, which appears
      nowhere else. */
  lemma {:induction false} ParamsShape(args: seq<Arg>, listNum: nat)
    ensures var (ps, variadic) := ParamsOf(args, listNum);
      |ps| <= |args|
      && (variadic <==> ps != [] && ps[|ps| - 1] == VaList)
      && (forall j :: 0 <= j < |ps| - 1 ==> ps[j].Obj?)
    decreases |args|
  {
    if args != [] {
      match ArgStep(TrimSpace(args[0].name), listNum)
      case Skip => ParamsShape(args[1..], listNum);
      case End(_, _) =>
      case Named(_, next) => ParamsShape(args[1..], next);
    }
  }

  /** No genName result is the name of the variadic parameter. */
  lemma GoNameNotValist(name: string, idxDontTitle: int)
    ensures GoName(name, idxDontTitle) != NameValist
  {
    GoNameShape(name, idxDontTitle);
    NotValist(GoName(name, idxDontTitle), Core(name, idxDontTitle), name[TrailStart(name)..]);
  }

  /** An underscore-free core followed by '_'s is not the name of the
      variadic parameter, which has a letter after its leading "__". */
  lemma NotValist(r: string, c: string, t: string)
    requires '_' !in c && forall i :: 0 <= i < |t| ==> t[i] == '_'
    requires r == c + t || r == c + t + "_"
    ensures r != NameValist
  {
    if c != [] {
      assert r[0] == c[0];
    } else if |t| > 2 {
      assert r[2] == t[2];
    }
  }

  /** Every *py.Object parameter has a name that is no Go keyword and is
      not the name of the variadic parameter. */
  predicate ObjNamesValid(ps: seq<Param>) {
    forall j :: 0 <= j < |ps| && ps[j].Obj? ==> !IsGoKeyword(ps[j].name) && ps[j].name != NameValist
  }

  lemma ObjNamesCons(p: Param, ps: seq<Param>)
    requires p.Obj? ==> !IsGoKeyword(p.name) && p.name != NameValist
    requires ObjNamesValid(ps)
    ensures ObjNamesValid([p] + ps)
  {
    assert forall j :: 1 <= j < |[p] + ps| ==> ([p] + ps)[j] == ps[j - 1];
  }

  /** genParams names every *py.Object parameter validly. */
  lemma {:induction false} ParamNames(args: seq<Arg>, listNum: nat)
    ensures ObjNamesValid(ParamsOf(args, listNum).0)
    decreases |args|
  {
    if args != [] {
      var s := ArgStep(TrimSpace(args[0].name), listNum);
      if s.Skip? {
        ParamNames(args[1..], listNum);
      } else if s.Named? {
        ParamNames(args[1..], s.next);
        ObjNamesCons(Obj(s.goName), ParamsOf(args[1..], s.next).0);
      }
    }
  }

  /** A plain argument name: not skipped, not a group and not starred. */
  predicate IsPlain(name: string) {
    !IsSkipped(name) && name[0] != '(' && name[0] != '*' && name != "\\*"
  }

  /** A plain argument becomes one parameter named by genName from the
      escaped argument name. */
  lemma PlainStep(name: string, listNum: nat)
    requires IsPlain(name)
    ensures ArgStep(name, listNum) == Named(GoName(Escaped(name), 0), listNum)
  {
    var kw := Escaped(name);
    assert kw[0] == name[0];
    assert kw[..1] == [kw[0]];
  }

  /** ps holds, for each argument, the parameter genName makes of its
      escaped name. */
  predicate NamedEach(ps: seq<Param>, args: seq<Arg>) {
    |ps| == |args| && forall i :: 0 <= i < |ps| ==> ps[i] == Obj(GoName(Escaped(args[i].name), 0))
  }

  lemma NamedEachCons(p: Param, ps: seq<Param>, args: seq<Arg>)
    requires args != [] && p == Obj(GoName(Escaped(args[0].name), 0))
    requires NamedEach(ps, args[1..])
    ensures NamedEach([p] + ps, args)
  {
    MapCons((a: Arg) => Obj(GoName(Escaped(a.name), 0)), p, ps, args);
  }

  /** Prepending the image of the head to the images of the tail. */
  lemma MapCons<A, B>(f: A -> B, p: B, ps: seq<B>, xs: seq<A>)
    requires xs != [] && p == f(xs[0])
    requires |ps| == |xs| - 1 && forall i :: 0 <= i < |ps| ==> ps[i] == f(xs[1..][i])
    ensures |[p] + ps| == |xs| && forall i :: 0 <= i < |xs| ==> ([p] + ps)[i] == f(xs[i])
  {
    forall i | 1 <= i < |xs|
      ensures ([p] + ps)[i] == f(xs[i])
    {
      assert ([p] + ps)[i] == ps[i - 1] && xs[i] == xs[1..][i - 1];
    }
  }

  /** With plain (already trimmed, as Parse returns them) arguments only,
      genParams yields exactly one parameter per argument, named by genName
      from the escaped argument name, and no variadic parameter. */
  lemma {:induction false} PlainParams(args: seq<Arg>, listNum: nat)
    requires forall i :: 0 <= i < |args| ==> Trimmed(args[i].name) && IsPlain(args[i].name)
    ensures NamedEach(ParamsOf(args, listNum).0, args) && !ParamsOf(args, listNum).1
    decreases |args|
  {
    if args != [] {
      TrimmedUnchanged(args[0].name);
      PlainStep(args[0].name, listNum);
      PlainParams(args[1..], listNum);
      NamedEachCons(Obj(GoName(Escaped(args[0].name), 0)), ParamsOf(args[1..], listNum).0, args);
    }
  }

  /** The decimal digits of a number carry no '_'. */
  lemma DigitsNoUnderscore(k: nat)
    ensures '_' !in Itoa(k)
  {
    var d := Itoa(k);
    assert forall i :: 0 <= i < |d| ==> d[i] != '_';
  }

  /** A parenthesised argument group is turned into list_<n>, and genName
      makes that list<n>. */
  lemma ListParamName(k: nat)
    ensures GoName("list_" + Itoa(k), 0) == "list" + Itoa(k)
  {
    var d := Itoa(k);
    var name := "list_" + d;
    var r := "list" + d;
    ListCore(k);
    assert Core(name, 0) + name[TrailStart(name)..] == r by {
      assert name[|name|..] == [];
    }
    assert !IsGoKeyword(r) by {
      assert r[|r| - 1] == d[|d| - 1] && !IsLower(r[|r| - 1]);
      if IsGoKeyword(r) {
        KeywordsAreLowerWords(r);
      }
    }
  }

  /** The core genName makes of list_<digits>. */
  lemma ListCore(k: nat)
    ensures TrailStart("list_" + Itoa(k)) == |"list_" + Itoa(k)|
    ensures Core("list_" + Itoa(k), 0) == "list" + Itoa(k)
  {
    var d := Itoa(k);
    var name := "list_" + d;
    assert name[|name| - 1] == d[|d| - 1] != '_';
    TrailStartUnique(name, |name|);
    assert name[..|name|] == name;
    DigitsNoUnderscore(k);
    SplitAtSep("list", d);
    assert "list" + "_" + d == name;
    assert Title(d) == d;
    assert TitleParts(["list", d], 0) == ["list", d];
    assert Join(["list", d], "") == "list" + d;
  }

  /** Split of a word, the separator and a separator-free tail. */
  lemma {:induction false} SplitAtSep(w: string, d: string)
    requires '_' !in w && '_' !in d
    ensures Split(w + "_" + d, '_') == [w, d]
    decreases |w|
  {
    if w == [] {
      assert w + "_" + d == ['_'] + d;
      assert (['_'] + d)[1..] == d;
    } else {
      SplitAtSep(w[1..], d);
      assert (w + "_" + d)[1..] == w[1..] + "_" + d;
      assert [w[0]] + w[1..] == w;
    }
  }

  /** The n-th parenthesised group (counting from listNum) becomes the
      parameter list<n>, and the groups after it are numbered on. */
  lemma GroupParam(args: seq<Arg>, listNum: nat)
    requires args != [] && !IsSkipped(TrimSpace(args[0].name)) && TrimSpace(args[0].name)[0] == '('
    ensures var (ps, variadic) := ParamsOf(args, listNum);
      ps != [] && ps[0] == Obj("list" + Itoa(listNum))
      && (ps[1..], variadic) == ParamsOf(args[1..], listNum + 1)
  {
    GroupStep(TrimSpace(args[0].name), listNum);
  }

  /** The step of genParams for a parenthesised argument group. */
  lemma GroupStep(name: string, listNum: nat)
    requires !IsSkipped(name) && name[0] == '('
    ensures ArgStep(name, listNum) == Named("list" + Itoa(listNum), listNum + 1)
  {
    assert Escaped(name) == name;
    var n := "list_" + Itoa(listNum);
    assert n[0] == 'l' && n[..1] == "l";
    assert n != "*" && n != "\\*" && !HasPrefix(n, "*");
    ListParamName(listNum);
  }

  /** genName keeps a lower-case word without '_' unchanged when told not
      to title its first part. */
  lemma SelfName()
    ensures GoName("self", 0) == "self"
  {
    TrailStartUnique("self", 4);
    assert "self"[..4] == "self" && "self"[4..] == [];
    assert Split("self", '_') == ["self"];
    assert TitleParts(["self"], 0) == ["self"];
    assert Core("self", 0) == "self";
    assert "self" + [] == "self";
    assert !IsGoKeyword("self");
  }

  /** A trailing `*args` after `self` gives self and the variadic
      parameter; a `**kwargs` after it is not reached. */
  lemma SelfArgsExample()
    ensures ParamsOf([Arg("self", "", "", false), Arg("*args", "", "", false), Arg("**kwargs", "", "", false)], 0)
      == ([Obj("self"), VaList], true)
  {
    var args := [Arg("self", "", "", false), Arg("*args", "", "", false), Arg("**kwargs", "", "", false)];
    SelfStep();
    ArgsTail();
    assert args[1..] == [Arg("*args", "", "", false), Arg("**kwargs", "", "", false)];
    assert args[0].name == "self";
    assert ParamsOf(args[1..], 0) == ([VaList], true);
    assert [Obj("self")] + [VaList] == [Obj("self"), VaList];
  }

  lemma SelfStep()
    ensures ArgStep(TrimSpace("self"), 0) == Named("self", 0)
  {
    TrimmedUnchanged("self");
    PlainStep("self", 0);
    SelfName();
    assert !IsGoKeyword("self");
  }

  lemma ArgsTail()
    ensures ParamsOf([Arg("*args", "", "", false), Arg("**kwargs", "", "", false)], 0) == ([VaList], true)
  {
    TrimmedUnchanged("*args");
    assert !IsGoKeyword("*args");
    assert HasPrefix("*args", "*");
    assert ArgStep("*args", 0) == End([VaList], true);
  }
}
