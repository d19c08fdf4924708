// What the binding generator in tool/pygen emits for a module: the
// declarations genFunc, genVars and genClasses add, with gogen's objects
// replaced by plain values (a parameter list, a struct's embedded parent,
// comment texts).
module PyGenSpec {
  import opened GoStrings
  import opened PySig
  import opened PyGenNames
  import opened PyGenParams

  datatype Option<T> = None | Some(value: T)

  /** A symbol as pydump describes it (tool/pygen/symbol.go). */
  datatype Symbol = Symbol(name: string, typ: string, doc: string, sig: string)
  datatype Base = Base(name: string, modName: string)
  datatype Property = Property(name: string, getter: string, setter: string)
  datatype Class = Class(
    name: string, doc: string, bases: seq<Base>, properties: seq<Property>,
    initMethod: Option<Symbol>,
    instanceMethods: seq<Symbol>, classMethods: seq<Symbol>, staticMethods: seq<Symbol>)

  /** What a generated struct embeds: py.Object, or the struct of the named
      class of the same module. */
  datatype Parent = PyObject | Embeds(base: string)

  /** A declaration added to the Go package, with its comment lines. */
  datatype Decl =
    | FuncDecl(goName: string, params: seq<Param>, variadic: bool, comments: seq<string>)
    | VarDecl(goName: string, comments: seq<string>)
    | StructDecl(goName: string, parent: Parent)
    | CtorDecl(goName: string, comments: seq<string>)
    | MethodDecl(recv: string, goName: string, hasRet: bool, comments: seq<string>)

  // ---------------------------------------------------------------------
  // genFunc
  // ---------------------------------------------------------------------

  /** Names genFunc and genVars ignore: empty, or starting with '_'. */
  predicate IsHidden(name: string) {
    |name| == 0 || name[0] == '_'
  }

  /** genLinkname / the linkname of genVar. The depth, like that of
      GoIdent, only defers the unfolding for the verifier (LinknameText). */
  function Linkname(goName: string, pyName: string, depth: nat := 3): string {
    if depth > 0 then Linkname(goName, pyName, depth - 1) else
    "//go:linkname " + goName + " py." + pyName
  }

  /** The linkname directive names the Go declaration and the Python
      symbol it is bound to. */
  lemma LinknameText(goName: string, pyName: string, depth: nat := 3)
    ensures Linkname(goName, pyName, depth) == "//go:linkname " + goName + " py." + pyName
  {
    if depth > 0 {
      LinknameText(goName, pyName, depth - 1);
    }
  }

  /** The doc comment lines, a bare "//" when there are any, then the
      directive line. */
  function Commented(doc: string, directive: string): (cs: seq<string>)
    ensures |cs| == (if doc == "" then 1 else |DocComments(doc)| + 2)
    ensures cs[|cs| - 1] == directive
  {
    var docs := DocComments(doc);
    (if |docs| > 0 then docs + ["//"] else docs) + [directive]
  }

  /** Reading the doc string back from the comments of a declaration. */
  lemma CommentedRoundTrip(doc: string, directive: string)
    ensures var cs := Commented(doc, directive);
      && (doc == "" ==> cs == [directive])
      && (doc != "" ==> cs[|cs| - 2] == "//" && Join(Uncommented(cs[..|cs| - 2]), "\n") == doc)
  {
    var docs := DocComments(doc);
    var cs := Commented(doc, directive);
    DocCommentsRoundTrip(doc);
    if doc != "" {
      assert cs == docs + ["//"] + [directive];
      assert cs[..|cs| - 2] == docs;
    }
  }

  /** The effect of genFunc on one symbol. */
  datatype FuncEffect = Hidden | NoSig | Declares(decl: Decl) | Panics

  function FuncEffectOf(sym: Symbol, depth: nat := 3): (e: FuncEffect)
    ensures e.Declares? ==> e.decl.FuncDecl? && |e.decl.comments| >= 1
  {
    if depth > 0 then FuncEffectOf(sym, depth - 1) else
    if IsHidden(sym.name) then Hidden
    else if sym.sig == "" then NoSig
    else match GenParamsSpec(sym.sig)
      case Ok((ps, variadic)) =>
        var goName := GoIdent(sym.name);
        Declares(FuncDecl(goName, ps, variadic, Commented(sym.doc, Linkname(goName, sym.name))))
      case _ => Panics
  }

  lemma FuncEffectUnfold(sym: Symbol, depth: nat := 3)
    ensures FuncEffectOf(sym, depth) == FuncEffectOf(sym, 0)
  {
    if depth > 0 {
      FuncEffectUnfold(sym, depth - 1);
    }
  }

  /** genFunc panics only where the signature parser does; a declared
      function is named by genName and links back to the Python name. */
  lemma FuncEffectShape(sym: Symbol)
    ensures FuncEffectOf(sym).Panics? <==> !IsHidden(sym.name) && sym.sig != "" && ParseSpec(sym.sig).Panic?
    ensures FuncEffectOf(sym).Declares? ==>
      var d := FuncEffectOf(sym).decl;
      d.FuncDecl? && d.goName == GoName(sym.name, -1) && !IsGoKeyword(d.goName)
      && d.comments[|d.comments| - 1] == Linkname(d.goName, sym.name)
      && (d.variadic <==> d.params != [] && d.params[|d.params| - 1] == VaList)
  {
    FuncEffectUnfold(sym);
    GenParamsEnds(sym.sig);
    if !IsHidden(sym.name) && sym.sig != "" && ParseSpec(sym.sig).Ok? {
      ParamsShape(ParseSpec(sym.sig).value, 0);
      GoNameShape(sym.name, -1);
      GoIdentIsGoName(sym.name);
    }
  }

  /** What genFunc adds to ctx.skips and to the package for one symbol. */
  function SkipsOf(sym: Symbol): seq<Symbol> {
    if FuncEffectOf(sym).NoSig? then [sym] else []
  }

  function DeclsOf(sym: Symbol): seq<Decl> {
    if FuncEffectOf(sym).Declares? then [FuncEffectOf(sym).decl] else []
  }

  // ---------------------------------------------------------------------
  // genMod: each function name once, the first occurrence kept
  // ---------------------------------------------------------------------

  /** The functions genMod hands to genFunc: those whose name is not in
      seen and not taken by an earlier function, in input order. */
  function FirstByName(fs: seq<Symbol>, seen: set<string>): seq<Symbol>
    decreases |fs|
  {
    if fs == [] then []
    else if fs[0].name in seen then FirstByName(fs[1..], seen)
    else [fs[0]] + FirstByName(fs[1..], seen + {fs[0].name})
  }

  predicate DistinctNames(fs: seq<Symbol>) {
    forall i, j :: 0 <= i < j < |fs| ==> fs[i].name != fs[j].name
  }

  /** The kept functions have distinct names, none of them in seen. */
  lemma {:induction false} FirstByNameDistinct(fs: seq<Symbol>, seen: set<string>)
    ensures var r := FirstByName(fs, seen);
      DistinctNames(r) && forall k :: 0 <= k < |r| ==> r[k].name !in seen
    decreases |fs|
  {
    if fs != [] {
      var rest := if fs[0].name in seen then seen else seen + {fs[0].name};
      FirstByNameDistinct(fs[1..], rest);
    }
  }

  /** Every name of the input that is not in seen is kept. */
  lemma {:induction false} FirstByNameNames(fs: seq<Symbol>, seen: set<string>)
    ensures NamesOf(FirstByName(fs, seen)) == NamesOf(fs) - seen
    decreases |fs|
  {
    if fs != [] {
      var rest := if fs[0].name in seen then seen else seen + {fs[0].name};
      FirstByNameNames(fs[1..], rest);
      if fs[0].name !in seen {
        assert NamesOf([fs[0]] + FirstByName(fs[1..], rest)) == {fs[0].name} + NamesOf(FirstByName(fs[1..], rest)) by {
          assert ([fs[0]] + FirstByName(fs[1..], rest))[1..] == FirstByName(fs[1..], rest);
        }
      }
    }
  }

  /** The function kept for a name is its first occurrence. */
  lemma {:induction false} FirstByNameKeepsFirst(fs: seq<Symbol>, seen: set<string>, i: nat)
    requires i < |fs| && fs[i].name !in seen + NamesOf(fs[..i])
    ensures fs[i] in FirstByName(fs, seen)
    decreases |fs|
  {
    if i > 0 {
      var rest := if fs[0].name in seen then seen else seen + {fs[0].name};
      assert fs[..i] == [fs[0]] + fs[1..][..i - 1];
      assert NamesOf(fs[..i]) == {fs[0].name} + NamesOf(fs[1..][..i - 1]) by {
        assert ([fs[0]] + fs[1..][..i - 1])[1..] == fs[1..][..i - 1];
      }
      assert fs[1..][i - 1] == fs[i];
      FirstByNameKeepsFirst(fs[1..], rest, i - 1);
    }
  }
  /** The skips and declarations of genFunc over a list of symbols. */
  function FuncsSkips(fs: seq<Symbol>): seq<Symbol> {
    if fs == [] then [] else FuncsSkips(fs[..|fs| - 1]) + SkipsOf(fs[|fs| - 1])
  }

  function FuncsDecls(fs: seq<Symbol>): seq<Decl> {
    if fs == [] then [] else FuncsDecls(fs[..|fs| - 1]) + DeclsOf(fs[|fs| - 1])
  }

  lemma FuncsAppend(fs: seq<Symbol>, sym: Symbol)
    ensures FuncsSkips(fs + [sym]) == FuncsSkips(fs) + SkipsOf(sym)
    ensures FuncsDecls(fs + [sym]) == FuncsDecls(fs) + DeclsOf(sym)
  {
    assert (fs + [sym])[..|fs|] == fs;
  }

  /** One round of the function loop of genMod: the i-th function is
      generated exactly when no earlier one has its name. */
  lemma FuncsStep(functions: seq<Symbol>, i: nat)
    requires i < |functions|
    ensures var kept, sym := FirstByName(functions[..i], {}), functions[i];
      && NamesOf(functions[..i + 1]) == NamesOf(functions[..i]) + {sym.name}
      && (sym.name in NamesOf(functions[..i]) ==> FirstByName(functions[..i + 1], {}) == kept)
      && (sym.name !in NamesOf(functions[..i]) ==>
            FirstByName(functions[..i + 1], {}) == kept + [sym] && sym in FirstByName(functions, {}))
  {
    var kept, sym := FirstByName(functions[..i], {}), functions[i];
    TakeSnoc(functions, i);
    FirstByNameAppend(functions[..i], sym, {});
    NamesAppend(functions[..i], sym);
    if sym.name !in NamesOf(functions[..i]) {
      FirstByNamePrefix(functions, i + 1, {});
      PrefixHas(kept, sym, FirstByName(functions, {}));
    }
  }

  /** One round of the function loop of genMod keeps its invariant: a
      name already seen changes nothing, a new one is kept, and genFunc
      adds what it adds for it (FuncsLoopNew). */
  lemma FuncsLoopStep(functions: seq<Symbol>, i: nat, skips0: seq<Symbol>, decls0: seq<Decl>,
                      skips: seq<Symbol>, decls: seq<Decl>)
    requires i < |functions|
    requires skips == skips0 + FuncsSkips(FirstByName(functions[..i], {}))
    requires decls == decls0 + FuncsDecls(FirstByName(functions[..i], {}))
    ensures NamesOf(functions[..i + 1]) == NamesOf(functions[..i]) + {functions[i].name}
    ensures functions[i].name in NamesOf(functions[..i]) ==>
      skips == skips0 + FuncsSkips(FirstByName(functions[..i + 1], {}))
      && decls == decls0 + FuncsDecls(FirstByName(functions[..i + 1], {}))
    ensures functions[i].name !in NamesOf(functions[..i]) ==> functions[i] in FirstByName(functions, {})
  {
    FuncsStep(functions, i);
  }

  lemma FuncsLoopNew(functions: seq<Symbol>, i: nat, skips0: seq<Symbol>, decls0: seq<Decl>,
                     skips: seq<Symbol>, decls: seq<Decl>, skips': seq<Symbol>, decls': seq<Decl>)
    requires i < |functions| && functions[i].name !in NamesOf(functions[..i])
    requires skips == skips0 + FuncsSkips(FirstByName(functions[..i], {}))
    requires decls == decls0 + FuncsDecls(FirstByName(functions[..i], {}))
    requires skips' == skips + SkipsOf(functions[i]) && decls' == decls + DeclsOf(functions[i])
    ensures skips' == skips0 + FuncsSkips(FirstByName(functions[..i + 1], {}))
    ensures decls' == decls0 + FuncsDecls(FirstByName(functions[..i + 1], {}))
  {
    var sym, kept := functions[i], FirstByName(functions[..i], {});
    FuncsStep(functions, i);
    FuncsAppend(kept, sym);
    ConcatAssoc(skips0, FuncsSkips(kept), SkipsOf(sym));
    ConcatAssoc(decls0, FuncsDecls(kept), DeclsOf(sym));
  }

  /** One round of the loop of genVars keeps its invariant: a hidden
      variable changes nothing, a visible one is declared under the next
      fresh name. */
  lemma VarsLoopStep(syms: seq<Symbol>, i: nat, used: set<string>, ns: seq<string>, vs: seq<Symbol>,
                     decls0: seq<Decl>, decls: seq<Decl>)
    requires i < |syms| && |vs| == |ns|
    requires VarNames(syms, {}) == ns + VarNames(syms[i..], used)
    requires Visible(syms) == vs + Visible(syms[i..])
    requires decls == decls0 + VarDecls(vs, ns)
    ensures IsHidden(syms[i].name) ==>
      VarNames(syms, {}) == ns + VarNames(syms[i + 1..], used) && Visible(syms) == vs + Visible(syms[i + 1..])
    ensures !IsHidden(syms[i].name) ==>
      var n := Fresh(GoIdent(syms[i].name), used);
      && VarNames(syms, {}) == (ns + [n]) + VarNames(syms[i + 1..], used + {n})
      && Visible(syms) == (vs + [syms[i]]) + Visible(syms[i + 1..])
      && decls + [VarDecl(n, [Linkname(n, syms[i].name)])] == decls0 + VarDecls(vs + [syms[i]], ns + [n])
  {
    VarsStep(syms, i, used);
    if !IsHidden(syms[i].name) {
      var n := Fresh(GoIdent(syms[i].name), used);
      ConcatAssoc(ns, [n], VarNames(syms[i + 1..], used + {n}));
      ConcatAssoc(vs, [syms[i]], Visible(syms[i + 1..]));
      VarDeclsAppend(vs, ns, syms[i], n);
      ConcatAssoc(decls0, VarDecls(vs, ns), [VarDecl(n, [Linkname(n, syms[i].name)])]);
    }
  }

  lemma TakeSnoc<T>(s: seq<T>, i: nat)
    requires i < |s|
    ensures s[..i + 1] == s[..i] + [s[i]]
  {
  }

  lemma PrefixHas<T>(a: seq<T>, x: T, b: seq<T>)
    requires a + [x] <= b
    ensures x in b
  {
    assert b[|a|] == (a + [x])[|a|];
  }

  lemma {:induction false} FirstByNameAppend(fs: seq<Symbol>, sym: Symbol, seen: set<string>)
    ensures FirstByName(fs + [sym], seen) ==
      FirstByName(fs, seen) + (if sym.name in seen + NamesOf(fs) then [] else [sym])
    decreases |fs|
  {
    if fs == [] {
      assert [sym][1..] == [];
    } else {
      assert (fs + [sym])[1..] == fs[1..] + [sym];
      var rest := if fs[0].name in seen then seen else seen + {fs[0].name};
      FirstByNameAppend(fs[1..], sym, rest);
      assert NamesOf(fs) == {fs[0].name} + NamesOf(fs[1..]);
    }
  }

  /** What genMod has kept after a prefix of the functions is a prefix of
      what it keeps in all. */
  lemma {:induction false} FirstByNamePrefix(fs: seq<Symbol>, j: nat, seen: set<string>)
    requires j <= |fs|
    ensures FirstByName(fs[..j], seen) <= FirstByName(fs, seen)
    decreases |fs| - j
  {
    if j < |fs| {
      FirstByNamePrefix(fs, j + 1, seen);
      assert fs[..j + 1] == fs[..j] + [fs[j]];
      FirstByNameAppend(fs[..j], fs[j], seen);
    } else {
      assert fs[..j] == fs;
    }
  }

  /** The names of a list of symbols. */
  function NamesOf(fs: seq<Symbol>): set<string>
    decreases |fs|
  {
    if fs == [] then {} else {fs[0].name} + NamesOf(fs[1..])
  }

  /** NamesOf holds exactly the names that occur in the list. */
  lemma {:induction false} NamesOfMembers(fs: seq<Symbol>)
    ensures forall i :: 0 <= i < |fs| ==> fs[i].name in NamesOf(fs)
    ensures forall n :: n in NamesOf(fs) ==> exists i :: 0 <= i < |fs| && fs[i].name == n
    decreases |fs|
  {
    if fs != [] {
      NamesOfMembers(fs[1..]);
      forall i | 1 <= i < |fs|
        ensures fs[i].name in NamesOf(fs)
      {
        assert fs[i] == fs[1..][i - 1];
      }
      forall n | n in NamesOf(fs[1..])
        ensures exists i :: 0 <= i < |fs| && fs[i].name == n
      {
        var j :| 0 <= j < |fs[1..]| && fs[1..][j].name == n;
        assert fs[j + 1].name == n;
      }
    }
  }

  // ---------------------------------------------------------------------
  // genVars: fresh names
  // ---------------------------------------------------------------------

  /** k underscores. */
  function Underscores(k: nat): (u: string)
    ensures |u| == k && forall i :: 0 <= i < k ==> u[i] == '_'
  {
    if k == 0 then [] else Underscores(k - 1) + "_"
  }

  /** The length of the longest string in a set. */
  ghost function MaxLen(used: set<string>): (m: nat)
    ensures forall s :: s in used ==> |s| <= m
  {
    if used == {} then 0
    else
      var s :| s in used;
      var m := MaxLen(used - {s});
      if |s| > m then |s| else m
  }

  /** The number of '_' genVars appends: the fewest from k on that make
      the name unused. */
  function FreshCount(name: string, used: set<string>, k: nat): (c: nat)
    ensures c >= k && name + Underscores(c) !in used
    ensures forall j :: k <= j < c ==> name + Underscores(j) in used
    decreases MaxLen(used) + 1 - |name| - k
  {
    if name + Underscores(k) in used then
      assert |name + Underscores(k)| <= MaxLen(used);
      FreshCount(name, used, k + 1)
    else k
  }

  /** genVars's name for a variable: the name followed by the fewest '_'
      that make it unused. */
  function Fresh(name: string, used: set<string>): (r: string)
    ensures r !in used
  {
    name + Underscores(FreshCount(name, used, 0))
  }

  /** The names genVars gives the visible variables, in input order. */
  function VarNames(syms: seq<Symbol>, used: set<string>): (ns: seq<string>)
    ensures |ns| == |Visible(syms)|
    decreases |syms|
  {
    if syms == [] then []
    else if IsHidden(syms[0].name) then VarNames(syms[1..], used)
    else
      var n := Fresh(GoIdent(syms[0].name), used);
      [n] + VarNames(syms[1..], used + {n})
  }

  /** The visible variables, in input order. */
  function Visible(syms: seq<Symbol>): (vs: seq<Symbol>)
    ensures forall i :: 0 <= i < |vs| ==> !IsHidden(vs[i].name)
    decreases |syms|
  {
    if syms == [] then []
    else if IsHidden(syms[0].name) then Visible(syms[1..])
    else [syms[0]] + Visible(syms[1..])
  }

  /** The set of names in a list. */
  function Elems(ns: seq<string>): set<string> {
    set m | m in ns
  }

  /** genVars names each visible variable, in input order, by genName
      followed by the fewest '_' that avoid the names given so far. */
  lemma {:induction false} VarNamesFresh(syms: seq<Symbol>, used: set<string>)
    ensures FreshEach(VarNames(syms, used), BaseNames(Visible(syms)), used)
    decreases |syms|
  {
    if syms != [] {
      if IsHidden(syms[0].name) {
        VarNamesFresh(syms[1..], used);
      } else {
        var n := Fresh(GoIdent(syms[0].name), used);
        VarNamesFresh(syms[1..], used + {n});
        FreshCons(n, VarNames(syms[1..], used + {n}), GoIdent(syms[0].name), BaseNames(Visible(syms[1..])), used);
        assert Visible(syms) == [syms[0]] + Visible(syms[1..]);
        BaseNamesCons(syms[0], Visible(syms[1..]));
      }
    }
  }

  /** The names genVars starts from: genName of each variable. */
  function BaseNames(vs: seq<Symbol>): (gs: seq<string>)
    ensures |gs| == |vs| && forall i :: 0 <= i < |vs| ==> gs[i] == GoIdent(vs[i].name)
  {
    seq(|vs|, i requires 0 <= i < |vs| => GoIdent(vs[i].name))
  }

  lemma BaseNamesCons(v: Symbol, vs: seq<Symbol>)
    ensures BaseNames([v] + vs) == [GoIdent(v.name)] + BaseNames(vs)
  {
    var l, r := BaseNames([v] + vs), [GoIdent(v.name)] + BaseNames(vs);
    forall i | 0 <= i < |l|
      ensures l[i] == r[i]
    {
      if i > 0 {
        assert ([v] + vs)[i] == vs[i - 1];
      }
    }
  }

  predicate FreshEach(ns: seq<string>, gs: seq<string>, used: set<string>) {
    |ns| == |gs| && forall i :: 0 <= i < |ns| ==> ns[i] == Fresh(gs[i], used + Elems(ns[..i]))
  }

  lemma ElemsCons(n: string, t: seq<string>)
    ensures Elems([n] + t) == {n} + Elems(t)
  {
  }

  lemma FreshCons(n: string, tail: seq<string>, g: string, gtail: seq<string>, used: set<string>)
    requires n == Fresh(g, used)
    requires FreshEach(tail, gtail, used + {n})
    ensures FreshEach([n] + tail, [g] + gtail, used)
  {
    var ns, gs := [n] + tail, [g] + gtail;
    forall i | 0 <= i < |ns|
      ensures ns[i] == Fresh(gs[i], used + Elems(ns[..i]))
    {
      if i == 0 {
        assert ns[..0] == [];
      } else {
        FreshConsAt(n, tail, g, gtail, used, i);
      }
    }
  }

  lemma FreshConsAt(n: string, tail: seq<string>, g: string, gtail: seq<string>, used: set<string>, i: nat)
    requires FreshEach(tail, gtail, used + {n}) && 0 < i <= |tail|
    ensures ([n] + tail)[i] == Fresh(([g] + gtail)[i], used + Elems(([n] + tail)[..i]))
  {
    var ns := [n] + tail;
    assert ns[..i] == [n] + tail[..i - 1];
    ElemsCons(n, tail[..i - 1]);
    assert used + Elems(ns[..i]) == (used + {n}) + Elems(tail[..i - 1]);
    assert tail[i - 1] == Fresh(gtail[i - 1], (used + {n}) + Elems(tail[..i - 1]));
  }

  /** The generated variable names are new and pairwise distinct. */
  lemma VarNamesDistinct(syms: seq<Symbol>, used: set<string>)
    ensures var ns := VarNames(syms, used);
      && (forall i :: 0 <= i < |ns| ==> ns[i] !in used)
      && (forall i, j :: 0 <= i < j < |ns| ==> ns[i] != ns[j])
  {
    var ns := VarNames(syms, used);
    VarNamesFresh(syms, used);
    forall i, j | 0 <= i < j < |ns|
      ensures ns[i] != ns[j]
    {
      assert ns[i] in Elems(ns[..j]) by {
        assert ns[..j][i] == ns[i];
      }
    }
  }
  /** The variable declarations genVar adds for the given names. */
  function VarDecls(vs: seq<Symbol>, ns: seq<string>): (ds: seq<Decl>)
    requires |vs| == |ns|
    ensures |ds| == |vs|
    ensures forall i :: 0 <= i < |ds| ==> ds[i] == VarDecl(ns[i], [Linkname(ns[i], vs[i].name)])
    decreases |vs|
  {
    if vs == [] then [] else [VarDecl(ns[0], [Linkname(ns[0], vs[0].name)])] + VarDecls(vs[1..], ns[1..])
  }

  // ---------------------------------------------------------------------
  // genClasses: which classes get a struct, and in which order
  // ---------------------------------------------------------------------

  /** Classes genClasses puts on the skip list: no __init__, or more than
      one base. */
  predicate SkippedClass(c: Class) {
    c.initMethod.None? || |c.bases| > 1
  }

  function SkipSymbol(c: Class): Symbol {
    Symbol(c.name, "class", "", "")
  }

  function BaseOf(c: Class): string {
    if |c.bases| > 0 then c.bases[0].name else ""
  }

  /** A class whose struct embeds py.Object: its one base is
      builtins.object or a class of another module. */
  predicate IsRootClass(c: Class, modName: string) {
    !SkippedClass(c) && |c.bases| == 1
    && (c.bases[0] == Base("object", "builtins") || c.bases[0].modName != modName)
  }

  /** A class that waits for the struct of its base, a class of the same
      module. */
  predicate IsPendingClass(c: Class, modName: string) {
    !SkippedClass(c) && |c.bases| == 1 && !IsRootClass(c, modName)
  }

  /** genClasses reads Bases[0] of every class it does not skip, which
      panics when there is none. */
  predicate BasesPresent(classes: seq<Class>) {
    forall i :: 0 <= i < |classes| ==> SkippedClass(classes[i]) || |classes[i].bases| == 1
  }

  predicate DistinctClassNames(classes: seq<Class>) {
    forall i, j :: 0 <= i < j < |classes| ==> classes[i].name != classes[j].name
  }

  /** The skip entries of the first loop, in input order. */
  function ClassSkips(classes: seq<Class>): seq<Symbol> {
    if classes == [] then []
    else
      var c := classes[|classes| - 1];
      ClassSkips(classes[..|classes| - 1]) + (if SkippedClass(c) then [SkipSymbol(c)] else [])
  }

  /** The classes given a py.Object struct by the first loop, in input
      order. */
  function RootNames(classes: seq<Class>, modName: string): seq<string> {
    if classes == [] then []
    else
      var c := classes[|classes| - 1];
      RootNames(classes[..|classes| - 1], modName) + (if IsRootClass(c, modName) then [c.name] else [])
  }

  /** toHandle after the first loop: the pending classes by name, a later
      class replacing an earlier namesake. */
  function PendingMap(classes: seq<Class>, modName: string): map<string, Class> {
    if classes == [] then map[]
    else
      var c := classes[|classes| - 1];
      var m := PendingMap(classes[..|classes| - 1], modName);
      if IsPendingClass(c, modName) then m[c.name := c] else m
  }

  /** classMap: every class by name, a later class replacing an earlier
      namesake. */
  function ClassMap(classes: seq<Class>): map<string, Class> {
    if classes == [] then map[]
    else
      var c := classes[|classes| - 1];
      ClassMap(classes[..|classes| - 1])[c.name := c]
  }

  /** A root's name is the name of a root class. */
  lemma {:induction false} RootNamesFrom(classes: seq<Class>, modName: string, k: nat)
    requires k < |RootNames(classes, modName)|
    ensures exists i :: 0 <= i < |classes| && classes[i].name == RootNames(classes, modName)[k] && IsRootClass(classes[i], modName)
  {
    var init := classes[..|classes| - 1];
    if k < |RootNames(init, modName)| {
      RootNamesFrom(init, modName, k);
      var i :| 0 <= i < |init| && init[i].name == RootNames(init, modName)[k] && IsRootClass(init[i], modName);
      assert classes[i] == init[i];
    }
  }

  /** A pending name is the name of a pending class, which it maps to. */
  lemma {:induction false} PendingMapFrom(classes: seq<Class>, modName: string, n: string)
    requires n in PendingMap(classes, modName)
    ensures exists i :: 0 <= i < |classes| && classes[i] == PendingMap(classes, modName)[n] && classes[i].name == n && IsPendingClass(classes[i], modName)
  {
    var init := classes[..|classes| - 1];
    var c := classes[|classes| - 1];
    if !(IsPendingClass(c, modName) && n == c.name) {
      PendingMapFrom(init, modName, n);
      var i :| 0 <= i < |init| && init[i] == PendingMap(init, modName)[n] && init[i].name == n && IsPendingClass(init[i], modName);
      assert classes[i] == init[i];
    }
  }

  /** Every pending class is in PendingMap. */
  lemma {:induction false} PendingMapHas(classes: seq<Class>, modName: string, i: nat)
    requires i < |classes| && IsPendingClass(classes[i], modName)
    ensures classes[i].name in PendingMap(classes, modName)
  {
    var init := classes[..|classes| - 1];
    if i < |classes| - 1 {
      assert init[i] == classes[i];
      PendingMapHas(init, modName, i);
    }
  }

  /** Every root class is in RootNames. */
  lemma {:induction false} RootNamesHas(classes: seq<Class>, modName: string, i: nat)
    requires i < |classes| && IsRootClass(classes[i], modName)
    ensures classes[i].name in RootNames(classes, modName)
  {
    var init := classes[..|classes| - 1];
    if i < |classes| - 1 {
      assert init[i] == classes[i];
      RootNamesHas(init, modName, i);
    }
  }

  /** classMap holds every class name, mapped to the last class of that
      name. */
  lemma {:induction false} ClassMapHas(classes: seq<Class>, i: nat)
    requires i < |classes|
    ensures classes[i].name in ClassMap(classes)
    ensures DistinctClassNames(classes) ==> ClassMap(classes)[classes[i].name] == classes[i]
  {
    var init := classes[..|classes| - 1];
    if i < |classes| - 1 {
      assert init[i] == classes[i];
      ClassMapHas(init, i);
      assert classes[i].name != classes[|classes| - 1].name || !DistinctClassNames(classes);
    }
  }

  /** A class gets a struct exactly when it is not skipped: as a root, or
      through the worklist. */
  lemma GeneratedIffNotSkipped(classes: seq<Class>, modName: string, i: nat)
    requires BasesPresent(classes) && DistinctClassNames(classes) && i < |classes|
    ensures var n := classes[i].name;
      (n in RootNames(classes, modName) || n in PendingMap(classes, modName)) <==> !SkippedClass(classes[i])
  {
    var n := classes[i].name;
    if SkippedClass(classes[i]) {
      if n in RootNames(classes, modName) {
        var k :| 0 <= k < |RootNames(classes, modName)| && RootNames(classes, modName)[k] == n;
        RootNamesFrom(classes, modName, k);
      }
      if n in PendingMap(classes, modName) {
        PendingMapFrom(classes, modName, n);
      }
    } else if IsRootClass(classes[i], modName) {
      RootNamesHas(classes, modName, i);
    } else {
      PendingMapHas(classes, modName, i);
    }
  }

  /** What the generated struct of a class embeds. */
  function ParentOf(pending: map<string, Class>, n: string): Parent {
    if n in pending then Embeds(BaseOf(pending[n])) else PyObject
  }

  /** The struct declarations for the names in structsList. */
  function StructDecls(names: seq<string>, pending: map<string, Class>): (ds: seq<Decl>)
    ensures |ds| == |names|
    decreases |names|
  {
    if names == [] then []
    else
      var n := names[|names| - 1];
      StructDecls(names[..|names| - 1], pending) + [StructDecl(GoIdent(n), ParentOf(pending, n))]
  }

  /** structsList in inheritance order: a struct that embeds another
      comes after it. */
  predicate InheritanceOrder(names: seq<string>, pending: map<string, Class>) {
    forall i :: 0 <= i < |names| && ParentOf(pending, names[i]).Embeds? ==>
      exists j :: 0 <= j < i && names[j] == ParentOf(pending, names[i]).base
  }

  // ---------------------------------------------------------------------
  // The toHandle worklist
  // ---------------------------------------------------------------------

  /** A pending class whose base already has a struct. */
  predicate Ready(toHandle: map<string, Class>, structs: set<string>, n: string) {
    n in toHandle && BaseOf(toHandle[n]) in structs
  }

  /** A rank that drops from every pending class to its pending base and
      ends at bases that have a struct: the worklist loop ends exactly
      when one exists. */
  ghost predicate Ranked(toHandle: map<string, Class>, structs: set<string>, rank: map<string, nat>) {
    forall n :: n in toHandle ==>
      n in rank
      && (BaseOf(toHandle[n]) in structs
          || (BaseOf(toHandle[n]) in toHandle && BaseOf(toHandle[n]) in rank && rank[BaseOf(toHandle[n])] < rank[n]))
  }

  /** With a rank, some pending class is ready: following bases down the
      rank reaches one. */
  lemma {:induction false} FindReady(toHandle: map<string, Class>, structs: set<string>, rank: map<string, nat>, n: string)
    requires Ranked(toHandle, structs, rank) && n in toHandle
    ensures exists m :: Ready(toHandle, structs, m)
    decreases rank[n]
  {
    if BaseOf(toHandle[n]) !in structs {
      FindReady(toHandle, structs, rank, BaseOf(toHandle[n]));
    } else {
      assert Ready(toHandle, structs, n);
    }
  }

  /** Handling a ready class keeps the rank valid. */
  lemma RankedStep(toHandle: map<string, Class>, structs: set<string>, rank: map<string, nat>, n: string)
    requires Ranked(toHandle, structs, rank) && Ready(toHandle, structs, n)
    ensures Ranked(toHandle - {n}, structs + {n}, rank)
  {
    var t := toHandle - {n};
    forall m | m in t
      ensures m in rank && (BaseOf(t[m]) in structs + {n} || (BaseOf(t[m]) in t && BaseOf(t[m]) in rank && rank[BaseOf(t[m])] < rank[m]))
    {
      assert t[m] == toHandle[m];
    }
  }

  /** The state of the worklist loop of genClasses, beside Ranked: list
      holds the nRoots root names, then the handled pending classes, all
      distinct, and work holds the pending classes not handled yet. The
      depth, as for GoIdent, only defers the unfolding for the verifier
      (WorkUnfold). */
  ghost predicate WorkInv(work: map<string, Class>, pending: map<string, Class>, nRoots: nat, list: seq<string>, depth: nat := 3) {
    if depth > 0 then WorkInv(work, pending, nRoots, list, depth - 1) else
    && (forall n :: n in pending ==> pending[n].name == n)
    && (forall n :: n in work ==> n in pending && work[n] == pending[n])
    && nRoots <= |list|
    && (forall n :: n in pending ==> (n in work <==> n !in list[nRoots..]))
    && (forall n :: n in list[nRoots..] ==> n in pending)
    && (forall k :: 0 <= k < nRoots ==> list[k] !in pending)
    && (forall k, l :: 0 <= k < l < |list| ==> list[k] != list[l])
  }

  lemma WorkUnfold(work: map<string, Class>, pending: map<string, Class>, nRoots: nat, list: seq<string>, depth: nat := 3)
    ensures WorkInv(work, pending, nRoots, list, depth) == WorkInv(work, pending, nRoots, list, 0)
  {
    if depth > 0 {
      WorkUnfold(work, pending, nRoots, list, depth - 1);
    }
  }

  /** The other half: the listed classes are in inheritance order, and smap
      gives each of them its parent. */
  ghost predicate ParentInv(pending: map<string, Class>, list: seq<string>, smap: map<string, Parent>, depth: nat := 3) {
    if depth > 0 then ParentInv(pending, list, smap, depth - 1) else
    && (forall n :: n in smap <==> n in list)
    && (forall n :: n in smap ==> smap[n] == ParentOf(pending, n))
    && InheritanceOrder(list, pending)
  }

  lemma ParentUnfold(pending: map<string, Class>, list: seq<string>, smap: map<string, Parent>, depth: nat := 3)
    ensures ParentInv(pending, list, smap, depth) == ParentInv(pending, list, smap, 0)
  {
    if depth > 0 {
      ParentUnfold(pending, list, smap, depth - 1);
    }
  }

  /** The state of the first loop of genClasses after the classes of
      prefix: toHandle, the skip entries sk, the root structs in list and
      smap, and their declarations ds. The depth only defers the unfolding
      for the verifier (FirstUnfold). */
  ghost predicate FirstInv(prefix: seq<Class>, modName: string, pending: map<string, Class>,
                           toHandle: map<string, Class>, sk: seq<Symbol>, list: seq<string>,
                           smap: map<string, Parent>, ds: seq<Decl>, depth: nat := 3)
  {
    if depth > 0 then FirstInv(prefix, modName, pending, toHandle, sk, list, smap, ds, depth - 1) else
    && toHandle == PendingMap(prefix, modName)
    && sk == ClassSkips(prefix)
    && list == RootNames(prefix, modName)
    && (forall n :: n in smap <==> n in list)
    && (forall n :: n in smap ==> smap[n] == PyObject)
    && (forall k :: 0 <= k < |list| ==> list[k] !in pending)
    && (forall k, l :: 0 <= k < l < |list| ==> list[k] != list[l])
    && ds == StructDecls(list, pending)
  }

  lemma FirstUnfold(prefix: seq<Class>, modName: string, pending: map<string, Class>,
                    toHandle: map<string, Class>, sk: seq<Symbol>, list: seq<string>,
                    smap: map<string, Parent>, ds: seq<Decl>, depth: nat := 3)
    ensures FirstInv(prefix, modName, pending, toHandle, sk, list, smap, ds, depth)
         == FirstInv(prefix, modName, pending, toHandle, sk, list, smap, ds, 0)
  {
    if depth > 0 {
      FirstUnfold(prefix, modName, pending, toHandle, sk, list, smap, ds, depth - 1);
    }
  }

  /** One round of the first loop, for a skipped class: it goes to the
      skip list. */
  lemma FirstSkipStep(classes: seq<Class>, modName: string, i: nat,
                      toHandle: map<string, Class>, sk: seq<Symbol>, list: seq<string>,
                      smap: map<string, Parent>, ds: seq<Decl>)
    requires i < |classes| && SkippedClass(classes[i])
    requires FirstInv(classes[..i], modName, PendingMap(classes, modName), toHandle, sk, list, smap, ds)
    ensures FirstInv(classes[..i + 1], modName, PendingMap(classes, modName), toHandle, sk + [SkipSymbol(classes[i])], list, smap, ds)
  {
    var pending := PendingMap(classes, modName);
    assert classes[..i + 1][..i] == classes[..i];
    FirstUnfold(classes[..i], modName, pending, toHandle, sk, list, smap, ds);
    FirstUnfold(classes[..i + 1], modName, pending, toHandle, sk + [SkipSymbol(classes[i])], list, smap, ds);
  }

  /** For a root class: it gets a struct embedding py.Object. */
  lemma FirstRootStep(classes: seq<Class>, modName: string, i: nat,
                      toHandle: map<string, Class>, sk: seq<Symbol>, list: seq<string>,
                      smap: map<string, Parent>, ds: seq<Decl>)
    requires DistinctClassNames(classes) && i < |classes| && IsRootClass(classes[i], modName)
    requires FirstInv(classes[..i], modName, PendingMap(classes, modName), toHandle, sk, list, smap, ds)
    ensures var n := classes[i].name;
      FirstInv(classes[..i + 1], modName, PendingMap(classes, modName), toHandle, sk, list + [n], smap[n := PyObject],
               ds + [StructDecl(GoIdent(n), PyObject)])
  {
    var n, pending := classes[i].name, PendingMap(classes, modName);
    FirstUnfold(classes[..i], modName, pending, toHandle, sk, list, smap, ds);
    RootIsNew(classes, modName, i);
    FirstRoot(list, pending, smap, n, smap[n := PyObject]);
    FirstRootSummaries(classes, modName, i, toHandle, sk, list, smap[n := PyObject], ds);
  }

  /** The summaries the first loop keeps, after a root class. */
  lemma FirstRootSummaries(classes: seq<Class>, modName: string, i: nat,
                           toHandle: map<string, Class>, sk: seq<Symbol>, list: seq<string>,
                           smap': map<string, Parent>, ds: seq<Decl>)
    requires i < |classes| && IsRootClass(classes[i], modName)
    requires var pending := PendingMap(classes, modName);
      && classes[i].name !in pending
      && toHandle == PendingMap(classes[..i], modName)
      && sk == ClassSkips(classes[..i])
      && list == RootNames(classes[..i], modName)
      && ds == StructDecls(list, pending)
    requires var l, pending := list + [classes[i].name], PendingMap(classes, modName);
      && (forall m :: m in smap' <==> m in l)
      && (forall m :: m in smap' ==> smap'[m] == PyObject)
      && (forall k :: 0 <= k < |l| ==> l[k] !in pending)
      && (forall k, j :: 0 <= k < j < |l| ==> l[k] != l[j])
    ensures var n := classes[i].name;
      FirstInv(classes[..i + 1], modName, PendingMap(classes, modName), toHandle, sk, list + [n], smap',
               ds + [StructDecl(GoIdent(n), PyObject)])
  {
    var n, pending := classes[i].name, PendingMap(classes, modName);
    PrefixStep(classes, modName, i);
    assert ClassSkips(classes[..i]) + [] == ClassSkips(classes[..i]);
    StructDeclsAppend(list, n, pending);
    assert ParentOf(pending, n) == PyObject;
    FirstUnfold(classes[..i + 1], modName, pending, toHandle, sk, list + [n], smap',
                ds + [StructDecl(GoIdent(n), PyObject)]);
  }

  /** The class at position i extends each of the first loop's
      summaries of the classes before it. */
  lemma PrefixStep(classes: seq<Class>, modName: string, i: nat)
    requires i < |classes|
    ensures var c, p, q := classes[i], classes[..i + 1], classes[..i];
      && ClassSkips(p) == ClassSkips(q) + (if SkippedClass(c) then [SkipSymbol(c)] else [])
      && RootNames(p, modName) == RootNames(q, modName) + (if IsRootClass(c, modName) then [c.name] else [])
      && PendingMap(p, modName) == (if IsPendingClass(c, modName) then PendingMap(q, modName)[c.name := c] else PendingMap(q, modName))
  {
    assert classes[..i + 1][..i] == classes[..i];
  }

  /** For any other class: it waits in toHandle. */
  lemma FirstPendingStep(classes: seq<Class>, modName: string, i: nat,
                         toHandle: map<string, Class>, sk: seq<Symbol>, list: seq<string>,
                         smap: map<string, Parent>, ds: seq<Decl>)
    requires i < |classes| && IsPendingClass(classes[i], modName)
    requires FirstInv(classes[..i], modName, PendingMap(classes, modName), toHandle, sk, list, smap, ds)
    ensures FirstInv(classes[..i + 1], modName, PendingMap(classes, modName), toHandle[classes[i].name := classes[i]],
                     sk, list, smap, ds)
  {
    var c, pending := classes[i], PendingMap(classes, modName);
    assert classes[..i + 1][..i] == classes[..i];
    FirstUnfold(classes[..i], modName, pending, toHandle, sk, list, smap, ds);
    FirstUnfold(classes[..i + 1], modName, pending, toHandle[c.name := c], sk, list, smap, ds);
  }

  lemma FirstRoot(list: seq<string>, pending: map<string, Class>, smap: map<string, Parent>, n: string,
                  smap': map<string, Parent>)
    requires n !in pending && n !in list && smap' == smap[n := PyObject]
    requires forall k :: 0 <= k < |list| ==> list[k] !in pending
    requires forall k, l :: 0 <= k < l < |list| ==> list[k] != list[l]
    requires forall m :: m in smap <==> m in list
    requires forall m :: m in smap ==> smap[m] == PyObject
    ensures var l := list + [n];
      && (forall m :: m in smap' <==> m in l)
      && (forall m :: m in smap' ==> smap'[m] == PyObject)
      && (forall k :: 0 <= k < |l| ==> l[k] !in pending)
      && (forall k, j :: 0 <= k < j < |l| ==> l[k] != l[j])
  {
    var l := list + [n];
    forall k, j | 0 <= k < j < |l|
      ensures l[k] != l[j]
    {
      if j < |list| {
        assert l[k] == list[k] && l[j] == list[j];
      } else {
        assert l[k] == list[k];
      }
    }
  }

  /** After the first loop the worklist starts with every pending class,
      and the roots' structs embed py.Object. */
  lemma WorklistStart(classes: seq<Class>, modName: string, toHandle: map<string, Class>, sk: seq<Symbol>,
                      list: seq<string>, smap: map<string, Parent>, ds: seq<Decl>)
    requires FirstInv(classes, modName, PendingMap(classes, modName), toHandle, sk, list, smap, ds)
    ensures toHandle == PendingMap(classes, modName)
    ensures sk == ClassSkips(classes) && list == RootNames(classes, modName)
    ensures ds == StructDecls(list, PendingMap(classes, modName))
    ensures smap.Keys == Elems(list)
    ensures var pending := PendingMap(classes, modName);
      WorkInv(pending, pending, |list|, list) && ParentInv(pending, list, smap)
  {
    var pending := PendingMap(classes, modName);
    FirstUnfold(classes, modName, pending, toHandle, sk, list, smap, ds);
    PendingNames(classes, modName);
    StartInv(pending, list, smap);
  }

  lemma PendingNames(classes: seq<Class>, modName: string)
    ensures forall n :: n in PendingMap(classes, modName) ==> PendingMap(classes, modName)[n].name == n
  {
    forall n | n in PendingMap(classes, modName)
      ensures PendingMap(classes, modName)[n].name == n
    {
      PendingMapFrom(classes, modName, n);
    }
  }

  lemma StartInv(pending: map<string, Class>, list: seq<string>, smap: map<string, Parent>)
    requires forall n :: n in pending ==> pending[n].name == n
    requires forall n :: n in smap <==> n in list
    requires forall n :: n in smap ==> smap[n] == PyObject
    requires forall k :: 0 <= k < |list| ==> list[k] !in pending
    requires forall k, l :: 0 <= k < l < |list| ==> list[k] != list[l]
    ensures smap.Keys == Elems(list)
    ensures WorkInv(pending, pending, |list|, list) && ParentInv(pending, list, smap)
  {
    WorkUnfold(pending, pending, |list|, list);
    ParentUnfold(pending, list, smap);
    assert list[|list|..] == [];
    forall n | n in smap
      ensures smap[n] == ParentOf(pending, n)
    {
      var k :| 0 <= k < |list| && list[k] == n;
    }
    forall n | n in Elems(list)
      ensures n in smap
    {
      var k :| 0 <= k < |list| && list[k] == n;
    }
  }

  /** Every listed class, root or handled, is a class of the module. */
  lemma ListedClasses(classes: seq<Class>, modName: string, list: seq<string>)
    requires |RootNames(classes, modName)| <= |list|
    requires list[..|RootNames(classes, modName)|] == RootNames(classes, modName)
    requires forall n :: n in list[|RootNames(classes, modName)|..] ==> n in PendingMap(classes, modName)
    ensures forall i :: 0 <= i < |list| ==> list[i] in ClassMap(classes)
  {
    var roots := RootNames(classes, modName);
    forall i | 0 <= i < |list|
      ensures list[i] in ClassMap(classes)
    {
      var n := list[i];
      if i < |roots| {
        assert roots[i] == n;
        RootNamesFrom(classes, modName, i);
        var j :| 0 <= j < |classes| && classes[j].name == n && IsRootClass(classes[j], modName);
        ClassMapHas(classes, j);
      } else {
        assert list[|roots|..][i - |roots|] == n;
        PendingMapFrom(classes, modName, n);
        var j :| 0 <= j < |classes| && classes[j].name == n && IsPendingClass(classes[j], modName);
        ClassMapHas(classes, j);
      }
    }
  }

  /** When the worklist is empty, the handled classes are exactly the
      pending ones. */
  lemma WorklistDone(pending: map<string, Class>, nRoots: nat, list: seq<string>, smap: map<string, Parent>)
    requires WorkInv(map[], pending, nRoots, list) && ParentInv(pending, list, smap)
    ensures nRoots <= |list|
    ensures forall n :: n in list[nRoots..] <==> n in pending
    ensures forall k, l :: 0 <= k < l < |list| ==> list[k] != list[l]
    ensures forall n :: n in smap <==> n in list
    ensures forall n :: n in smap ==> smap[n] == ParentOf(pending, n)
    ensures InheritanceOrder(list, pending)
  {
    WorkUnfold(map[], pending, nRoots, list);
    ParentUnfold(pending, list, smap);
  }

  /** One round of the worklist loop of genClasses keeps its invariant:
      the ready class n gets a struct embedding its base and leaves the
      worklist. */
  lemma DrainStep(work: map<string, Class>, pending: map<string, Class>, nRoots: nat, list: seq<string>,
                  smap: map<string, Parent>, rank: map<string, nat>, decls0: seq<Decl>, decls: seq<Decl>, n: string)
    requires WorkInv(work, pending, nRoots, list) && ParentInv(pending, list, smap)
    requires Ranked(work, smap.Keys, rank) && nRoots <= |list|
    requires decls == decls0 + StructDecls(list[nRoots..], pending)
    requires n in work && BaseOf(work[n]) in smap
    ensures var p := Embeds(BaseOf(work[n]));
      && work[n].name == n
      && WorkInv(work - {n}, pending, nRoots, list + [n])
      && ParentInv(pending, list + [n], smap[n := p])
      && Ranked(work - {n}, smap[n := p].Keys, rank)
      && decls + [StructDecl(GoIdent(n), p)] == decls0 + StructDecls((list + [n])[nRoots..], pending)
      && (list + [n])[..nRoots] == list[..nRoots]
      && |work - {n}| < |work|
  {
    var p := Embeds(BaseOf(work[n]));
    WorkStep(work, pending, nRoots, list, n);
    assert ParentOf(pending, n) == p;
    ParentStep(pending, list, smap, n, p);
    RankedStep(work, smap.Keys, rank, n);
    StructDeclsStep(list, n, nRoots, pending);
    MapUpdateKeys(smap, n, p);
    TakeAppend(list, n, nRoots);
    MapRemoveSize(work, n);
    ConcatAssoc(decls0, StructDecls(list[nRoots..], pending), [StructDecl(GoIdent(n), p)]);
  }

  lemma StructDeclsStep(list: seq<string>, n: string, nRoots: nat, pending: map<string, Class>)
    requires nRoots <= |list|
    ensures StructDecls((list + [n])[nRoots..], pending)
         == StructDecls(list[nRoots..], pending) + [StructDecl(GoIdent(n), ParentOf(pending, n))]
  {
    DropAppend(list, n, nRoots);
    StructDeclsAppend(list[nRoots..], n, pending);
  }

  /** Handling a pending class n keeps WorkInv. */
  lemma WorkStep(work: map<string, Class>, pending: map<string, Class>, nRoots: nat, list: seq<string>, n: string)
    requires WorkInv(work, pending, nRoots, list) && n in work
    ensures nRoots <= |list| && n !in list
    ensures n in pending && work[n] == pending[n] && work[n].name == n
    ensures WorkInv(work - {n}, pending, nRoots, list + [n])
  {
    WorkUnfold(work, pending, nRoots, list);
    WorkUnfold(work - {n}, pending, nRoots, list + [n]);
    var list' := list + [n];
    forall k | 0 <= k < |list|
      ensures list[k] != n
    {
      if k >= nRoots {
        assert list[nRoots..][k - nRoots] == list[k];
      }
    }
    assert list'[nRoots..] == list[nRoots..] + [n];
    forall k, l | 0 <= k < l < |list'|
      ensures list'[k] != list'[l]
    {
      if l < |list| {
        assert list'[k] == list[k] && list'[l] == list[l];
      }
    }
  }

  /** Giving n the struct of its parent p, whose struct exists, keeps
      ParentInv. */
  lemma ParentStep(pending: map<string, Class>, list: seq<string>, smap: map<string, Parent>, n: string, p: Parent)
    requires ParentInv(pending, list, smap)
    requires p == ParentOf(pending, n) && p.Embeds? && p.base in smap
    ensures ParentInv(pending, list + [n], smap[n := p])
  {
    ParentUnfold(pending, list, smap);
    ParentUnfold(pending, list + [n], smap[n := p]);
    InheritanceAppend(list, pending, n);
  }

  lemma InheritanceAppend(list: seq<string>, pending: map<string, Class>, n: string)
    requires InheritanceOrder(list, pending)
    requires ParentOf(pending, n).Embeds? ==> ParentOf(pending, n).base in list
    ensures InheritanceOrder(list + [n], pending)
  {
    var l := list + [n];
    forall i | 0 <= i < |l| && ParentOf(pending, l[i]).Embeds?
      ensures exists j :: 0 <= j < i && l[j] == ParentOf(pending, l[i]).base
    {
      if i < |list| {
        var j :| 0 <= j < i && list[j] == ParentOf(pending, list[i]).base;
        assert l[j] == list[j];
      } else {
        var j :| 0 <= j < |list| && list[j] == ParentOf(pending, n).base;
        assert l[j] == list[j];
      }
    }
  }

  lemma StructDeclsAppend(names: seq<string>, n: string, pending: map<string, Class>)
    ensures StructDecls(names + [n], pending) == StructDecls(names, pending) + [StructDecl(GoIdent(n), ParentOf(pending, n))]
  {
    assert (names + [n])[..|names|] == names;
  }

  /** A run of the worklist: each handled class is ready when handled. */
  ghost predicate ValidRun(toHandle: map<string, Class>, structs: set<string>, steps: seq<string>)
    decreases |steps|
  {
    steps == []
    || (Ready(toHandle, structs, steps[0]) && ValidRun(toHandle - {steps[0]}, structs + {steps[0]}, steps[1..]))
  }

  function AfterRun(toHandle: map<string, Class>, steps: seq<string>): map<string, Class>
    decreases |steps|
  {
    if steps == [] then toHandle else AfterRun(toHandle - {steps[0]}, steps[1..])
  }

  /** A pending class whose base neither has a struct nor is pending is
      never handled, however long the loop runs: the loop spins forever. */
  lemma {:induction false} StuckForever(toHandle: map<string, Class>, structs: set<string>, steps: seq<string>, c: string)
    requires ValidRun(toHandle, structs, steps)
    requires c in toHandle && BaseOf(toHandle[c]) !in structs && BaseOf(toHandle[c]) !in toHandle
    ensures c in AfterRun(toHandle, steps)
    decreases |steps|
  {
    if steps != [] {
      var n := steps[0];
      assert n != c && n != BaseOf(toHandle[c]);
      assert (toHandle - {n})[c] == toHandle[c];
      StuckForever(toHandle - {n}, structs + {n}, steps[1..], c);
    }
  }

  /** The stall of a class C(B) whose base B has two bases: B is skipped,
      so C stays pending. */
  lemma MultiBaseParentStalls(modName: string, b: Class, c: Class)
    requires b.name != c.name && b.initMethod.Some? && |b.bases| == 2
    requires c.initMethod.Some? && c.bases == [Base(b.name, modName)] && modName != "builtins"
    ensures var classes := [b, c];
      c.name in PendingMap(classes, modName)
      && BaseOf(PendingMap(classes, modName)[c.name]) !in RootNames(classes, modName)
      && BaseOf(PendingMap(classes, modName)[c.name]) !in PendingMap(classes, modName)
  {
    var classes := [b, c];
    assert classes[..1] == [b] && [b][..0] == [];
    assert SkippedClass(b) && IsPendingClass(c, modName);
    assert PendingMap([b], modName) == map[] && RootNames([b], modName) == [];
    assert PendingMap(classes, modName) == map[c.name := c];
    assert RootNames(classes, modName) == [];
  }

  // ---------------------------------------------------------------------
  // Constructors, methods and properties
  // ---------------------------------------------------------------------

  /** genMethod's stripping of a special-method name as written: slicing
      name[2:len(name)-2] for any name with "__" at both ends, which is out
      of range for "__" and "___". */
  function DunderStripAsWritten(name: string): (r: Outcome<string>)
    ensures r.Panic? <==> name == "__" || name == "___"
  {
    if HasPrefix(name, "__") && HasSuffix(name, "__") then
      if |name| < 4 then
        assert |name| == 2 ==> name == "__";
        assert |name| == 3 ==> name == [name[0], name[1], name[2]] == "___";
        Panic
      else Ok(name[2..|name| - 2])
    else Ok(name)
  }

  /** The as-written stripping fails on a method named "__". */
  lemma DunderPanics()
    ensures DunderStripAsWritten("__").Panic? && DunderStripAsWritten("___").Panic?
  {
  }

  /** The intended stripping: "__x__" becomes x, any other name is kept. */
  function MethodBaseName(name: string): string {
    if |name| >= 4 && HasPrefix(name, "__") && HasSuffix(name, "__") then name[2..|name| - 2] else name
  }

  /** The intended stripping never fails, agrees with the code wherever
      the code does not panic, and undoes the "__" wrapping. */
  lemma MethodBaseNameSound(name: string, x: string)
    ensures DunderStripAsWritten(name).Ok? ==> DunderStripAsWritten(name).value == MethodBaseName(name)
    ensures MethodBaseName("__" + x + "__") == x
  {
    var w := "__" + x + "__";
    assert HasPrefix(w, "__") && HasSuffix(w, "__");
    assert w[2..|w| - 2] == x;
  }

  /** The "//llgo:link" directive of a method. */
  function LlgoLink(funcName: string, clsName: string, methodName: string): string {
    "//llgo:link " + funcName + " py." + clsName + "." + methodName
  }

  /** genConstructor: New<GoName> linked to the class itself. */
  function CtorOf(c: Class, depth: nat := 3): Decl {
    if depth > 0 then CtorOf(c, depth - 1) else
    var funcName := "New" + GoIdent(c.name);
    CtorDecl(funcName, [Linkname(funcName, c.name)])
  }

  lemma CtorUnfold(c: Class, depth: nat := 3)
    ensures CtorOf(c, depth) == CtorOf(c, 0)
  {
    if depth > 0 {
      CtorUnfold(c, depth - 1);
    }
  }

  /** genMethod: the Go name of the stripped name, the doc comments and
      the link to clsName.methodName. */
  function MethodOf(clsName: string, methodName: string, m: Symbol, hasRet: bool, depth: nat := 3): (d: Decl)
    ensures d.MethodDecl? && d.recv == clsName && d.hasRet == hasRet && |d.comments| >= 1
  {
    if depth > 0 then MethodOf(clsName, methodName, m, hasRet, depth - 1) else
    var funcName := GoIdent(MethodBaseName(m.name));
    MethodDecl(clsName, funcName, hasRet, Commented(m.doc, LlgoLink(funcName, clsName, methodName)))
  }

  lemma MethodUnfold(clsName: string, methodName: string, m: Symbol, hasRet: bool, depth: nat := 3)
    ensures MethodOf(clsName, methodName, m, hasRet, depth) == MethodOf(clsName, methodName, m, hasRet, 0)
  {
    if depth > 0 {
      MethodUnfold(clsName, methodName, m, hasRet, depth - 1);
    }
  }

  /** A method's Go name is never a keyword, and its last comment links
      it back to clsName.methodName. */
  lemma MethodNaming(clsName: string, methodName: string, m: Symbol, hasRet: bool)
    ensures var d := MethodOf(clsName, methodName, m, hasRet);
      && d.MethodDecl? && d.recv == clsName && d.hasRet == hasRet
      && d.goName == GoName(MethodBaseName(m.name), -1) && !IsGoKeyword(d.goName)
      && d.comments[|d.comments| - 1] == "//llgo:link " + d.goName + " py." + clsName + "." + methodName
      && (m.doc == "" <==> |d.comments| == 1)
  {
    MethodUnfold(clsName, methodName, m, hasRet);
    GoNameShape(MethodBaseName(m.name), -1);
    GoIdentIsGoName(MethodBaseName(m.name));
  }

  /** The methods of one list, each linked under its own name. */
  function MethodDecls(clsName: string, ms: seq<Symbol>): (ds: seq<Decl>)
    ensures |ds| == |ms|
  {
    if ms == [] then []
    else MethodDecls(clsName, ms[..|ms| - 1]) + [MethodOf(clsName, ms[|ms| - 1].name, ms[|ms| - 1], true)]
  }

  /** genProperties for one property: a getter named after the property,
      linked to __get__ with a result, then a setter Set_<name> linked to
      __set__ without one. */
  function PropertyDecls(clsName: string, p: Property): seq<Decl> {
    (if p.getter != "" then [MethodOf(clsName, "__get__", Symbol(p.name, "", "", p.getter), true)] else [])
    + (if p.setter != "" then [MethodOf(clsName, "__set__", Symbol("Set_" + p.name, "", "", p.setter), false)] else [])
  }

  function PropertiesDecls(clsName: string, ps: seq<Property>): seq<Decl> {
    if ps == [] then []
    else PropertiesDecls(clsName, ps[..|ps| - 1]) + PropertyDecls(clsName, ps[|ps| - 1])
  }

  /** Everything the third loop emits for one class, in order. */
  function ClassMembers(c: Class): seq<Decl> {
    [CtorOf(c)]
    + MethodDecls(c.name, c.instanceMethods) + MethodDecls(c.name, c.classMethods) + MethodDecls(c.name, c.staticMethods)
    + PropertiesDecls(c.name, c.properties)
  }

  function MemberDecls(names: seq<string>, classMap: map<string, Class>): seq<Decl>
    requires forall i :: 0 <= i < |names| ==> names[i] in classMap
  {
    if names == [] then []
    else MemberDecls(names[..|names| - 1], classMap) + ClassMembers(classMap[names[|names| - 1]])
  }

  /** One round of the last loop of genClasses keeps its invariant: the
      members of the i-th listed class follow those before it. */
  lemma MembersLoopStep(names: seq<string>, i: nat, classMap: map<string, Class>,
                        decls0: seq<Decl>, decls: seq<Decl>, decls': seq<Decl>)
    requires i < |names| && forall k :: 0 <= k < |names| ==> names[k] in classMap
    requires decls == decls0 + MemberDecls(names[..i], classMap)
    requires var c := classMap[names[i]];
      decls' == decls + [CtorOf(c)]
        + MethodDecls(c.name, c.instanceMethods) + MethodDecls(c.name, c.classMethods) + MethodDecls(c.name, c.staticMethods)
        + PropertiesDecls(c.name, c.properties)
    ensures decls' == decls0 + MemberDecls(names[..i + 1], classMap)
  {
    var c := classMap[names[i]];
    TakeSnoc(names, i);
    assert names[..i + 1][..i] == names[..i];
    ConcatAssoc6(decls0, MemberDecls(names[..i], classMap), [CtorOf(c)],
      MethodDecls(c.name, c.instanceMethods), MethodDecls(c.name, c.classMethods), MethodDecls(c.name, c.staticMethods),
      PropertiesDecls(c.name, c.properties));
  }

  /** The piece before the first separator. */
  lemma {:induction false} SplitHead(a: string, b: string, sep: char)
    requires sep !in a
    ensures Split(a + [sep] + b, sep)[0] == a
    decreases |a|
  {
    var s := a + [sep] + b;
    if a == [] {
      assert s[0] == sep;
    } else {
      assert s[0] == a[0] && s[1..] == a[1..] + [sep] + b;
      SplitHead(a[1..], b, sep);
      assert a == [a[0]] + a[1..];
    }
  }

  /** A setter's Go name starts with "Set", the first part of "Set_<name>",
      which titling leaves unchanged. */
  lemma SetterName(name: string)
    ensures HasPrefix(GoIdent("Set_" + name), "Set")
  {
    GoIdentIsGoName("Set_" + name);
    var s := "Set_" + name;
    SetterParts(name);
    TitledSetHead(Split(s[..TrailStart(s)], '_'));
    var c := Core(s, -1);
    assert c[..3] == "Set";
    var n := c + s[TrailStart(s)..];
    assert n[..3] == "Set";
    assert (n + "_")[..3] == "Set";
  }

  /** The setter of a property n is named "Set" followed by genName of n,
      whenever n has a byte other than '_': "Set_age" becomes "SetAge". */
  lemma SetterGoName(n: string)
    requires exists i :: 0 <= i < |n| && n[i] != '_'
    ensures GoIdent("Set_" + n) == "Set" + GoIdent(n)
  {
    GoIdentIsGoName("Set_" + n);
    GoIdentIsGoName(n);
    var s := "Set_" + n;
    var x := Core(n, -1) + n[TrailStart(n)..];
    SetterCoreTrail(n);
    NotKeywordUpper("Set" + x);
    CoreTrailNotKeyword(n);
    assert GoName(n, -1) == x;
    assert GoName(s, -1) == "Set" + x;
  }

  /** Before the keyword check, the genName of "Set_" + n is "Set"
      followed by that of n. */
  lemma SetterCoreTrail(n: string)
    requires exists i :: 0 <= i < |n| && n[i] != '_'
    ensures var s := "Set_" + n;
      Core(s, -1) + s[TrailStart(s)..] == "Set" + (Core(n, -1) + n[TrailStart(n)..])
  {
    var k := TrailStart(n);
    SetTrail(n);
    SetCore(n, k);
    ConcatAssoc("Set", Core(n, -1), n[k..]);
  }

  /** The trailing '_' run of "Set_" + n is that of n. */
  lemma SetTrail(n: string)
    requires exists i :: 0 <= i < |n| && n[i] != '_'
    ensures var s, k := "Set_" + n, TrailStart(n);
      k > 0 && TrailStart(s) == 4 + k && s[4 + k..] == n[k..]
  {
    var k := TrailStart(n);
    var i :| 0 <= i < |n| && n[i] != '_';
    assert i < k;
    var s := "Set_" + n;
    assert |"Set_"| == 4;
    AfterPrefix("Set_", n, k);
    TrailStartUnique(s, 4 + k);
  }

  lemma AfterPrefix(p: string, n: string, k: nat)
    requires 0 < k <= |n|
    ensures (p + n)[|p| + k - 1] == n[k - 1]
    ensures (p + n)[|p| + k..] == n[k..]
    ensures forall i :: |p| + k <= i < |p + n| ==> (p + n)[i] == n[i - |p|]
  {
  }

  /** The core of "Set_" + n is "Set" followed by the core of n. */
  lemma SetCore(n: string, k: nat)
    requires k == TrailStart(n) && k > 0
    ensures TrailStart("Set_" + n) == 4 + k ==> Core("Set_" + n, -1) == "Set" + Core(n, -1)
  {
    var s := "Set_" + n;
    if TrailStart(s) == 4 + k {
      assert s[..4 + k] == "Set" + ['_'] + n[..k];
      SplitAfter("Set", n[..k], '_');
      var ps := Split(n[..k], '_');
      var tp := TitleParts(["Set"] + ps, -1);
      assert Title("Set") == "Set";
      assert tp == ["Set"] + TitleParts(ps, -1);
      var q := TitleParts(ps, -1);
      assert tp[1..] == q;
      assert Join(tp, "") == "Set" + "" + Join(q, "");
    }
  }

  /** A string that starts with an upper-case letter is not a keyword. */
  lemma NotKeywordUpper(w: string)
    requires w != [] && 'A' <= w[0] <= 'Z'
    ensures !IsGoKeyword(w)
  {
    if IsGoKeyword(w) {
      KeywordsAreLowerWords(w);
    }
  }

  /** A string that is empty or does not start with a lower-case letter is
      not a keyword. */
  lemma NotKeywordFirst(w: string)
    requires w == [] || !IsLower(w[0])
    ensures !IsGoKeyword(w)
  {
    if IsGoKeyword(w) {
      KeywordsAreLowerWords(w);
    }
  }

  /** genName with every part titled never needs the keyword '_'. */
  lemma CoreTrailNotKeyword(n: string)
    ensures !IsGoKeyword(Core(n, -1) + n[TrailStart(n)..])
  {
    var c, t := Core(n, -1), n[TrailStart(n)..];
    CoreTitledFirst(n);
    var w := c + t;
    if w != [] {
      if c == [] {
        assert w[0] == t[0] == '_';
      } else {
        assert w[0] == c[0];
      }
    }
    NotKeywordFirst(w);
  }

  /** Split of a separator-free word, the separator and the rest. */
  lemma {:induction false} SplitAfter(a: string, b: string, sep: char)
    requires sep !in a
    ensures Split(a + [sep] + b, sep) == [a] + Split(b, sep)
    decreases |a|
  {
    var s := a + [sep] + b;
    if a == [] {
      assert s[0] == sep && s[1..] == b;
    } else {
      assert s[0] == a[0] && s[1..] == a[1..] + [sep] + b;
      SplitAfter(a[1..], b, sep);
      assert a == [a[0]] + a[1..];
    }
  }

  /** The property "age" gets the setter "SetAge". */
  lemma SetterAgeExample()
    ensures GoIdent("Set_age") == "SetAge"
  {
    SetAgeTexts();
    SetterGoName("age");
    GoIdentIsGoName("age");
    AgeGoName();
  }

  lemma SetAgeTexts()
    ensures "Set_" + "age" == "Set_age" && "Set" + "Age" == "SetAge"
    ensures exists i :: 0 <= i < |"age"| && "age"[i] != '_'
  {
    assert "age"[0] != '_';
  }

  lemma AgeGoName()
    ensures GoName("age", -1) == "Age"
  {
    AgeCore();
    assert "age"[3..] == [];
    assert Core("age", -1) + "age"[TrailStart("age")..] == "Age" + [] == "Age";
    NotKeywordUpper("Age");
  }

  lemma AgeCore()
    ensures TrailStart("age") == 3 && Core("age", -1) == "Age"
  {
    TrailStartUnique("age", 3);
    assert "age"[..3] == "age";
    assert Split("age", '_') == ["age"];
    AgeTitle();
    assert TitleParts(["age"], -1) == ["Age"];
    assert Join(["Age"], "") == "Age";
  }

  lemma AgeTitle()
    ensures Title("age") == "Age"
  {
    assert ('a' as int - 'a' as int + 'A' as int) as char == 'A';
    assert "age"[1..] == "ge";
  }

  /** The first '_'-separated part of "Set_<name>", its trailing '_' run
      left out, is "Set". */
  lemma SetterParts(name: string)
    ensures var s := "Set_" + name;
      Split(s[..TrailStart(s)], '_') != [] && Split(s[..TrailStart(s)], '_')[0] == "Set"
  {
    var s := "Set_" + name;
    var k := TrailStart(s);
    assert s[2] == 't';
    assert k >= 3;
    var w := s[..k];
    if k == 3 {
      assert w == "Set";
    } else {
      assert w == "Set" + "_" + w[4..];
      SplitHead("Set", w[4..], '_');
    }
  }

  /** Titling leaves a first part "Set" unchanged at the head of the
      joined core. */
  lemma TitledSetHead(parts: seq<string>)
    requires parts != [] && parts[0] == "Set"
    ensures HasPrefix(Join(TitleParts(parts, -1), ""), "Set")
  {
    var tp := TitleParts(parts, -1);
    assert Title("Set") == "Set";
    assert tp[0] == "Set";
    var c := Join(tp, "");
    if |tp| == 1 {
      assert c == tp[0];
    } else {
      assert c == tp[0] + "" + Join(tp[1..], "");
    }
    assert c[..3] == "Set";
  }

  // ---------------------------------------------------------------------
  // Steps of the generator loops
  // ---------------------------------------------------------------------

  lemma NamesAppend(fs: seq<Symbol>, sym: Symbol)
    ensures NamesOf(fs + [sym]) == NamesOf(fs) + {sym.name}
  {
    var l := fs + [sym];
    NamesOfMembers(fs);
    NamesOfMembers(l);
    forall n | n in NamesOf(l)
      ensures n in NamesOf(fs) + {sym.name}
    {
      var i :| 0 <= i < |l| && l[i].name == n;
      if i < |fs| {
        assert fs[i] == l[i];
      }
    }
    forall n | n in NamesOf(fs)
      ensures n in NamesOf(l)
    {
      var i :| 0 <= i < |fs| && fs[i].name == n;
      assert l[i] == fs[i];
    }
    assert l[|fs|] == sym;
  }

  lemma VarDeclsAppend(vs: seq<Symbol>, ns: seq<string>, sym: Symbol, name: string)
    requires |vs| == |ns|
    ensures VarDecls(vs + [sym], ns + [name]) == VarDecls(vs, ns) + [VarDecl(name, [Linkname(name, sym.name)])]
  {
    var l, r := VarDecls(vs + [sym], ns + [name]), VarDecls(vs, ns) + [VarDecl(name, [Linkname(name, sym.name)])];
    assert |l| == |r|;
    forall i | 0 <= i < |l|
      ensures l[i] == r[i]
    {
      if i < |vs| {
        assert (vs + [sym])[i] == vs[i] && (ns + [name])[i] == ns[i];
      }
    }
  }

  /** A root class's name is neither pending nor an earlier root. */
  lemma RootIsNew(classes: seq<Class>, modName: string, i: nat)
    requires DistinctClassNames(classes) && i < |classes| && IsRootClass(classes[i], modName)
    ensures classes[i].name !in PendingMap(classes, modName)
    ensures classes[i].name !in RootNames(classes[..i], modName)
  {
    var n := classes[i].name;
    if n in PendingMap(classes, modName) {
      PendingMapFrom(classes, modName, n);
    }
    if n in RootNames(classes[..i], modName) {
      var k :| 0 <= k < |RootNames(classes[..i], modName)| && RootNames(classes[..i], modName)[k] == n;
      RootNamesFrom(classes[..i], modName, k);
      assert false;
    }
  }

  lemma {:induction false} StructDeclsSplit(names: seq<string>, k: nat, pending: map<string, Class>)
    requires k <= |names|
    ensures StructDecls(names, pending) == StructDecls(names[..k], pending) + StructDecls(names[k..], pending)
    decreases |names|
  {
    if k == |names| {
      assert names[..k] == names && names[k..] == [];
    } else {
      var init, n := names[..|names| - 1], names[|names| - 1];
      StructDeclsSplit(init, k, pending);
      assert init[..k] == names[..k];
      assert names[k..] == init[k..] + [n];
      StructDeclsAppend(init[k..], n, pending);
      ConcatAssoc(StructDecls(init[..k], pending), StructDecls(init[k..], pending), [StructDecl(GoIdent(n), ParentOf(pending, n))]);
    }
  }

  lemma DropAppend<T>(a: seq<T>, x: T, k: nat)
    requires k <= |a|
    ensures (a + [x])[k..] == a[k..] + [x]
  {
  }

  lemma TakeAppend<T>(a: seq<T>, x: T, k: nat)
    requires k <= |a|
    ensures (a + [x])[..k] == a[..k]
  {
  }

  lemma MapUpdateKeys<K, V>(m: map<K, V>, k: K, v: V)
    ensures m[k := v].Keys == m.Keys + {k}
  {
  }

  lemma MapRemoveSize<K, V>(m: map<K, V>, k: K)
    requires k in m
    ensures |m - {k}| == |m| - 1
  {
    assert (m - {k}).Keys == m.Keys - {k};
  }

  lemma ConcatAssoc6<T>(a: seq<T>, b: seq<T>, c1: seq<T>, c2: seq<T>, c3: seq<T>, c4: seq<T>, c5: seq<T>)
    ensures a + b + c1 + c2 + c3 + c4 + c5 == a + (b + (c1 + c2 + c3 + c4 + c5))
  {
  }

  /** One symbol of the loop of genVars, in terms of VarNames and
      Visible. */
  lemma VarsStep(syms: seq<Symbol>, i: nat, used: set<string>)
    requires i < |syms|
    ensures IsHidden(syms[i].name) ==>
      VarNames(syms[i..], used) == VarNames(syms[i + 1..], used) && Visible(syms[i..]) == Visible(syms[i + 1..])
    ensures !IsHidden(syms[i].name) ==>
      var n := Fresh(GoIdent(syms[i].name), used);
      VarNames(syms[i..], used) == [n] + VarNames(syms[i + 1..], used + {n})
      && Visible(syms[i..]) == [syms[i]] + Visible(syms[i + 1..])
  {
    assert syms[i..][0] == syms[i] && syms[i..][1..] == syms[i + 1..];
  }

}
