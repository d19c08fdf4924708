// The generator context of tool/pygen: the skip list and the declarations
// it accumulates, and the struct table genClasses fills. Each method is
// proved against the functions of PyGenSpec.
module PyGen {
  import opened GoStrings
  import opened PySig
  import opened PyGenNames
  import opened PyGenParams
  import opened PyGenSpec

  class Context {
    /** Symbols reported as skipped. */
    var skips: seq<Symbol>
    /** Declarations added to the Go package, in order. */
    var decls: seq<Decl>
    /** The struct generated for each class name, by what it embeds. */
    var structsMap: map<string, Parent>
    /** Class names in the order their structs were generated. */
    var structsList: seq<string>

    /** createGoPackage: nothing skipped or declared yet. */
    constructor ()
      ensures skips == [] && decls == [] && structsMap == map[] && structsList == []
    {
      skips := [];
      decls := [];
      structsMap := map[];
      structsList := [];
    }

    /** genFunc: a hidden name is ignored, a missing signature is
        skipped, anything else is declared with its doc and linkname. The
        signature must not be one on which the parser panics. */
    method GenFunc(sym: Symbol)
      requires !FuncEffectOf(sym).Panics?
      modifies this
      ensures skips == old(skips) + SkipsOf(sym)
      ensures decls == old(decls) + DeclsOf(sym)
      ensures structsMap == old(structsMap) && structsList == old(structsList)
    {
      FuncEffectUnfold(sym);
      var name := sym.name;
      if |name| == 0 || name[0] == '_' {
        return;
      }
      if sym.sig == "" {
        skips := skips + [sym];
        return;
      }
      var r := GenParams(sym.sig);
      var ps, variadic := r.value.0, r.value.1;
      var goName := GenIdent(name);
      var docList := GenDoc(sym.doc);
      if |docList| > 0 {
        docList := docList + ["//"];
      }
      docList := docList + [Linkname(goName, name)];
      decls := decls + [FuncDecl(goName, ps, variadic, docList)];
    }

    /** genMod: the functions, then the variables. */
    method GenMod(functions: seq<Symbol>, variables: seq<Symbol>)
      requires forall s :: s in FirstByName(functions, {}) ==> !FuncEffectOf(s).Panics?
      modifies this
      ensures skips == old(skips) + FuncsSkips(FirstByName(functions, {}))
      ensures decls == old(decls) + FuncsDecls(FirstByName(functions, {})) + VarDecls(Visible(variables), VarNames(variables, {}))
      ensures structsMap == old(structsMap) && structsList == old(structsList)
    {
      GenFuncs(functions);
      GenVars(variables);
    }

    /** The function loop of genMod: each name once, the first occurrence
        kept. */
    method GenFuncs(functions: seq<Symbol>)
      requires forall s :: s in FirstByName(functions, {}) ==> !FuncEffectOf(s).Panics?
      modifies this
      ensures skips == old(skips) + FuncsSkips(FirstByName(functions, {}))
      ensures decls == old(decls) + FuncsDecls(FirstByName(functions, {}))
      ensures structsMap == old(structsMap) && structsList == old(structsList)
    {
      var funcMap: set<string> := {};
      var i := 0;
      while i < |functions|
        invariant 0 <= i <= |functions|
        invariant funcMap == NamesOf(functions[..i])
        invariant skips == old(skips) + FuncsSkips(FirstByName(functions[..i], {}))
        invariant decls == old(decls) + FuncsDecls(FirstByName(functions[..i], {}))
        invariant structsMap == old(structsMap) && structsList == old(structsList)
      {
        var sym := functions[i];
        ghost var s0, d0 := skips, decls;
        FuncsLoopStep(functions, i, old(skips), old(decls), s0, d0);
        if sym.name !in funcMap {
          funcMap := funcMap + {sym.name};
          GenFunc(sym);
          FuncsLoopNew(functions, i, old(skips), old(decls), s0, d0, skips, decls);
        }
        i := i + 1;
      }
      assert functions[..|functions|] == functions;
    }

    /** genVars: every visible variable declared under genName of its
        name, with '_' appended until the name is unused. */
    method GenVars(syms: seq<Symbol>)
      modifies this
      ensures decls == old(decls) + VarDecls(Visible(syms), VarNames(syms, {}))
      ensures skips == old(skips) && structsMap == old(structsMap) && structsList == old(structsList)
    {
      var names: set<string> := {};
      ghost var ns: seq<string> := [];
      ghost var vs: seq<Symbol> := [];
      var i := 0;
      while i < |syms|
        invariant 0 <= i <= |syms|
        invariant |vs| == |ns|
        invariant VarNames(syms, {}) == ns + VarNames(syms[i..], names)
        invariant Visible(syms) == vs + Visible(syms[i..])
        invariant decls == old(decls) + VarDecls(vs, ns)
        invariant skips == old(skips) && structsMap == old(structsMap) && structsList == old(structsList)
      {
        var sym := syms[i];
        VarsLoopStep(syms, i, names, ns, vs, old(decls), decls);
        if sym.name == "" || sym.name[0] == '_' {
          i := i + 1;
          continue;
        }
        var base := GenIdent(sym.name);
        var name := FreshName(base, names);
        names := names + {name};
        decls := decls + [VarDecl(name, [Linkname(name, sym.name)])];
        ns, vs := ns + [name], vs + [sym];
        i := i + 1;
      }
      assert syms[i..] == [];
      assert ns + [] == ns && vs + [] == vs;
    }

    /** The conflict loop of genVars. */
    static method FreshName(base: string, names: set<string>) returns (name: string)
      ensures name == Fresh(base, names)
    {
      name := base;
      ghost var k: nat := 0;
      assert base + Underscores(0) == base;
      while name in names
        invariant name == base + Underscores(k)
        invariant FreshCount(base, names, k) == FreshCount(base, names, 0)
        decreases MaxLen(names) + 1 - |name|
      {
        assert |name| <= MaxLen(names);
        name := name + "_";
        k := k + 1;
        assert name == base + Underscores(k);
      }
    }

    /** genStruct: a struct for the class, embedding py.Object or the
        struct of its base, recorded in structsMap and structsList. */
    method GenStruct(c: Class, hasParent: bool)
      requires hasParent ==> BaseOf(c) in structsMap
      modifies this
      ensures structsMap == old(structsMap)[c.name := if hasParent then Embeds(BaseOf(c)) else PyObject]
      ensures structsList == old(structsList) + [c.name]
      ensures decls == old(decls) + [StructDecl(GoIdent(c.name), if hasParent then Embeds(BaseOf(c)) else PyObject)]
      ensures skips == old(skips)
    {
      var goName := GenIdent(c.name);
      var parent := if hasParent then Embeds(BaseOf(c)) else PyObject;
      decls := decls + [StructDecl(goName, parent)];
      structsMap := structsMap[c.name := parent];
      structsList := structsList + [c.name];
    }

    /** genClasses: skip the unsupported classes, generate the structs in
        inheritance order, then the members of each struct's class in that
        order. */
    method GenClasses(classes: seq<Class>, modName: string, ghost rank: map<string, nat>)
      requires BasesPresent(classes) && DistinctClassNames(classes)
      requires structsList == [] && structsMap == map[]
      requires Ranked(PendingMap(classes, modName), Elems(RootNames(classes, modName)), rank)
      modifies this
      ensures skips == old(skips) + ClassSkips(classes)
      ensures var roots, pending := RootNames(classes, modName), PendingMap(classes, modName);
        && |roots| <= |structsList|
        && structsList[..|roots|] == roots
        && (forall n :: n in structsList[|roots|..] <==> n in pending)
        && (forall i, j :: 0 <= i < j < |structsList| ==> structsList[i] != structsList[j])
        && (forall n :: n in structsMap <==> n in structsList)
        && (forall n :: n in structsMap ==> structsMap[n] == ParentOf(pending, n))
        && InheritanceOrder(structsList, pending)
      ensures forall i :: 0 <= i < |structsList| ==> structsList[i] in ClassMap(classes)
      ensures decls == old(decls) + StructDecls(structsList, PendingMap(classes, modName))
                     + MemberDecls(structsList, ClassMap(classes))
    {
      ghost var pending := PendingMap(classes, modName);
      var toHandle, sk, ds := FirstPass(classes, modName);
      WorklistStart(classes, modName, toHandle, sk, structsList, structsMap, ds);
      ghost var nRoots := |structsList|;
      ghost var d1 := decls;
      Drain(toHandle, pending, nRoots, rank);
      WorklistDone(pending, nRoots, structsList, structsMap);
      StructDeclsSplit(structsList, nRoots, pending);
      ConcatAssoc(old(decls), StructDecls(structsList[..nRoots], pending), StructDecls(structsList[nRoots..], pending));
      ListedClasses(classes, modName, structsList);
      var classMap := BuildClassMap(classes);
      ghost var d2 := decls;
      GenMembers(classMap);
    }

    /** The first loop of genClasses: skips, py.Object structs, and the
        pending classes by name; sk and ds are what it adds to skips and
        decls. */
    method FirstPass(classes: seq<Class>, modName: string)
      returns (toHandle: map<string, Class>, ghost sk: seq<Symbol>, ghost ds: seq<Decl>)
      requires BasesPresent(classes) && DistinctClassNames(classes)
      requires structsList == [] && structsMap == map[]
      modifies this
      ensures FirstInv(classes, modName, PendingMap(classes, modName), toHandle, sk, structsList, structsMap, ds)
      ensures skips == old(skips) + sk && decls == old(decls) + ds
    {
      ghost var pending := PendingMap(classes, modName);
      toHandle := map[];
      sk, ds := [], [];
      assert classes[..0] == [];
      FirstUnfold([], modName, pending, toHandle, sk, structsList, structsMap, ds);
      var i := 0;
      while i < |classes|
        invariant 0 <= i <= |classes|
        invariant FirstInv(classes[..i], modName, pending, toHandle, sk, structsList, structsMap, ds)
        invariant skips == old(skips) + sk && decls == old(decls) + ds
      {
        var c := classes[i];
        if c.initMethod.None? || |c.bases| > 1 {
          FirstSkipStep(classes, modName, i, toHandle, sk, structsList, structsMap, ds);
          skips := skips + [SkipSymbol(c)];
          sk := sk + [SkipSymbol(c)];
        } else if (c.bases[0].name == "object" && c.bases[0].modName == "builtins") || c.bases[0].modName != modName {
          FirstRootStep(classes, modName, i, toHandle, sk, structsList, structsMap, ds);
          GenStruct(c, false);
          ds := ds + [StructDecl(GoIdent(c.name), PyObject)];
        } else {
          FirstPendingStep(classes, modName, i, toHandle, sk, structsList, structsMap, ds);
          toHandle := toHandle[c.name := c];
        }
        i := i + 1;
      }
      assert classes[..|classes|] == classes;
    }

    /** The worklist loop of genClasses: while classes are pending, give
        a struct to one whose base already has one. */
    method Drain(toHandle: map<string, Class>, ghost pending: map<string, Class>, ghost nRoots: nat, ghost rank: map<string, nat>)
      requires toHandle == pending && nRoots == |structsList|
      requires WorkInv(pending, pending, nRoots, structsList) && ParentInv(pending, structsList, structsMap)
      requires Ranked(pending, structsMap.Keys, rank)
      modifies this
      ensures nRoots <= |structsList| && structsList[..nRoots] == old(structsList)
      ensures WorkInv(map[], pending, nRoots, structsList) && ParentInv(pending, structsList, structsMap)
      ensures decls == old(decls) + StructDecls(structsList[nRoots..], pending)
      ensures skips == old(skips)
    {
      var work := toHandle;
      assert structsList[nRoots..] == [];
      while |work| > 0
        invariant nRoots <= |structsList| && structsList[..nRoots] == old(structsList)
        invariant WorkInv(work, pending, nRoots, structsList) && ParentInv(pending, structsList, structsMap)
        invariant Ranked(work, structsMap.Keys, rank)
        invariant decls == old(decls) + StructDecls(structsList[nRoots..], pending)
        invariant skips == old(skips)
        decreases |work|
      {
        ghost var some :| some in work;
        FindReady(work, structsMap.Keys, rank, some);
        var n :| n in work && BaseOf(work[n]) in structsMap;
        var c := work[n];
        DrainStep(work, pending, nRoots, structsList, structsMap, rank, old(decls), decls, n);
        GenStruct(c, true);
        work := work - {n};
      }
    }

    /** classMap: every class by name, a later one replacing an earlier. */
    static method BuildClassMap(classes: seq<Class>) returns (classMap: map<string, Class>)
      ensures classMap == ClassMap(classes)
    {
      classMap := map[];
      var i := 0;
      while i < |classes|
        invariant 0 <= i <= |classes|
        invariant classMap == ClassMap(classes[..i])
      {
        assert classes[..i + 1][..i] == classes[..i];
        classMap := classMap[classes[i].name := classes[i]];
        i := i + 1;
      }
      assert classes[..|classes|] == classes;
    }

    /** The last loop of genClasses: constructor, methods and properties
        of each generated class, in structsList order. */
    method GenMembers(classMap: map<string, Class>)
      requires forall i :: 0 <= i < |structsList| ==> structsList[i] in classMap
      modifies this
      ensures skips == old(skips) && structsMap == old(structsMap) && structsList == old(structsList)
      ensures decls == old(decls) + MemberDecls(structsList, classMap)
    {
      var i := 0;
      while i < |structsList|
        invariant 0 <= i <= |structsList|
        invariant skips == old(skips) && structsMap == old(structsMap) && structsList == old(structsList)
        invariant forall k :: 0 <= k < |structsList| ==> structsList[k] in classMap
        invariant decls == old(decls) + MemberDecls(structsList[..i], classMap)
      {
        var c := classMap[structsList[i]];
        ghost var d0 := decls;
        GenClassMembers(c);
        MembersLoopStep(structsList, i, classMap, old(decls), d0, decls);
        i := i + 1;
      }
      assert structsList[..|structsList|] == structsList;
    }

    /** Constructor, methods and properties of one class: ClassMembers(c)
        appended piece by piece. */
    method GenClassMembers(c: Class)
      modifies this
      ensures decls == old(decls) + [CtorOf(c)]
        + MethodDecls(c.name, c.instanceMethods) + MethodDecls(c.name, c.classMethods) + MethodDecls(c.name, c.staticMethods)
        + PropertiesDecls(c.name, c.properties)
      ensures skips == old(skips) && structsMap == old(structsMap) && structsList == old(structsList)
    {
      GenConstructor(c);
      GenMethods(c);
      GenProperties(c);
    }

    /** genConstructor: New<GoName>, linked to the class. */
    method GenConstructor(c: Class)
      modifies this
      ensures decls == old(decls) + [CtorOf(c)]
      ensures skips == old(skips) && structsMap == old(structsMap) && structsList == old(structsList)
    {
      CtorUnfold(c);
      var goName := GenIdent(c.name);
      var funcName := "New" + goName;
      LinknameText(funcName, c.name);
      decls := decls + [CtorDecl(funcName, ["//go:linkname " + funcName + " py." + c.name])];
    }

    /** genMethods: instance, class and static methods, in that order. */
    method GenMethods(c: Class)
      modifies this
      ensures decls == old(decls) + MethodDecls(c.name, c.instanceMethods)
        + MethodDecls(c.name, c.classMethods) + MethodDecls(c.name, c.staticMethods)
      ensures skips == old(skips) && structsMap == old(structsMap) && structsList == old(structsList)
    {
      GenMethodList(c.name, c.instanceMethods);
      GenMethodList(c.name, c.classMethods);
      GenMethodList(c.name, c.staticMethods);
    }

    method GenMethodList(clsName: string, ms: seq<Symbol>)
      modifies this
      ensures decls == old(decls) + MethodDecls(clsName, ms)
      ensures skips == old(skips) && structsMap == old(structsMap) && structsList == old(structsList)
    {
      var i := 0;
      while i < |ms|
        invariant 0 <= i <= |ms|
        invariant decls == old(decls) + MethodDecls(clsName, ms[..i])
        invariant skips == old(skips) && structsMap == old(structsMap) && structsList == old(structsList)
      {
        assert ms[..i + 1][..i] == ms[..i];
        GenMethod(clsName, ms[i].name, ms[i], true);
        i := i + 1;
      }
      assert ms[..|ms|] == ms;
    }

    /** genMethod: strip a special-method name, name it with genName, and
        link it to clsName.methodName under its doc comments. */
    method GenMethod(clsName: string, methodName: string, m: Symbol, hasRet: bool)
      modifies this
      ensures decls == old(decls) + [MethodOf(clsName, methodName, m, hasRet)]
      ensures skips == old(skips) && structsMap == old(structsMap) && structsList == old(structsList)
    {
      MethodUnfold(clsName, methodName, m, hasRet);
      var name := m.name;
      if |name| >= 4 && HasPrefix(name, "__") && HasSuffix(name, "__") {
        name := name[2..|name| - 2];
      }
      assert name == MethodBaseName(m.name);
      var funcName := GenIdent(name);
      var docList := GenDoc(m.doc);
      if |docList| > 0 {
        docList := docList + ["//"];
      }
      docList := docList + [LlgoLink(funcName, clsName, methodName)];
      assert docList == Commented(m.doc, LlgoLink(funcName, clsName, methodName));
      decls := decls + [MethodDecl(clsName, funcName, hasRet, docList)];
    }

    /** genProperties: for each property its getter, then its setter. */
    method GenProperties(c: Class)
      modifies this
      ensures decls == old(decls) + PropertiesDecls(c.name, c.properties)
      ensures skips == old(skips) && structsMap == old(structsMap) && structsList == old(structsList)
    {
      var ps := c.properties;
      var i := 0;
      while i < |ps|
        invariant 0 <= i <= |ps|
        invariant decls == old(decls) + PropertiesDecls(c.name, ps[..i])
        invariant skips == old(skips) && structsMap == old(structsMap) && structsList == old(structsList)
      {
        assert ps[..i + 1][..i] == ps[..i];
        GenProperty(c.name, ps[i]);
        i := i + 1;
      }
      assert ps[..|ps|] == ps;
    }

    /** One property: its getter, then its setter. */
    method GenProperty(clsName: string, p: Property)
      modifies this
      ensures decls == old(decls) + PropertyDecls(clsName, p)
      ensures skips == old(skips) && structsMap == old(structsMap) && structsList == old(structsList)
    {
      if p.getter != "" {
        GenMethod(clsName, "__get__", Symbol(p.name, "", "", p.getter), true);
      }
      if p.setter != "" {
        GenMethod(clsName, "__set__", Symbol("Set_" + p.name, "", "", p.setter), false);
      }
    }
  }
}
