// The signature dumper of _xtool/pydump/pydump.go: how a signature is read
// off a doc string, the order in which the sources of a signature are
// tried, and the loop that records the functions of a Python module.
// CPython itself is not modelled: what it reports about each attribute of
// the module is the input.
module PyDump {
  import opened GoStrings
  import PyGenSpec

  type Option<T> = PyGenSpec.Option<T>

  datatype Result<T> = Ok(value: T) | Err(msg: string)

  // ---------------------------------------------------------------------
  // extractSignatureFromDoc
  // ---------------------------------------------------------------------

  /** The first paragraph of a doc string: everything before the first
      blank line (the first piece of strings.SplitN(doc, "\n\n", 2), which
      always has at least one piece). */
  function FirstParagraph(doc: string): (p: string)
    ensures |p| <= |doc| && p == doc[..|p|]
    ensures forall i :: 0 <= i < |p| - 1 ==> !(p[i] == '\n' && p[i + 1] == '\n')
  {
    var k := IndexBlankLine(doc);
    if k == -1 then doc else doc[..k]
  }

  /** A signature text in normal form: no white space at either end, and
      every white space byte is a single ' ' between two other bytes. */
  predicate SingleSpaced(r: string) {
    Trimmed(r)
    && forall i :: 0 <= i < |r| && IsSpace(r[i]) ==>
         r[i] == ' ' && i + 1 < |r| && !IsSpace(r[i + 1])
  }

  /** extractSignatureFromDoc: when the first paragraph of the doc string,
      trimmed, starts with the function's name and "(", the text from its
      first "(" on with every run of white space made a single space;
      otherwise "". */
  function ExtractSignature(doc: string, funcName: string): (r: string)
  {
    var firstLine := TrimSpace(FirstParagraph(doc));
    if !HasPrefix(firstLine, funcName + "(") then ""
    else
      var idx := IndexAny(firstLine, {'('});
      if idx == -1 then "" else Join(Fields(firstLine[idx..]), " ")
  }

  /** A single field is its own list of fields. */
  lemma FieldsOfField(w: string)
    requires IsField(w)
    ensures Fields(w) == [w]
  {
    TrimLeftNoSpace(w);
    var k := FirstSpace(w);
    assert k == |w|;
    assert w[..k] == w && w[k..] == [];
  }

  /** A leading space does not change the fields. */
  lemma FieldsSpace(s: string)
    ensures Fields(" " + s) == Fields(s)
  {
    assert (" " + s)[1..] == s;
    assert TrimLeft(" " + s) == TrimLeft(s);
  }

  /** Joining fields with single spaces and splitting the result into
      fields again gives the fields back. */
  lemma {:induction false} FieldsJoin(ws: seq<string>)
    requires forall i :: 0 <= i < |ws| ==> IsField(ws[i])
    ensures Fields(Join(ws, " ")) == ws
  {
    if ws == [] {
    } else if |ws| == 1 {
      FieldsOfField(ws[0]);
    } else {
      var w, rest := ws[0], ws[1..];
      var j := Join(rest, " ");
      var s := w + " " + j;
      assert Join(ws, " ") == s;
      FieldsJoin(rest);
      TrimLeftNoSpace(s);
      var k := FirstSpace(s);
      assert k == |w| by {
        assert s[|w|] == ' ';
        assert forall i :: 0 <= i < |w| ==> s[i] == w[i];
      }
      assert s[..k] == w;
      assert s[k..] == " " + j;
      FieldsSpace(j);
    }
  }

  /** A single-space join of fields is in normal form and, when there is
      at least one field, starts with the first field's first byte. */
  lemma {:induction false} JoinFieldsSingleSpaced(ws: seq<string>)
    requires forall i :: 0 <= i < |ws| ==> IsField(ws[i])
    ensures SingleSpaced(Join(ws, " "))
    ensures ws != [] ==> Join(ws, " ") != [] && Join(ws, " ")[0] == ws[0][0]
  {
    if |ws| > 1 {
      var w, rest := ws[0], ws[1..];
      var j := Join(rest, " ");
      var s := w + " " + j;
      assert Join(ws, " ") == s;
      JoinFieldsSingleSpaced(rest);
      assert j != [] && !IsSpace(j[0]);
      forall i | 0 <= i < |s| && IsSpace(s[i])
        ensures s[i] == ' ' && i + 1 < |s| && !IsSpace(s[i + 1])
      {
        if i > |w| {
          assert s[i] == j[i - |w| - 1];
          assert i + 1 < |s| ==> s[i + 1] == j[i - |w|];
        }
      }
      assert s[|s| - 1] == j[|j| - 1];
    }
  }

  /** The first field of a string that starts with a byte other than white
      space starts with that byte. */
  lemma FieldsFirst(s: string)
    requires s != [] && !IsSpace(s[0])
    ensures Fields(s) != [] && Fields(s)[0][0] == s[0]
  {
    TrimLeftNoSpace(s);
  }

  /** Normalising the white space of a text that starts with "(". */
  lemma NormalizedParams(params: string)
    requires params != [] && params[0] == '('
    ensures var r := Join(Fields(params), " ");
      r != "" && r[0] == '(' && SingleSpaced(r) && Fields(r) == Fields(params)
  {
    FieldsFirst(params);
    FieldsJoin(Fields(params));
    JoinFieldsSingleSpaced(Fields(params));
  }

  /** In a line that starts with "name(", the first "(" is at most at the
      end of the name, and exactly there when the name has none. */
  lemma ParenOfCall(line: string, funcName: string)
    requires HasPrefix(line, funcName + "(")
    ensures var idx := IndexAny(line, {'('});
      0 <= idx <= |funcName| && line[idx] == '('
      && ('(' !in funcName ==> idx == |funcName|)
  {
    var idx := IndexAny(line, {'('});
    IndexAnyFirst(line, {'('});
    assert line[|funcName|] == '(';
    if '(' !in funcName {
      assert idx == |funcName| by {
        assert forall i :: 0 <= i < |funcName| ==> line[i] == funcName[i];
      }
    }
  }

  /** What extractSignatureFromDoc promises: a signature is found exactly
      when the trimmed first paragraph starts with "name("; it then starts
      with "(", is in normal form, and has the same fields as the rest of
      that line from the name's "(" on. */
  lemma ExtractShape(doc: string, funcName: string)
    ensures var r := ExtractSignature(doc, funcName);
      var line := TrimSpace(FirstParagraph(doc));
      (r != "" <==> HasPrefix(line, funcName + "("))
      && (r != "" ==> r[0] == '(' && SingleSpaced(r))
      && ('(' !in funcName && r != "" ==> Fields(r) == Fields(line[|funcName|..]))
  {
    var line := TrimSpace(FirstParagraph(doc));
    if HasPrefix(line, funcName + "(") {
      ParenOfCall(line, funcName);
      NormalizedParams(line[IndexAny(line, {'('})..]);
    }
  }

  /** The first blank line of a string is found wherever its first blank
      line is. */
  lemma BlankLineAt(s: string, k: int)
    requires 0 <= k < |s| - 1 && s[k] == '\n' && s[k + 1] == '\n'
    requires forall i :: 0 <= i < k ==> !(s[i] == '\n' && s[i + 1] == '\n')
    ensures IndexBlankLine(s) == k
  {
  }

  /** Only the first paragraph of a doc string is read: what follows its
      first blank line does not change the signature. */
  lemma ExtractIgnoresRest(par: string, rest1: string, rest2: string, funcName: string)
    ensures ExtractSignature(par + "\n\n" + rest1, funcName)
         == ExtractSignature(par + "\n\n" + rest2, funcName)
  {
    var head := par + "\n\n";
    assert head[|par|] == '\n' && head[|par| + 1] == '\n';
    var k := IndexBlankLine(head);
    assert 0 <= k <= |par|;
    var d1, d2 := head + rest1, head + rest2;
    assert forall i :: 0 <= i < |head| ==> d1[i] == head[i] && d2[i] == head[i];
    BlankLineAt(d1, k);
    BlankLineAt(d2, k);
    assert FirstParagraph(d1) == head[..k] == FirstParagraph(d2);
  }

  // ---------------------------------------------------------------------
  // getSignature
  // ---------------------------------------------------------------------

  /** The Python types of the values pydump treats as functions. */
  const PyFuncTypes: set<string> := {
    "ufunc", "method", "function", "method-wrapper",
    "builtin_function_or_method", "_ArrayFunctionDispatcher"
  }

  /** What CPython reports about one attribute value of a module: the name
      of its type, the text of its doc string as the dumper reads it ("" when
      there is none), whether it is callable, and the text of
      inspect.signature when that finds one. */
  datatype PyObject = PyObject(typeName: string, doc: string, callable: bool,
                               inspectSig: Option<string>)

  /** Where a signature was obtained (symbol.SigSource). */
  datatype SigSource = SigSourceDoc | SigSourceInspect | SigSourceParadigm

  datatype Signature = Signature(str: string, source: SigSource)

  /** getSignature: a value that is not callable has none; otherwise the
      first of inspect.signature, the doc string and, for a function type,
      the catch-all "(*args, **kwargs)". */
  function GetSignature(v: PyObject, name: string): (r: Result<Signature>)
  {
    if !v.callable then Err("not callable")
    else if v.inspectSig.Some? then Ok(Signature(v.inspectSig.value, SigSourceInspect))
    else
      var fromDoc := ExtractSignature(v.doc, name);
      if fromDoc != "" then Ok(Signature(fromDoc, SigSourceDoc))
      else if v.typeName in PyFuncTypes then
        Ok(Signature("(*args, **kwargs)", SigSourceParadigm))
      else Err("failed to get signature")
  }

  /** The order in which the sources are tried: inspect wins whenever it
      has an answer, the doc string when inspect has none, the catch-all
      only when neither has; and there is no signature exactly when the
      value is not callable or is no function and has no other source. A
      signature from the doc string starts with "(" and is in normal form. */
  lemma GetSignaturePrecedence(v: PyObject, name: string)
    ensures var r := GetSignature(v, name);
      var fromDoc := ExtractSignature(v.doc, name);
      (r.Err? <==> !v.callable
                   || (v.inspectSig.None? && fromDoc == "" && v.typeName !in PyFuncTypes))
      && (v.callable && v.inspectSig.Some? ==> r == Ok(Signature(v.inspectSig.value, SigSourceInspect)))
      && (r.Ok? && r.value.source == SigSourceDoc <==>
            v.callable && v.inspectSig.None? && fromDoc != "")
      && (r.Ok? && r.value.source == SigSourceDoc ==>
            r.value.str[0] == '(' && SingleSpaced(r.value.str))
      && (r.Ok? && r.value.source == SigSourceParadigm ==>
            v.typeName in PyFuncTypes && fromDoc == "" && r.value.str == "(*args, **kwargs)")
  {
    ExtractShape(v.doc, name);
  }

  /** A value of a function type that is callable always has a signature;
      for one that is not, the error is "not callable". */
  lemma FunctionsHaveSignatures(v: PyObject, name: string)
    requires v.typeName in PyFuncTypes
    ensures GetSignature(v, name).Ok? <==> v.callable
    ensures GetSignature(v, name).Err? ==> GetSignature(v, name).msg == "not callable"
  {
  }

  // ---------------------------------------------------------------------
  // pydump
  // ---------------------------------------------------------------------

  /** One key of the module's dictionary and the value GetAttr finds for
      it, if any. */
  datatype Entry = Entry(key: string, val: Option<PyObject>)

  /** A module as import finds it: not importable, without dictionary
      keys, or with its keys and their values in dictionary order. */
  datatype PyModule = ImportFailed | NoDictKeys | Imported(entries: seq<Entry>)

  /** symbol.Symbol as pydump fills it in for a function. */
  datatype Function = Function(name: string, typ: string, doc: string, sig: Signature)

  /** symbol.Module */
  datatype Module = Module(name: string, functions: seq<Function>)

  /** An entry pydump records: it has a value of a function type. */
  predicate IsFuncEntry(e: Entry) {
    e.val.Some? && e.val.value.typeName in PyFuncTypes
  }

  /** The entries pydump records, in order. */
  function FuncEntries(entries: seq<Entry>): (fe: seq<Entry>)
    ensures |fe| <= |entries|
    ensures forall i :: 0 <= i < |fe| ==> IsFuncEntry(fe[i])
  {
    if entries == [] then []
    else if IsFuncEntry(entries[0]) then [entries[0]] + FuncEntries(entries[1..])
    else FuncEntries(entries[1..])
  }

  function FunctionOf(e: Entry, sig: Signature): Function
    requires e.val.Some?
  {
    Function(e.key, e.val.value.typeName, e.val.value.doc, sig)
  }

  /** The functions recorded for `entries`, or the first error. */
  function DumpEntries(entries: seq<Entry>): Result<seq<Function>>
  {
    if entries == [] then Ok([])
    else if !IsFuncEntry(entries[0]) then DumpEntries(entries[1..])
    else
      var e := entries[0];
      match GetSignature(e.val.value, e.key)
      case Err(m) => Err(m)
      case Ok(sig) =>
        match DumpEntries(entries[1..])
        case Err(m) => Err(m)
        case Ok(rest) => Ok([FunctionOf(e, sig)] + rest)
  }

  /** The result of pydump for a module named `moduleName`. */
  function PydumpSpec(moduleName: string, m: PyModule): Result<Module>
  {
    match m
    case ImportFailed => Err("failed to import module " + moduleName)
    case NoDictKeys => Err("failed to get dict keys of " + moduleName)
    case Imported(entries) =>
      match DumpEntries(entries)
      case Err(msg) => Err(msg)
      case Ok(fs) => Ok(Module(moduleName, fs))
  }

  /** `done` recorded before what is left to do. */
  function Prepend(done: seq<Function>, r: Result<seq<Function>>): Result<seq<Function>>
  {
    match r
    case Err(m) => Err(m)
    case Ok(rest) => Ok(done + rest)
  }

  /** pydump: walks the keys of the module in order, skips the keys
      without a value and the values that are not functions, records every
      function with its signature, and gives up on the first function
      without one. */
  method Pydump(moduleName: string, m: PyModule) returns (r: Result<Module>)
    ensures r == PydumpSpec(moduleName, m)
  {
    if m.ImportFailed? {
      return Err("failed to import module " + moduleName);
    }
    if m.NoDictKeys? {
      return Err("failed to get dict keys of " + moduleName);
    }
    var entries := m.entries;
    var functions: seq<Function> := [];
    var i := 0;
    assert entries[0..] == entries;
    assert forall rest: seq<Function> :: [] + rest == rest;
    while i < |entries|
      invariant 0 <= i <= |entries|
      invariant DumpEntries(entries) == Prepend(functions, DumpEntries(entries[i..]))
    {
      var e := entries[i];
      assert entries[i..][0] == e && entries[i..][1..] == entries[i + 1..];
      if e.val.None? || e.val.value.typeName !in PyFuncTypes {
        i := i + 1;
        continue;
      }
      var sig := GetSignature(e.val.value, e.key);
      if sig.Err? {
        return Err(sig.msg);
      }
      var f := FunctionOf(e, sig.value);
      assert forall rest :: functions + ([f] + rest) == (functions + [f]) + rest;
      functions := functions + [f];
      i := i + 1;
    }
    assert entries[i..] == [];
    assert functions + [] == functions;
    return Ok(Module(moduleName, functions));
  }

  /** What pydump records on success: one function per entry with a
      value of a function type, in dictionary order, each with its key,
      type, doc string and the signature getSignature finds. */
  lemma {:induction false} DumpRecordsFunctions(entries: seq<Entry>)
    requires DumpEntries(entries).Ok?
    ensures var fs := DumpEntries(entries).value;
      var fe := FuncEntries(entries);
      |fs| == |fe|
      && forall i :: 0 <= i < |fs| ==>
           fs[i].typ in PyFuncTypes
           && GetSignature(fe[i].val.value, fe[i].key) == Ok(fs[i].sig)
           && fs[i] == FunctionOf(fe[i], fs[i].sig)
  {
    if entries != [] {
      DumpRecordsFunctions(entries[1..]);
    }
  }

  /** pydump fails exactly when some function has no signature, and then
      with the error of the first such function. */
  lemma DumpFailsOnFirst(entries: seq<Entry>)
    ensures var fe := FuncEntries(entries);
      (DumpEntries(entries).Err? <==>
         exists i :: 0 <= i < |fe| && GetSignature(fe[i].val.value, fe[i].key).Err?)
      && (DumpEntries(entries).Err? ==>
         exists i :: 0 <= i < |fe|
           && GetSignature(fe[i].val.value, fe[i].key) == Err(DumpEntries(entries).msg)
           && forall j :: 0 <= j < i ==> GetSignature(fe[j].val.value, fe[j].key).Ok?)
  {
    var fe := FuncEntries(entries);
    if DumpEntries(entries).Ok? {
      DumpRecordsFunctions(entries);
    } else {
      var i := DumpErrWitness(entries);
    }
  }

  /** The function whose missing signature makes pydump fail. */
  lemma {:induction false} DumpErrWitness(entries: seq<Entry>) returns (i: nat)
    requires DumpEntries(entries).Err?
    ensures var fe := FuncEntries(entries);
      i < |fe|
      && GetSignature(fe[i].val.value, fe[i].key) == Err(DumpEntries(entries).msg)
      && forall j :: 0 <= j < i ==> GetSignature(fe[j].val.value, fe[j].key).Ok?
  {
    var e := entries[0];
    var fe1 := FuncEntries(entries[1..]);
    if !IsFuncEntry(e) {
      i := DumpErrWitness(entries[1..]);
    } else if GetSignature(e.val.value, e.key).Err? {
      i := 0;
    } else {
      var k := DumpErrWitness(entries[1..]);
      var fe := FuncEntries(entries);
      assert fe == [e] + fe1;
      assert forall j :: 0 < j < |fe| ==> fe[j] == fe1[j - 1];
      i := k + 1;
    }
  }

  /** The only way pydump fails once the module is imported: a value of a
      function type that is not callable. */
  lemma DumpFailsOnlyOnUncallable(entries: seq<Entry>)
    ensures DumpEntries(entries).Err? ==> DumpEntries(entries).msg == "not callable"
    ensures (forall e :: e in entries && IsFuncEntry(e) ==> e.val.value.callable)
            ==> DumpEntries(entries).Ok?
  {
    DumpFailsOnFirst(entries);
    var fe := FuncEntries(entries);
    forall i | 0 <= i < |fe|
      ensures GetSignature(fe[i].val.value, fe[i].key).Err? ==>
        GetSignature(fe[i].val.value, fe[i].key).msg == "not callable"
    {
      FunctionsHaveSignatures(fe[i].val.value, fe[i].key);
    }
    FuncEntriesFrom(entries);
  }

  /** Every entry pydump records is one of the module's entries. */
  lemma {:induction false} FuncEntriesFrom(entries: seq<Entry>)
    ensures forall e :: e in FuncEntries(entries) ==> e in entries
  {
    if entries != [] {
      FuncEntriesFrom(entries[1..]);
    }
  }
}
