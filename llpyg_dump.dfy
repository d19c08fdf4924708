// The older dumper of cmd/llpyg/pydump.go: it records every attribute of
// the module, with a signature string that is empty when none is found,
// instead of only the functions. Its extractSignatureFromDoc is the same
// code as the one of _xtool/pydump/pydump.go and is PyDump.ExtractSignature.
module LLPygDump {
  import opened PyDump
  import PyGenSpec
  import LLPyg

  /** getSignature of cmd/llpyg/pydump.go: "" for a value that is not
      callable; otherwise the first of inspect.signature, the doc string
      and, for a type in llpyg's function set, "(*args, **kwargs)"; "" when
      none applies. */
  function GetSignatureText(v: PyObject, name: string): (sig: string)
  {
    if !v.callable then ""
    else if v.inspectSig.Some? then v.inspectSig.value
    else
      var fromDoc := ExtractSignature(v.doc, name);
      if fromDoc != "" then fromDoc
      else if LLPyg.IsFuncType(v.typeName) then "(*args, **kwargs)"
      else ""
  }

  /** The two dumpers know the same function types. */
  lemma SameFuncTypes(t: string)
    ensures t in PyFuncTypes <==> LLPyg.IsFuncType(t)
  {
  }

  /** The string signature is the text of the other dumper's signature when
      that one finds one, and "" when it fails (an inspect signature that is
      itself "" aside). */
  lemma SignatureTextAgrees(v: PyObject, name: string)
    ensures var r := GetSignature(v, name);
      (r.Ok? ==> GetSignatureText(v, name) == r.value.str)
      && (r.Err? ==> GetSignatureText(v, name) == "")
      && (GetSignatureText(v, name) != "" ==> r.Ok?)
  {
    SameFuncTypes(v.typeName);
  }

  /** The module record of this dumper. */
  datatype ItemModule = ItemModule(name: string, items: seq<PyGenSpec.Symbol>)

  /** The symbol recorded for an entry that has a value. */
  function SymbolOf(e: Entry): (sym: PyGenSpec.Symbol)
    requires e.val.Some?
  {
    PyGenSpec.Symbol(e.key, e.val.value.typeName, e.val.value.doc,
                     GetSignatureText(e.val.value, e.key))
  }

  /** The symbols recorded for `entries`: one per entry with a value. */
  function DumpItems(entries: seq<Entry>): seq<PyGenSpec.Symbol>
  {
    if entries == [] then []
    else if entries[0].val.None? then DumpItems(entries[1..])
    else [SymbolOf(entries[0])] + DumpItems(entries[1..])
  }

  /** The result of this dumper for a module named `moduleName`. */
  function PydumpSpec(moduleName: string, m: PyModule): Result<ItemModule>
  {
    match m
    case ImportFailed => Err("failed to import module: " + moduleName)
    case NoDictKeys => Err("failed to get module dict keys: " + moduleName)
    case Imported(entries) => Ok(ItemModule(moduleName, DumpItems(entries)))
  }

  /** pydump of cmd/llpyg/pydump.go: walks the keys of the module in order,
      skips those without a value and records every other one with its
      type, doc string and signature text. */
  method Pydump(moduleName: string, m: PyModule) returns (r: Result<ItemModule>)
    ensures r == PydumpSpec(moduleName, m)
  {
    if m.ImportFailed? {
      return Err("failed to import module: " + moduleName);
    }
    if m.NoDictKeys? {
      return Err("failed to get module dict keys: " + moduleName);
    }
    var entries := m.entries;
    var items: seq<PyGenSpec.Symbol> := [];
    var i := 0;
    assert entries[0..] == entries;
    while i < |entries|
      invariant 0 <= i <= |entries|
      invariant DumpItems(entries) == items + DumpItems(entries[i..])
    {
      var e := entries[i];
      assert entries[i..][0] == e && entries[i..][1..] == entries[i + 1..];
      if e.val.Some? {
        var sym := SymbolOf(e);
        assert items + ([sym] + DumpItems(entries[i + 1..]))
            == (items + [sym]) + DumpItems(entries[i + 1..]);
        items := items + [sym];
      }
      i := i + 1;
    }
    assert entries[i..] == [];
    assert items + [] == items;
    return Ok(ItemModule(moduleName, items));
  }

  /** The entries that have a value, in order. */
  function Present(entries: seq<Entry>): (ps: seq<Entry>)
    ensures |ps| <= |entries|
    ensures forall i :: 0 <= i < |ps| ==> ps[i].val.Some? && ps[i] in entries
  {
    if entries == [] then []
    else if entries[0].val.None? then Present(entries[1..])
    else [entries[0]] + Present(entries[1..])
  }

  /** Every entry with a value is recorded, in dictionary order, under its
      key, with its type and doc string, and with the signature text. */
  lemma {:induction false} DumpRecordsAll(entries: seq<Entry>)
    ensures var items := DumpItems(entries);
      var ps := Present(entries);
      |items| == |ps|
      && forall i :: 0 <= i < |items| ==>
           items[i].name == ps[i].key
           && items[i].typ == ps[i].val.value.typeName
           && items[i].doc == ps[i].val.value.doc
           && items[i].sig == GetSignatureText(ps[i].val.value, ps[i].key)
  {
    if entries != [] {
      DumpRecordsAll(entries[1..]);
    }
  }

  /** The symbols whose type is in llpyg's function set. */
  function FuncItems(items: seq<PyGenSpec.Symbol>): seq<PyGenSpec.Symbol>
  {
    if items == [] then []
    else if LLPyg.IsFuncType(items[0].typ) then [items[0]] + FuncItems(items[1..])
    else FuncItems(items[1..])
  }

  /** The record of a function of the other dumper, with its signature
      reduced to the text. */
  function AsItem(f: Function): PyGenSpec.Symbol {
    PyGenSpec.Symbol(f.name, f.typ, f.doc, f.sig.str)
  }

  function AsItems(fs: seq<Function>): (items: seq<PyGenSpec.Symbol>)
    ensures |items| == |fs|
    ensures forall i :: 0 <= i < |fs| ==> items[i] == AsItem(fs[i])
  {
    if fs == [] then [] else [AsItem(fs[0])] + AsItems(fs[1..])
  }

  /** Where the newer dumper succeeds, the two dumpers agree on the
      functions: its records are those of this dumper whose type is a
      function type, with the same signature texts. */
  lemma {:induction false} DumpersAgree(entries: seq<Entry>)
    requires PyDump.DumpEntries(entries).Ok?
    ensures AsItems(PyDump.DumpEntries(entries).value) == FuncItems(DumpItems(entries))
  {
    if entries != [] {
      DumpersAgree(entries[1..]);
      var e := entries[0];
      if e.val.Some? {
        SameFuncTypes(e.val.value.typeName);
        if IsFuncEntry(e) {
          SignatureTextAgrees(e.val.value, e.key);
        }
      }
    }
  }
}
