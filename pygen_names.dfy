// The naming rules of the binding generator in tool/pygen/pygen.go: Python
// names to Go identifiers (genName), the Go package name of a module
// (createGoPackage) and doc strings to comment lines (genDoc).
module PyGenNames {
  import opened GoStrings

  /** goKeywords: the Go keywords the generator escapes. */
  const GoKeywords: set<string> := {
    "package", "import", "var", "const", "func", "type",
    "if", "else", "switch", "case", "default", "for", "range",
    "break", "continue", "goto", "fallthrough",
    "return", "defer",
    "go", "chan", "select",
    "struct", "interface", "map"
  }

  predicate IsGoKeyword(s: string) {
    s in GoKeywords
  }

  predicate IsLower(c: char) {
    'a' <= c <= 'z'
  }

  /** Every keyword is a non-empty run of lower-case letters. */
  lemma KeywordsAreLowerWords(w: string)
    requires IsGoKeyword(w)
    ensures w != [] && forall i :: 0 <= i < |w| ==> IsLower(w[i])
  {
  }

  /** Appending '_' to any string gives a string that is not a keyword. */
  lemma UnderscoredNotKeyword(s: string)
    ensures !IsGoKeyword(s + "_")
  {
    var w := s + "_";
    assert w[|s|] == '_';
    if IsGoKeyword(w) {
      KeywordsAreLowerWords(w);
    }
  }

  // ---------------------------------------------------------------------
  // genName
  // ---------------------------------------------------------------------

  /** Where the trailing run of '_' of `s` starts. */
  function TrailStart(s: string): (k: nat)
    ensures k <= |s|
    ensures forall i :: k <= i < |s| ==> s[i] == '_'
    ensures k == 0 || s[k - 1] != '_'
  {
    if s != [] && s[|s| - 1] == '_' then TrailStart(s[..|s| - 1]) else |s|
  }

  /** The trailing run is determined by the two properties TrailStart
      ensures. */
  lemma {:induction false} TrailStartUnique(s: string, k: nat)
    requires k <= |s| && (forall i :: k <= i < |s| ==> s[i] == '_') && (k == 0 || s[k - 1] != '_')
    ensures TrailStart(s) == k
  {
    if s != [] && s[|s| - 1] == '_' {
      TrailStartUnique(s[..|s| - 1], k);
    }
  }

  /** The first byte upper-cased when it is a lower-case ASCII letter. */
  function Title(part: string): (r: string)
    ensures |r| == |part| && forall k :: 1 <= k < |part| ==> r[k] == part[k]
    ensures part != [] && IsLower(part[0]) ==> r[0] == (part[0] as int - 'a' as int + 'A' as int) as char
    ensures part != [] && !IsLower(part[0]) ==> r[0] == part[0]
  {
    if part != [] && IsLower(part[0]) then
      [(part[0] as int - 'a' as int + 'A' as int) as char] + part[1..]
    else part
  }

  /** Every part titled except the one at idxDontTitle. */
  function TitleParts(parts: seq<string>, idxDontTitle: int): (r: seq<string>)
    ensures |r| == |parts|
    ensures forall i :: 0 <= i < |r| ==> r[i] == if i != idxDontTitle then Title(parts[i]) else parts[i]
  {
    seq(|parts|, i requires 0 <= i < |parts| => if i != idxDontTitle then Title(parts[i]) else parts[i])
  }

  /** The name before its trailing '_' run, with its '_'-separated parts
      titled and joined. */
  function Core(name: string, idxDontTitle: int): string {
    Join(TitleParts(Split(name[..TrailStart(name)], '_'), idxDontTitle), "")
  }

  /** genName: the core followed by the trailing '_' run of the name,
      with one more '_' when that is a Go keyword. */
  function GoName(name: string, idxDontTitle: int): string {
    var n := Core(name, idxDontTitle) + name[TrailStart(name)..];
    if IsGoKeyword(n) then n + "_" else n
  }

  /** genName(name, -1), the form every generated declaration is named
      by. The depth only defers the unfolding of genName for the verifier:
      the value is GoName(name, -1) whatever it is (GoIdentIsGoName). */
  function GoIdent(name: string, depth: nat := 3): string {
    if depth > 0 then GoIdent(name, depth - 1) else GoName(name, -1)
  }

  lemma GoIdentIsGoName(name: string, depth: nat := 3)
    ensures GoIdent(name, depth) == GoName(name, -1)
  {
    if depth > 0 {
      GoIdentIsGoName(name, depth - 1);
    }
  }

  method GenIdent(name: string) returns (r: string)
    ensures r == GoIdent(name)
  {
    r := GenName(name, -1);
    GoIdentIsGoName(name);
  }

  method GenName(name: string, idxDontTitle: int) returns (r: string)
    ensures r == GoName(name, idxDontTitle)
  {
    var k := TrailOf(name);
    var workingName := name[..k];
    var trail := name[k..];
    var split := Split(workingName, '_');
    var parts := new string[|split|](i => if 0 <= i < |split| then split[i] else "");
    assert parts[..] == split;
    TitleInPlace(parts, idxDontTitle);
    r := Join(parts[..], "") + trail;
    if IsGoKeyword(r) {
      r := r + "_";
    }
  }

  /** The backwards scan of genName over the trailing underscores. */
  method TrailOf(name: string) returns (k: nat)
    ensures k == TrailStart(name)
  {
    var lastIdx := |name| - 1;
    while lastIdx >= 0 && name[lastIdx] == '_'
      invariant -1 <= lastIdx < |name|
      invariant forall i :: lastIdx < i < |name| ==> name[i] == '_'
    {
      lastIdx := lastIdx - 1;
    }
    TrailStartUnique(name, lastIdx + 1);
    k := lastIdx + 1;
  }

  /** The loop of genName over the parts of the name. */
  method TitleInPlace(parts: array<string>, idxDontTitle: int)
    modifies parts
    ensures parts[..] == TitleParts(old(parts[..]), idxDontTitle)
  {
    ghost var split := parts[..];
    var i := 0;
    while i < parts.Length
      invariant 0 <= i <= parts.Length == |split|
      invariant forall j :: 0 <= j < i ==> parts[j] == TitleParts(split, idxDontTitle)[j]
      invariant forall j :: i <= j < parts.Length ==> parts[j] == split[j]
    {
      if i != idxDontTitle && parts[i] != "" {
        var part := parts[i];
        if 'a' <= part[0] <= 'z' {
          part := [(part[0] as int - 'a' as int + 'A' as int) as char] + part[1..];
        }
        parts[i] := part;
      }
      i := i + 1;
    }
  }

  /** No part of a split contains the separator, and titling adds none. */
  lemma {:induction false} JoinTitledNoUnderscore(parts: seq<string>)
    requires forall i :: 0 <= i < |parts| ==> '_' !in parts[i]
    ensures '_' !in Join(parts, "")
  {
    if |parts| > 1 {
      JoinTitledNoUnderscore(parts[1..]);
    }
  }

  lemma TitlePartsNoUnderscore(parts: seq<string>, idxDontTitle: int)
    requires forall i :: 0 <= i < |parts| ==> '_' !in parts[i]
    ensures forall i :: 0 <= i < |parts| ==> '_' !in TitleParts(parts, idxDontTitle)[i]
  {
    forall i | 0 <= i < |parts|
      ensures '_' !in TitleParts(parts, idxDontTitle)[i]
    {
      var p := parts[i];
      if p != [] {
        assert p == [p[0]] + p[1..];
        assert Title(p) == [Title(p)[0]] + p[1..];
      }
    }
  }

  /** Interior underscores are dropped: the core holds no '_'. */
  lemma CoreNoUnderscore(name: string, idxDontTitle: int)
    ensures '_' !in Core(name, idxDontTitle)
  {
    var parts := Split(name[..TrailStart(name)], '_');
    TitlePartsNoUnderscore(parts, idxDontTitle);
    JoinTitledNoUnderscore(TitleParts(parts, idxDontTitle));
  }

  /** genName keeps the trailing '_' run of the name unchanged after an
      underscore-free core, adds one '_' only to escape a keyword, and
      never returns a keyword. */
  lemma GoNameShape(name: string, idxDontTitle: int)
    ensures var r, c, t := GoName(name, idxDontTitle), Core(name, idxDontTitle), name[TrailStart(name)..];
      '_' !in c
      && (forall i :: 0 <= i < |t| ==> t[i] == '_')
      && (r == c + t || (r == c + t + "_" && IsGoKeyword(c + t)))
      && !IsGoKeyword(r)
  {
    CoreNoUnderscore(name, idxDontTitle);
    UnderscoredNotKeyword(Core(name, idxDontTitle) + name[TrailStart(name)..]);
  }

  /** The first byte of a join of titled parts is not a lower-case letter. */
  lemma {:induction false} JoinTitledFirst(parts: seq<string>)
    requires forall i :: 0 <= i < |parts| ==> parts[i] == [] || !IsLower(parts[i][0])
    ensures var j := Join(parts, ""); j == [] || !IsLower(j[0])
  {
    if |parts| > 1 {
      JoinTitledFirst(parts[1..]);
      if parts[0] != [] {
        assert Join(parts, "")[0] == parts[0][0];
      }
    }
  }

  /** With every part titled, the core does not start with a lower-case
      letter. */
  lemma CoreTitledFirst(name: string)
    ensures var c := Core(name, -1); c == [] || !IsLower(c[0])
  {
    var parts := TitleParts(Split(name[..TrailStart(name)], '_'), -1);
    JoinTitledFirst(parts);
  }

  /** Applying genName with every part titled to its own result changes
      nothing. */
  lemma GoNameIdempotent(name: string)
    ensures GoName(GoName(name, -1), -1) == GoName(name, -1)
  {
    var c, t := Core(name, -1), name[TrailStart(name)..];
    CoreNoUnderscore(name, -1);
    CoreTitledFirst(name);
    if c != [] {
      assert (c + t)[0] == c[0];
    } else if t != [] {
      assert (c + t)[0] == '_';
    }
    if IsGoKeyword(c + t) {
      KeywordsAreLowerWords(c + t);
    }
    var r := c + t;
    assert GoName(name, -1) == r;
    assert c == [] || r[|c| - 1] == c[|c| - 1] != '_';
    TrailStartUnique(r, |c|);
    assert r[..|c|] == c && r[|c|..] == t;
    assert Split(c, '_') == [c];
    assert TitleParts([c], -1) == [c];
    assert Core(r, -1) == c;
  }

  // ---------------------------------------------------------------------
  // createGoPackage: the package name
  // ---------------------------------------------------------------------

  /** The last '.'-separated component of a module name. */
  function LastComponent(modName: string): string {
    var parts := Split(modName, '.');
    parts[|parts| - 1]
  }

  /** The last component is the part of the name after its last '.': it
      ends the name, holds no '.', and is the whole name or follows a '.'. */
  predicate AfterLastDot(modName: string, l: string) {
    |l| <= |modName|
    && (forall i :: 0 <= i < |l| ==> l[i] == modName[|modName| - |l| + i] && l[i] != '.')
    && (|l| == |modName| || modName[|modName| - |l| - 1] == '.')
  }

  lemma {:induction false} LastComponentIsSuffix(modName: string)
    ensures AfterLastDot(modName, LastComponent(modName))
    decreases |modName|
  {
    if '.' !in modName {
      assert forall i :: 0 <= i < |modName| ==> modName[i] != '.';
    } else {
      var rest := Split(modName[1..], '.');
      LastComponentIsSuffix(modName[1..]);
      if modName[0] == '.' {
        assert Split(modName, '.')[1..] == rest;
        AfterDotStep(modName, 0, rest[|rest| - 1]);
      } else {
        assert '.' in modName[1..] by {
          assert modName == [modName[0]] + modName[1..];
        }
        assert Split(modName, '.')[1..] == rest[1..];
        DotBeforeLast(modName[1..], rest[|rest| - 1]);
        AfterCharStep(modName, rest[|rest| - 1]);
      }
    }
  }

  /** When the name holds a '.', its last component is not all of it. */
  lemma DotBeforeLast(s: string, l: string)
    requires AfterLastDot(s, l) && '.' in s
    ensures |l| < |s|
  {
    var j :| 0 <= j < |s| && s[j] == '.';
    assert j >= |s| - |l| ==> l[j - (|s| - |l|)] == s[j];
  }

  /** A component that does not reach the front of the rest of the name
      does not reach the front of the name either. */
  lemma AfterCharStep(modName: string, l: string)
    requires modName != [] && AfterLastDot(modName[1..], l) && |l| < |modName| - 1
    ensures AfterLastDot(modName, l)
  {
    var rest := modName[1..];
    assert forall i :: 0 <= i < |l| ==> l[i] == modName[|modName| - |l| + i];
    assert rest[|rest| - |l| - 1] == modName[|modName| - |l| - 1];
  }

  lemma AfterDotStep(modName: string, k: nat, l: string)
    requires k < |modName| && modName[k] == '.' && AfterLastDot(modName[k + 1..], l)
    ensures AfterLastDot(modName, l)
  {
    var rest := modName[k + 1..];
    assert forall i :: 0 <= i < |l| ==> l[i] == modName[|modName| - |l| + i];
    if |l| < |rest| {
      assert rest[|rest| - |l| - 1] == modName[|modName| - |l| - 1];
    }
  }

  /** The Go package name of a module: its last component, with '_'
      appended when that is a Go keyword. */
  function PackageName(modName: string): (r: string)
    ensures !IsGoKeyword(r)
    ensures r == LastComponent(modName) || (r == LastComponent(modName) + "_" && IsGoKeyword(LastComponent(modName)))
  {
    var last := LastComponent(modName);
    UnderscoredNotKeyword(last);
    if IsGoKeyword(last) then last + "_" else last
  }

  // ---------------------------------------------------------------------
  // genDoc
  // ---------------------------------------------------------------------

  /** genDoc: no comment for an empty doc string, otherwise one "// "
      comment per '\n'-separated line. */
  function DocComments(doc: string): (r: seq<string>)
    ensures |r| == 0 <==> doc == ""
  {
    if doc == "" then []
    else
      var lines := Split(doc, '\n');
      seq(|lines|, i requires 0 <= i < |lines| => "// " + lines[i])
  }

  method GenDoc(doc: string) returns (list: seq<string>)
    ensures list == DocComments(doc)
  {
    if doc == "" {
      return [];
    }
    var lines := Split(doc, '\n');
    var a := new string[|lines|];
    var i := 0;
    while i < |lines|
      invariant 0 <= i <= |lines| == a.Length
      invariant forall j :: 0 <= j < i ==> a[j] == "// " + lines[j]
    {
      a[i] := "// " + lines[i];
      i := i + 1;
    }
    list := a[..];
  }

  /** The text of a comment line without its "// " lead. */
  function Uncomment(c: string): string {
    if HasPrefix(c, "// ") then c[3..] else c
  }

  /** The texts of a list of comment lines. */
  function Uncommented(cs: seq<string>): (r: seq<string>)
    ensures |r| == |cs|
  {
    seq(|cs|, i requires 0 <= i < |cs| => Uncomment(cs[i]))
  }

  /** Each comment is one line of the doc string: stripping the leads and
      joining with '\n' gives the doc string back. */
  lemma DocCommentsRoundTrip(doc: string)
    ensures forall i :: 0 <= i < |DocComments(doc)| ==> HasPrefix(DocComments(doc)[i], "// ") && '\n' !in DocComments(doc)[i]
    ensures Join(Uncommented(DocComments(doc)), "\n") == doc
  {
    if doc != "" {
      var cs := DocComments(doc);
      var lines := Split(doc, '\n');
      forall i | 0 <= i < |cs|
        ensures HasPrefix(cs[i], "// ") && '\n' !in cs[i] && Uncomment(cs[i]) == lines[i]
      {
        CommentLine(lines[i]);
      }
      assert Uncommented(cs) == lines;
      JoinSplit(doc, '\n');
    }
  }

  lemma CommentLine(line: string)
    requires '\n' !in line
    ensures var c := "// " + line; HasPrefix(c, "// ") && '\n' !in c && Uncomment(c) == line
  {
    var c := "// " + line;
    assert c[..3] == "// ";
    assert c[3..] == line;
  }
}
