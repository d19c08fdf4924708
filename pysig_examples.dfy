// Worked inputs of the signature parser: "(a: int)" of
// tool/pysig/parse_test.go, small inputs for each rule those tests pin down
// (Optional for the args of [...] groups at any depth, the name of the
// ellipsis, defaults that are bracketed literals, types that hold a [...]
// group), and the one input shape on which parseType slices out of range.
module PySigExamples {
  import opened GoStrings
  import opened PySig

  /** "(a:[b)": the type text "[b)" starts with a '[' that opens a type and
      is never closed, so parseType slices at -1 and the parse panics. */
  lemma UnclosedTypeGroupPanics()
    ensures ParseSpec("(a:[b)") == Panic
  {
    var sig := "(a:[b)";
    assert MatchFrom(sig, '(', ')', 5, 1) == 5;
    assert MatchFrom(sig, '(', ')', 4, 1) == 5;
    assert MatchFrom(sig, '(', ')', 3, 1) == 5;
    assert MatchFrom(sig, '(', ')', 2, 1) == 5;
    var s := "a:[b)";
    assert sig[1..6] == s;
    UnclosedFromPanics();
  }

  /** The argument text "a:[b)" inside the parentheses panics. */
  lemma UnclosedFromPanics()
    ensures ParseFrom([], "a:[b)") == Panic
  {
    var s := "a:[b)";
    TrimmedUnchanged(s);
    assert IndexAny(s[1..], {',', ':', '=', '[', ')'}) == 0;
    assert IndexAny(s, {',', ':', '=', '[', ')'}) == 1;
    TrimmedUnchanged("a");
    assert s[..1] == "a";
    assert s[2..] == "[b)";
    UnclosedTypePanics();
    assert ParseNamed([], s) == ParseSplit([], Arg("a", "", "", false), s, 1);
  }

  /** The type text "[b)" after "a:" makes parseType panic. */
  lemma UnclosedTypePanics()
    ensures ParseTyped([], Arg("a", "", "", false), "[b)") == Panic
  {
    var t := "[b)";
    TrimmedUnchanged("b)");
    assert t[1..] == "b)";
    assert MatchFrom(t, '[', ']', 2, 1) == -1;
    assert TypeBracketUnmatched(t);
    ParseTypeOnClosed(t);
  }

  /** "(a: int)" gives one Arg named "a" of type "int", with no default
      value and not optional. */
  lemma TypedParamExample()
    ensures ParseSpec("(a: int)") == Ok([Arg("a", "int", "", false)])
  {
    var sig := "(a: int)";
    TypedParamBracket();
    var s := "a: int)";
    assert sig[1..8] == s;
    TrimmedUnchanged(s);
    TypedParamNamed();
  }

  lemma TypedParamBracket()
    ensures MatchingBracket("(a: int)", '(', ')') == 7
  {
    var sig := "(a: int)";
    assert MatchFrom(sig, '(', ')', 7, 1) == 7;
    assert MatchFrom(sig, '(', ')', 6, 1) == 7;
    assert MatchFrom(sig, '(', ')', 5, 1) == 7;
    assert MatchFrom(sig, '(', ')', 4, 1) == 7;
    assert MatchFrom(sig, '(', ')', 3, 1) == 7;
    assert MatchFrom(sig, '(', ')', 2, 1) == 7;
  }

  lemma TypedParamType()
    ensures ParseType(" int)") == Ok(("int", ")"))
  {
    var t := " int)";
    assert IndexAny(t[4..], {'=', ',', ')', '['}) == 0;
    assert IndexAny(t[3..], {'=', ',', ')', '['}) == 1;
    assert IndexAny(t[2..], {'=', ',', ')', '['}) == 2;
    assert IndexAny(t[1..], {'=', ',', ')', '['}) == 3;
    assert IndexAny(t, {'=', ',', ')', '['}) == 4;
    assert t[..4] == " int" && t[4..] == ")";
    assert TrimLeft(" int") == "int" by {
      assert " int"[1..] == "int";
      TrimLeftNoSpace("int");
    }
    TrimRightNoSpace("int");
  }

  /** A lone ')' ends the loop of Parse with the args it has. */
  lemma ClosingParenEnds(args: seq<Arg>)
    ensures ParseFrom(args, ")") == Ok(args)
  {
    TrimmedUnchanged(")");
    assert ParseNamed(args, ")") == Ok(args);
  }

  lemma TypedParamTyped()
    ensures ParseTyped([], Arg("a", "", "", false), " int)") == Ok([Arg("a", "int", "", false)])
  {
    TypedParamType();
    var a := [Arg("a", "int", "", false)];
    assert [] + [Arg("a", "", "", false).(typ := "int")] == a;
    assert TrimPrefix(")", ",") == ")";
    ClosingParenEnds(a);
  }

  lemma TypedParamNamed()
    ensures ParseNamed([], "a: int)") == Ok([Arg("a", "int", "", false)])
  {
    var s := "a: int)";
    assert IndexAny(s[1..], {',', ':', '=', '[', ')'}) == 0;
    assert IndexAny(s, {',', ':', '=', '[', ')'}) == 1;
    TrimmedUnchanged("a");
    assert s[..1] == "a";
    assert s[2..] == " int)";
    TypedParamTyped();
    assert ParseSplit([], Arg("a", "", "", false), s, 1) == ParseTyped([], Arg("a", "", "", false), " int)");
  }

  // ---------------------------------------------------------------------
  // Steps the worked inputs below share
  // ---------------------------------------------------------------------

  /** With no bracket byte between i and the closer at j, the counting
      loop stops at j. */
  lemma {:induction false} MatchPlain(s: string, open: char, close: char, i: nat, j: nat)
    requires 1 <= i <= j < |s| && s[j] == close && open != close
    requires forall k :: i <= k < j ==> s[k] != open && s[k] != close
    ensures MatchFrom(s, open, close, i, 1) == j
    decreases j - i
  {
    if i < j {
      MatchPlain(s, open, close, i + 1, j);
    }
  }

  /** IndexAny skips a prefix that holds none of the bytes it looks for. */
  lemma {:induction false} IndexAnySkip(w: string, rest: string, chars: set<char>)
    requires forall k :: 0 <= k < |w| ==> w[k] !in chars
    requires rest != [] && rest[0] in chars
    ensures IndexAny(w + rest, chars) == |w|
  {
    if w != [] {
      assert (w + rest)[1..] == w[1..] + rest;
      IndexAnySkip(w[1..], rest, chars);
    } else {
      assert w + rest == rest;
    }
  }

  /** A name without delimiters followed by one of them: the name step of
      the loop of Parse cuts exactly that name. */
  lemma NameThen(args: seq<Arg>, w: string, rest: string)
    requires w != [] && Trimmed(w)
    requires forall k :: 0 <= k < |w| ==> w[k] !in {',', ':', '=', '[', ')'}
    requires rest != [] && rest[0] in {',', ':', '=', '[', ')'}
    ensures ParseNamed(args, w + rest)
         == ParseSplit(args, Arg(if w == "..." then EllipsisName(args) else w, "", "", false), w + rest, |w|)
  {
    IndexAnySkip(w, rest, {',', ':', '=', '[', ')'});
    assert (w + rest)[..|w|] == w;
    TrimmedUnchanged(w);
  }

  /** Trimmed text, alone or after one blank, goes to the loop body as it
      is. */
  lemma FromSpaced(args: seq<Arg>, t: string)
    requires Trimmed(t)
    ensures ParseFrom(args, t) == ParseTrimmed(args, t)
    ensures ParseFrom(args, " " + t) == ParseTrimmed(args, t)
  {
    TrimmedUnchanged(t);
    assert (" " + t)[1..] == t;
    assert TrimLeft(" " + t) == TrimLeft(t);
  }

  /** A leading ',' with nothing before it is dropped. */
  lemma CommaFirst(args: seq<Arg>, rest: string)
    ensures ParseNamed(args, "," + rest) == ParseFrom(args, rest)
  {
    var s := "," + rest;
    assert IndexAny(s, {',', ':', '=', '[', ')'}) == 0;
    assert s[..0] == [];
    assert s[1..] == rest;
  }

  /** A plain word: non-empty, no white space at its ends, none of the
      bytes that end a name or open a group. */
  predicate Word(w: string) {
    w != [] && Trimmed(w) && w != "..."
    && forall k :: 0 <= k < |w| ==> w[k] !in {',', ':', '=', '[', ')', '('}
  }

  /** "w)": the last arg, then the closing ')'. */
  lemma WordClose(args: seq<Arg>, w: string)
    requires Word(w)
    ensures ParseFrom(args, w + ")") == Ok(args + [Arg(w, "", "", false)])
  {
    var s := w + ")";
    assert s[0] == w[0] && s[|s| - 1] == ')';
    FromSpaced(args, s);
    assert ParseTrimmed(args, s) == ParseNamed(args, s);
    NameThen(args, w, ")");
    assert s[|w|] == ')';
  }

  /** "w,rest": one arg, then the loop goes on after the ','. */
  lemma WordComma(args: seq<Arg>, w: string, rest: string)
    requires Word(w)
    ensures ParseTrimmed(args, w + "," + rest) == ParseFrom(args + [Arg(w, "", "", false)], rest)
  {
    var s := w + "," + rest;
    assert s == w + ("," + rest);
    assert ParseTrimmed(args, s) == ParseNamed(args, s);
    NameThen(args, w, "," + rest);
    assert s[|w|] == ',' && s[|w| + 1..] == rest;
  }

  /** parseOptArgs on a group that closes at j: the args of "(" + its
      interior + ")". */
  lemma GroupAt(t: string, j: nat, inner: string)
    requires MatchingBracket(t, '[', ']') == j && j != -1 && inner == "(" + t[1..j] + ")"
    ensures OptArgsSpec(t) == match ParseSpec(inner)
      case Ok(g) => Ok((g, t[j + 1..]))
      case Panic => Panic
      case Diverge => Diverge
  {
  }

  // ---------------------------------------------------------------------
  // One step of the loop of Parse, in terms of the pieces of the text
  // ---------------------------------------------------------------------

  /** Text that ends with the closing ')'. */
  predicate EndsShut(s: string) {
    s != [] && s[|s| - 1] == ')'
  }

  /** A [...] group at the head of text that ends with ')'. */
  predicate GroupText(t: string) {
    t != [] && t[0] == '[' && EndsShut(t)
  }

  /** A text whose only parentheses are its ends: Parse reads all of its
      interior. */
  lemma SpecPlain(sig: string, body: string, r: seq<Arg>)
    requires sig == "(" + body + ")" && '(' !in body && ')' !in body
    requires ParseFrom([], body + ")") == Ok(r)
    ensures ParseSpec(sig) == Ok(r)
  {
    forall k | 1 <= k < |sig| - 1
      ensures sig[k] != '(' && sig[k] != ')'
    {
      assert sig[k] == body[k - 1];
    }
    MatchPlain(sig, '(', ')', 1, |sig| - 1);
    assert sig[1..|sig|] == body + ")";
  }

  /** Parse reads the interior up to the ')' that balances the first '('. */
  lemma SpecAt(sig: string, body: string, r: seq<Arg>)
    requires sig == "(" + body + ")" && MatchingBracket(sig, '(', ')') == |body| + 1
    requires ParseFrom([], body + ")") == Ok(r)
    ensures ParseSpec(sig) == Ok(r)
  {
    assert sig[1..|body| + 2] == body + ")";
  }

  /** TrimPrefix with a ',' that is not there changes nothing. */
  lemma NoCommaPrefix(s: string)
    requires s != [] && s[0] != ','
    ensures TrimPrefix(s, ",") == s
  {
    assert s[..1] == [s[0]];
  }

  /** A word, a delimiter, then text that ends with ')' has no blank at
      either end. */
  lemma TrimmedJoin(w: string, mid: string, rest: string)
    requires Word(w) && EndsShut(rest)
    ensures Trimmed(w + mid + rest)
  {
    var s := w + mid + rest;
    assert s[0] == w[0] && s[|s| - 1] == rest[|rest| - 1];
  }

  /** One blank before trimmed text changes nothing. */
  lemma FromSpace(args: seq<Arg>, t: string, r: seq<Arg>)
    requires Trimmed(t) && ParseFrom(args, t) == Ok(r)
    ensures ParseFrom(args, " " + t) == Ok(r)
  {
    FromSpaced(args, t);
  }

  /** "w)": the last arg w. */
  lemma FromWordClose(args: seq<Arg>, w: string, r: seq<Arg>)
    requires Word(w) && r == args + [Arg(w, "", "", false)]
    ensures ParseFrom(args, w + ")") == Ok(r)
  {
    WordClose(args, w);
  }

  /** "w,rest": the arg w, then the args of the rest. */
  lemma FromWordComma(args: seq<Arg>, w: string, rest: string, r: seq<Arg>)
    requires Word(w) && EndsShut(rest)
    requires ParseFrom(args + [Arg(w, "", "", false)], rest) == Ok(r)
    ensures ParseFrom(args, w + "," + rest) == Ok(r)
  {
    TrimmedJoin(w, ",", rest);
    FromSpaced(args, w + "," + rest);
    WordComma(args, w, rest);
  }

  /** ",rest" with no name before the ',': the args of the rest. */
  lemma FromComma(args: seq<Arg>, rest: string, r: seq<Arg>)
    requires EndsShut(rest) && ParseFrom(args, rest) == Ok(r)
    ensures ParseFrom(args, "," + rest) == Ok(r)
  {
    var s := "," + rest;
    assert s[|s| - 1] == rest[|rest| - 1];
    FromSpaced(args, s);
    assert ParseTrimmed(args, s) == ParseNamed(args, s);
    CommaFirst(args, rest);
  }

  /** A [...] group at the head: its args, marked Optional, then the args
      of the rest. */
  lemma FromGroup(args: seq<Arg>, t: string, g: seq<Arg>, rest: string, r: seq<Arg>)
    requires GroupText(t)
    requires OptArgsSpec(t) == Ok((g, rest)) && ParseFrom(args + MarkOptional(g), rest) == Ok(r)
    ensures ParseFrom(args, t) == Ok(r)
  {
    FromSpaced(args, t);
  }

  /** "w[...]rest": the arg w, then the args of the group, marked
      Optional, then the args of the rest. */
  lemma FromWordGroup(args: seq<Arg>, w: string, t: string, g: seq<Arg>, rest: string, r: seq<Arg>)
    requires Word(w) && GroupText(t)
    requires OptArgsSpec(t) == Ok((g, rest))
    requires ParseFrom(args + [Arg(w, "", "", false)] + MarkOptional(g), rest) == Ok(r)
    ensures ParseFrom(args, w + t) == Ok(r)
  {
    var s := w + t;
    TrimmedJoin(w, [], t);
    assert w + [] + t == s;
    FromSpaced(args, s);
    assert ParseTrimmed(args, s) == ParseNamed(args, s);
    NameThen(args, w, t);
    assert s[|w|] == '[' && s[|w|..] == t;
  }

  /** "w=v": the arg w with the default that starts v. */
  lemma FromWordDefault(args: seq<Arg>, w: string, v: string, r: seq<Arg>)
    requires Word(w) && EndsShut(v)
    requires ParseDefaulted(args, Arg(w, "", "", false), v) == Ok(r)
    ensures ParseFrom(args, w + "=" + v) == Ok(r)
  {
    TrimmedJoin(w, "=", v);
    FromSpaced(args, w + "=" + v);
    NameDefault(args, w, v);
  }

  /** "w:t": the arg w with the type that starts t. */
  lemma FromWordTyped(args: seq<Arg>, w: string, t: string, r: seq<Arg>)
    requires Word(w) && EndsShut(t)
    requires ParseTyped(args, Arg(w, "", "", false), t) == Ok(r)
    ensures ParseFrom(args, w + ":" + t) == Ok(r)
  {
    TrimmedJoin(w, ":", t);
    FromSpaced(args, w + ":" + t);
    NameTyped(args, w, t);
  }

  /** After '=': the arg gets the default, and the loop goes on after one
      ','. */
  lemma DefaultedThen(args: seq<Arg>, arg: Arg, v: string, d: string, rest: string, r: seq<Arg>)
    requires ParseDefVal(v) == Ok((d, rest))
    requires ParseFrom(args + [arg.(defVal := d)], TrimPrefix(rest, ",")) == Ok(r)
    ensures ParseDefaulted(args, arg, v) == Ok(r)
  {
  }

  /** After ':': the arg gets the type, and with no '=' after it the loop
      goes on after one ','. */
  lemma TypedThen(args: seq<Arg>, arg: Arg, t: string, typ: string, rest: string, r: seq<Arg>)
    requires ParseType(t) == Ok((typ, rest)) && rest != [] && rest[0] != '='
    requires ParseFrom(args + [arg.(typ := typ)], TrimPrefix(rest, ",")) == Ok(r)
    ensures ParseTyped(args, arg, t) == Ok(r)
  {
  }

  lemma MarkOne(a: Arg)
    ensures MarkOptional([a]) == [a.(optional := true)]
  {
  }

  lemma MarkTwo(a: Arg, b: Arg)
    ensures MarkOptional([a, b]) == [a.(optional := true), b.(optional := true)]
  {
  }

  /** The lone ')' that ends the text, after one ',' is trimmed. */
  lemma ParenRest()
    ensures ")" != [] && ")"[0] != '=' && TrimPrefix(")", ",") == ")"
  {
    NoCommaPrefix(")");
  }

  // ---------------------------------------------------------------------
  // [...] groups: Optional at any depth
  //
  // Each worked input below is split into lemmas about its text alone and
  // lemmas that chain the steps above; a step only ever meets facts it
  // can match as they stand.
  // ---------------------------------------------------------------------

  /** "(c)": one arg. */
  lemma SpecC()
    ensures ParseSpec("(c)") == Ok([Arg("c", "", "", false)])
  {
    var c := [Arg("c", "", "", false)];
    SpecCTexts();
    FromWordClose([], "c", c);
    SpecPlain("(c)", "c", c);
  }

  lemma SpecCTexts()
    ensures "(c)" == "(" + "c" + ")" && '(' !in "c" && ')' !in "c" && Word("c")
    ensures [Arg("c", "", "", false)] == [] + [Arg("c", "", "", false)]
  {
  }

  /** The group "[c]" holds the single arg c. */
  lemma GroupC()
    ensures OptArgsSpec("[c])") == Ok(([Arg("c", "", "", false)], ")"))
  {
    var t := "[c])";
    MatchPlain(t, '[', ']', 1, 2);
    assert "(" + t[1..2] + ")" == "(c)";
    SpecC();
    GroupAt(t, 2, "(c)");
    assert t[3..] == ")";
  }

  /** "(b, [c])": b, then the optional c. */
  lemma SpecBC()
    ensures ParseSpec("(b, [c])") == Ok([Arg("b", "", "", false), Arg("c", "", "", true)])
  {
    SpecBCTexts();
    BCInterior();
    SpecPlain("(b, [c])", "b, [c]", [Arg("b", "", "", false), Arg("c", "", "", true)]);
  }

  lemma SpecBCTexts()
    ensures "(b, [c])" == "(" + "b, [c]" + ")" && '(' !in "b, [c]" && ')' !in "b, [c]"
    ensures "b, [c]" + ")" == "b" + "," + (" " + "[c])")
    ensures Word("b") && EndsShut(" " + "[c])") && Trimmed("[c])") && GroupText("[c])")
  {
  }

  lemma BCInterior()
    ensures ParseFrom([], "b, [c]" + ")") == Ok([Arg("b", "", "", false), Arg("c", "", "", true)])
  {
    var r := [Arg("b", "", "", false), Arg("c", "", "", true)];
    SpecBCTexts();
    BCGroup();
    FromSpace([] + [Arg("b", "", "", false)], "[c])", r);
    FromWordComma([], "b", " " + "[c])", r);
  }

  lemma BCGroup()
    ensures ParseFrom([] + [Arg("b", "", "", false)], "[c])")
         == Ok([Arg("b", "", "", false), Arg("c", "", "", true)])
  {
    var r := [Arg("b", "", "", false), Arg("c", "", "", true)];
    SpecBCTexts();
    BCResult();
    GroupC();
    ClosingParenEnds(r);
    FromGroup([] + [Arg("b", "", "", false)], "[c])", [Arg("c", "", "", false)], ")", r);
  }

  lemma BCResult()
    ensures [] + [Arg("b", "", "", false)] + MarkOptional([Arg("c", "", "", false)])
         == [Arg("b", "", "", false), Arg("c", "", "", true)]
  {
    MarkOne(Arg("c", "", "", false));
  }

  /** The group "[b, [c]]": b, then c of the inner group. */
  lemma GroupBC()
    ensures OptArgsSpec("[b, [c]])") == Ok(([Arg("b", "", "", false), Arg("c", "", "", true)], ")"))
  {
    var t := "[b, [c]])";
    assert MatchFrom(t, '[', ']', 7, 1) == 7;
    assert MatchFrom(t, '[', ']', 6, 2) == 7;
    assert MatchFrom(t, '[', ']', 5, 2) == 7;
    assert MatchFrom(t, '[', ']', 4, 1) == 7;
    assert MatchFrom(t, '[', ']', 3, 1) == 7;
    assert MatchFrom(t, '[', ']', 2, 1) == 7;
    assert "(" + t[1..7] + ")" == "(b, [c])";
    SpecBC();
    GroupAt(t, 7, "(b, [c])");
    assert t[8..] == ")";
  }

  /** "(a, [b, [c]])": the args of a nested group are Optional too. */
  lemma NestedGroupExample()
    ensures ParseSpec("(a, [b, [c]])")
         == Ok([Arg("a", "", "", false), Arg("b", "", "", true), Arg("c", "", "", true)])
  {
    NestedTexts();
    NestedInterior();
    SpecPlain("(a, [b, [c]])", "a, [b, [c]]",
      [Arg("a", "", "", false), Arg("b", "", "", true), Arg("c", "", "", true)]);
  }

  lemma NestedTexts()
    ensures "(a, [b, [c]])" == "(" + "a, [b, [c]]" + ")" && '(' !in "a, [b, [c]]" && ')' !in "a, [b, [c]]"
    ensures "a, [b, [c]]" + ")" == "a" + "," + (" " + "[b, [c]])")
    ensures Word("a") && EndsShut(" " + "[b, [c]])") && Trimmed("[b, [c]])") && GroupText("[b, [c]])")
  {
  }

  lemma NestedInterior()
    ensures ParseFrom([], "a, [b, [c]]" + ")")
         == Ok([Arg("a", "", "", false), Arg("b", "", "", true), Arg("c", "", "", true)])
  {
    var r := [Arg("a", "", "", false), Arg("b", "", "", true), Arg("c", "", "", true)];
    NestedTexts();
    NestedGroup();
    FromSpace([] + [Arg("a", "", "", false)], "[b, [c]])", r);
    FromWordComma([], "a", " " + "[b, [c]])", r);
  }

  lemma NestedGroup()
    ensures ParseFrom([] + [Arg("a", "", "", false)], "[b, [c]])")
         == Ok([Arg("a", "", "", false), Arg("b", "", "", true), Arg("c", "", "", true)])
  {
    var g := [Arg("b", "", "", false), Arg("c", "", "", true)];
    var r := [Arg("a", "", "", false), Arg("b", "", "", true), Arg("c", "", "", true)];
    NestedTexts();
    NestedResult();
    GroupBC();
    ClosingParenEnds(r);
    FromGroup([] + [Arg("a", "", "", false)], "[b, [c]])", g, ")", r);
  }

  lemma NestedResult()
    ensures [] + [Arg("a", "", "", false)] + MarkOptional([Arg("b", "", "", false), Arg("c", "", "", true)])
         == [Arg("a", "", "", false), Arg("b", "", "", true), Arg("c", "", "", true)]
  {
    MarkTwo(Arg("b", "", "", false), Arg("c", "", "", true));
  }

  /** The group "[, b]" holds the single arg b. */
  lemma GroupB()
    ensures OptArgsSpec("[, b])") == Ok(([Arg("b", "", "", false)], ")"))
  {
    var t := "[, b])";
    MatchPlain(t, '[', ']', 1, 4);
    assert "(" + t[1..4] + ")" == "(, b)";
    SpecCommaB();
    GroupAt(t, 4, "(, b)");
    assert t[5..] == ")";
  }

  /** "(, b)": the leading ',' is dropped. */
  lemma SpecCommaB()
    ensures ParseSpec("(, b)") == Ok([Arg("b", "", "", false)])
  {
    CommaBTexts();
    CommaBInterior();
    SpecPlain("(, b)", ", b", [Arg("b", "", "", false)]);
  }

  lemma CommaBTexts()
    ensures "(, b)" == "(" + ", b" + ")" && '(' !in ", b" && ')' !in ", b"
    ensures ", b" + ")" == "," + (" " + "b)") && "b)" == "b" + ")"
    ensures Word("b") && EndsShut(" " + "b)") && Trimmed("b)")
    ensures [Arg("b", "", "", false)] == [] + [Arg("b", "", "", false)]
  {
  }

  lemma CommaBInterior()
    ensures ParseFrom([], ", b" + ")") == Ok([Arg("b", "", "", false)])
  {
    var b := [Arg("b", "", "", false)];
    CommaBTexts();
    FromWordClose([], "b", b);
    FromSpace([], "b)", b);
    FromComma([], " " + "b)", b);
  }

  /** "(a[, b])": a top-level arg, then an optional one. */
  lemma OptionalTailExample()
    ensures ParseSpec("(a[, b])") == Ok([Arg("a", "", "", false), Arg("b", "", "", true)])
  {
    OptionalTailTexts();
    OptionalTailInterior();
    SpecPlain("(a[, b])", "a[, b]", [Arg("a", "", "", false), Arg("b", "", "", true)]);
  }

  lemma OptionalTailTexts()
    ensures "(a[, b])" == "(" + "a[, b]" + ")" && '(' !in "a[, b]" && ')' !in "a[, b]"
    ensures "a[, b]" + ")" == "a" + "[, b])"
    ensures Word("a") && GroupText("[, b])")
  {
  }

  lemma OptionalTailInterior()
    ensures ParseFrom([], "a[, b]" + ")") == Ok([Arg("a", "", "", false), Arg("b", "", "", true)])
  {
    var r := [Arg("a", "", "", false), Arg("b", "", "", true)];
    OptionalTailTexts();
    OptionalTailResult();
    GroupB();
    ClosingParenEnds(r);
    FromWordGroup([], "a", "[, b])", [Arg("b", "", "", false)], ")", r);
  }

  lemma OptionalTailResult()
    ensures [] + [Arg("a", "", "", false)] + MarkOptional([Arg("b", "", "", false)])
         == [Arg("a", "", "", false), Arg("b", "", "", true)]
  {
    MarkOne(Arg("b", "", "", false));
  }

  // ---------------------------------------------------------------------
  // The ellipsis, default groups and bracketed types
  // ---------------------------------------------------------------------

  /** " ...)": the ellipsis as the last parameter, named after the one
      before it. */
  lemma EllipsisClose(args: seq<Arg>)
    ensures ParseFrom(args, " ...)") == Ok(args + [Arg(EllipsisName(args), "", "", false)])
  {
    var s := "...)";
    assert " ...)" == " " + s;
    FromSpaced(args, s);
    assert ParseTrimmed(args, s) == ParseNamed(args, s);
    assert s == "..." + ")";
    NameThen(args, "...", ")");
    assert s[3] == ')';
  }

  /** "w=v": the name step hands the text after '=' to the default. */
  lemma NameDefault(args: seq<Arg>, w: string, v: string)
    requires Word(w)
    ensures ParseTrimmed(args, w + "=" + v) == ParseDefaulted(args, Arg(w, "", "", false), v)
  {
    var s := w + "=" + v;
    assert s == w + ("=" + v);
    assert ParseTrimmed(args, s) == ParseNamed(args, s);
    NameThen(args, w, "=" + v);
    assert s[|w|] == '=' && s[|w| + 1..] == v;
  }

  /** "w:t": the name step hands the text after ':' to the type. */
  lemma NameTyped(args: seq<Arg>, w: string, t: string)
    requires Word(w)
    ensures ParseTrimmed(args, w + ":" + t) == ParseTyped(args, Arg(w, "", "", false), t)
  {
    var s := w + ":" + t;
    assert s == w + (":" + t);
    assert ParseTrimmed(args, s) == ParseNamed(args, s);
    NameThen(args, w, ":" + t);
    assert s[|w|] == ':' && s[|w| + 1..] == t;
  }

  /** "(a, ...)": after a parameter without a default the ellipsis is
      "**args". */
  lemma EllipsisArgsExample()
    ensures ParseSpec("(a, ...)") == Ok([Arg("a", "", "", false), Arg("**args", "", "", false)])
  {
    EllipsisArgsTexts();
    EllipsisArgsInterior();
    SpecPlain("(a, ...)", "a, ...", [Arg("a", "", "", false), Arg("**args", "", "", false)]);
  }

  lemma EllipsisArgsTexts()
    ensures "(a, ...)" == "(" + "a, ..." + ")" && '(' !in "a, ..." && ')' !in "a, ..."
    ensures "a, ..." + ")" == "a" + "," + " ...)"
    ensures Word("a") && EndsShut(" ...)")
  {
  }

  lemma EllipsisArgsInterior()
    ensures ParseFrom([], "a, ..." + ")") == Ok([Arg("a", "", "", false), Arg("**args", "", "", false)])
  {
    EllipsisArgsTexts();
    ArgsTail();
    FromWordComma([], "a", " ...)", [Arg("a", "", "", false), Arg("**args", "", "", false)]);
  }

  /** After the plain a, " ...)" is "**args". */
  lemma ArgsTail()
    ensures ParseFrom([] + [Arg("a", "", "", false)], " ...)")
         == Ok([Arg("a", "", "", false), Arg("**args", "", "", false)])
  {
    ArgsAfterPlain();
    EllipsisClose([Arg("a", "", "", false)]);
  }

  /** The ellipsis after a parameter without a default. */
  lemma ArgsAfterPlain()
    ensures EllipsisName([Arg("a", "", "", false)]) == "**args"
    ensures [Arg("a", "", "", false)] == [] + [Arg("a", "", "", false)]
    ensures [Arg("a", "", "", false)] + [Arg("**args", "", "", false)]
         == [Arg("a", "", "", false), Arg("**args", "", "", false)]
  {
  }

  /** "(a=1, ...)": after a parameter with a default the ellipsis is
      "**kwargs". */
  lemma EllipsisKwargsExample()
    ensures ParseSpec("(a=1, ...)") == Ok([Arg("a", "", "1", false), Arg("**kwargs", "", "", false)])
  {
    EllipsisKwargsTexts();
    EllipsisKwargsInterior();
    SpecPlain("(a=1, ...)", "a=1, ...", [Arg("a", "", "1", false), Arg("**kwargs", "", "", false)]);
  }

  lemma EllipsisKwargsTexts()
    ensures "(a=1, ...)" == "(" + "a=1, ..." + ")" && '(' !in "a=1, ..." && ')' !in "a=1, ..."
    ensures "a=1, ..." + ")" == "a" + "=" + "1, ...)"
    ensures Word("a") && EndsShut("1, ...)")
  {
  }

  lemma EllipsisKwargsInterior()
    ensures ParseFrom([], "a=1, ..." + ")") == Ok([Arg("a", "", "1", false), Arg("**kwargs", "", "", false)])
  {
    EllipsisKwargsTexts();
    KwargsDefault();
    FromWordDefault([], "a", "1, ...)", [Arg("a", "", "1", false), Arg("**kwargs", "", "", false)]);
  }

  lemma KwargsDefault()
    ensures ParseDefaulted([], Arg("a", "", "", false), "1, ...)")
         == Ok([Arg("a", "", "1", false), Arg("**kwargs", "", "", false)])
  {
    DefaultOne();
    KwargsTail();
    DefaultedThen([], Arg("a", "", "", false), "1, ...)", "1", ", ...)",
      [Arg("a", "", "1", false), Arg("**kwargs", "", "", false)]);
  }

  /** After a=1, the rest ", ...)" is "**kwargs". */
  lemma KwargsTail()
    ensures ParseFrom([] + [Arg("a", "", "", false).(defVal := "1")], TrimPrefix(", ...)", ","))
         == Ok([Arg("a", "", "1", false), Arg("**kwargs", "", "", false)])
  {
    KwargsAfterDefault();
    EllipsisClose([Arg("a", "", "1", false)]);
  }

  /** The ellipsis after a parameter with a default. */
  lemma KwargsAfterDefault()
    ensures EllipsisName([Arg("a", "", "1", false)]) == "**kwargs"
    ensures [Arg("a", "", "1", false)] == [] + [Arg("a", "", "", false).(defVal := "1")]
    ensures [Arg("a", "", "1", false)] + [Arg("**kwargs", "", "", false)]
         == [Arg("a", "", "1", false), Arg("**kwargs", "", "", false)]
    ensures TrimPrefix(", ...)", ",") == " ...)"
  {
    assert |"1"| == 1;
  }

  /** "(a=(1, 2))": a default that is a bracketed literal is taken whole,
      ',' included. */
  lemma DefaultGroupExample()
    ensures ParseSpec("(a=(1, 2))") == Ok([Arg("a", "", "(1, 2)", false)])
  {
    DefaultGroupBracket();
    DefaultGroupTexts();
    DefaultGroupInterior();
    SpecAt("(a=(1, 2))", "a=(1, 2)", [Arg("a", "", "(1, 2)", false)]);
  }

  lemma DefaultGroupBracket()
    ensures MatchingBracket("(a=(1, 2))", '(', ')') == 9
  {
    var sig := "(a=(1, 2))";
    assert MatchFrom(sig, '(', ')', 9, 1) == 9;
    assert MatchFrom(sig, '(', ')', 8, 2) == 9;
    assert MatchFrom(sig, '(', ')', 7, 2) == 9;
    assert MatchFrom(sig, '(', ')', 6, 2) == 9;
    assert MatchFrom(sig, '(', ')', 5, 2) == 9;
    assert MatchFrom(sig, '(', ')', 4, 2) == 9;
    assert MatchFrom(sig, '(', ')', 3, 1) == 9;
    assert MatchFrom(sig, '(', ')', 2, 1) == 9;
  }

  lemma DefaultGroupTexts()
    ensures "(a=(1, 2))" == "(" + "a=(1, 2)" + ")" && |"a=(1, 2)"| + 1 == 9
    ensures "a=(1, 2)" + ")" == "a" + "=" + "(1, 2))"
    ensures Word("a") && EndsShut("(1, 2))")
    ensures [Arg("a", "", "(1, 2)", false)] == [] + [Arg("a", "", "", false).(defVal := "(1, 2)")]
  {
  }

  lemma DefaultGroupInterior()
    ensures ParseFrom([], "a=(1, 2)" + ")") == Ok([Arg("a", "", "(1, 2)", false)])
  {
    DefaultGroupTexts();
    DefaultGroupDefault();
    FromWordDefault([], "a", "(1, 2))", [Arg("a", "", "(1, 2)", false)]);
  }

  lemma DefaultGroupDefault()
    ensures ParseDefaulted([], Arg("a", "", "", false), "(1, 2))") == Ok([Arg("a", "", "(1, 2)", false)])
  {
    DefaultPair();
    DefaultGroupTail();
    DefaultedThen([], Arg("a", "", "", false), "(1, 2))", "(1, 2)", ")", [Arg("a", "", "(1, 2)", false)]);
  }

  /** After a=(1, 2), the lone ')' ends the parse. */
  lemma DefaultGroupTail()
    ensures ParseFrom([] + [Arg("a", "", "", false).(defVal := "(1, 2)")], TrimPrefix(")", ","))
         == Ok([Arg("a", "", "(1, 2)", false)])
  {
    DefaultGroupTexts();
    ParenRest();
    ClosingParenEnds([Arg("a", "", "(1, 2)", false)]);
  }

  /** "(a: U[b, c])": a '[' that opens a type is part of the type, ','
      included, and marks nothing Optional. */
  lemma BracketTypeExample()
    ensures ParseSpec("(a: U[b, c])") == Ok([Arg("a", "U[b, c]", "", false)])
  {
    BracketTypeTexts();
    BracketTypeInterior();
    SpecPlain("(a: U[b, c])", "a: U[b, c]", [Arg("a", "U[b, c]", "", false)]);
  }

  lemma BracketTypeTexts()
    ensures "(a: U[b, c])" == "(" + "a: U[b, c]" + ")" && '(' !in "a: U[b, c]" && ')' !in "a: U[b, c]"
    ensures "a: U[b, c]" + ")" == "a" + ":" + " U[b, c])"
    ensures Word("a") && EndsShut(" U[b, c])")
    ensures [Arg("a", "U[b, c]", "", false)] == [] + [Arg("a", "", "", false).(typ := "U[b, c]")]
  {
  }

  lemma BracketTypeInterior()
    ensures ParseFrom([], "a: U[b, c]" + ")") == Ok([Arg("a", "U[b, c]", "", false)])
  {
    BracketTypeTexts();
    BracketTypeTyped();
    FromWordTyped([], "a", " U[b, c])", [Arg("a", "U[b, c]", "", false)]);
  }

  lemma BracketTypeTyped()
    ensures ParseTyped([], Arg("a", "", "", false), " U[b, c])") == Ok([Arg("a", "U[b, c]", "", false)])
  {
    BracketType();
    ParenRest();
    BracketTypeTail();
    TypedThen([], Arg("a", "", "", false), " U[b, c])", "U[b, c]", ")", [Arg("a", "U[b, c]", "", false)]);
  }

  /** After a: U[b, c], the lone ')' ends the parse. */
  lemma BracketTypeTail()
    ensures ParseFrom([] + [Arg("a", "", "", false).(typ := "U[b, c]")], TrimPrefix(")", ","))
         == Ok([Arg("a", "U[b, c]", "", false)])
  {
    BracketTypeTexts();
    ParenRest();
    ClosingParenEnds([Arg("a", "U[b, c]", "", false)]);
  }

  /** The default "1" runs up to the ','. */
  lemma DefaultOne()
    ensures ParseDefVal("1, ...)") == Ok(("1", ", ...)"))
  {
    var v := "1, ...)";
    TrimmedUnchanged(v);
    assert !IsGroupDefault(v);
    assert IndexAny(v[1..], {'[', ',', ')'}) == 0;
    assert IndexAny(v, {'[', ',', ')'}) == 1;
    assert v[..1] == "1" && v[1..] == ", ...)";
    TrimmedUnchanged("1");
  }

  /** The default "(1, 2)" is the bracketed pair, up to its closer. */
  lemma DefaultPair()
    ensures ParseDefVal("(1, 2))") == Ok(("(1, 2)", ")"))
  {
    var v := "(1, 2))";
    TrimmedUnchanged(v);
    MatchPlain(v, '(', ')', 1, 5);
    assert Pairs[v[0]] == ')';
    assert IsGroupDefault(v);
    assert v[..6] == "(1, 2)" && v[6..] == ")";
    TrimmedUnchanged("(1, 2)");
  }

  /** The type "U[b, c]" runs past its [...] group to the closing paren. */
  lemma BracketType()
    ensures ParseType(" U[b, c])") == Ok(("U[b, c]", ")"))
  {
    var t := " U[b, c])";
    assert IndexAny(t[2..], {'=', ',', ')', '['}) == 0;
    assert IndexAny(t[1..], {'=', ',', ')', '['}) == 1;
    assert IndexAny(t, {'=', ',', ')', '['}) == 2;
    assert t[3..] == "b, c])";
    TrimmedUnchanged("b, c])");
    assert BracketOpensType(t, 2);
    assert t[2..] == "[b, c])";
    MatchPlain(t[2..], '[', ']', 1, 5);
    assert IndexAny(t[7..], {'=', ',', ')'}) == 1 by {
      assert t[7..] == "])";
      assert t[7..][1..] == ")";
    }
    assert TypeEnd(t) == Ok(8);
    assert t[..8] == " U[b, c]" && t[8..] == ")";
    assert TrimLeft(" U[b, c]") == "U[b, c]" by {
      assert " U[b, c]"[1..] == "U[b, c]";
      TrimLeftNoSpace("U[b, c]");
    }
    TrimRightNoSpace("U[b, c]");
  }
}
