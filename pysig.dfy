// The signature-string parser of tool/pysig/parse.go: it turns a
// Python-style parameter list such as "(x1, x2, /, out=None, *, where=True)"
// or the docstring form "([start,] stop[, step,], dtype=None)" into an
// ordered list of Arg records.
//
// The parser is given twice: as functions (ParseSpec, ParseFrom, OptArgsSpec)
// that state what it computes and carry the lemmas, and as the methods Parse,
// ParseOptArgs and FindMatchingBracket, which follow the loops of parse.go and
// are proved to compute those functions.
module PySig {
  import opened GoStrings

  /** One parsed parameter: its name, its type annotation, its default value
      (both kept as raw text, "" when absent) and whether it was written
      inside a documentation-style [...] group. */
  datatype Arg = Arg(name: string, typ: string, defVal: string, optional: bool)

  /** What a run of the parser comes to: a value, a Go run-time panic (an
      index or slice bound out of range), or a loop that never ends. */
  datatype Outcome<+T> = Ok(value: T) | Panic | Diverge

  // ---------------------------------------------------------------------
  // findMatchingBracket
  // ---------------------------------------------------------------------

  /** Contribution of one byte to the bracket depth; `open` is tested first,
      as in the switch of findMatchingBracket. */
  function Step(c: char, open: char, close: char): int {
    if c == open then 1 else if c == close then -1 else 0
  }

  /** Number of `open` minus number of `close` bytes among the first `k`
      bytes of `s`. */
  function DepthAt(s: string, k: nat, open: char, close: char): int
    requires k <= |s|
  {
    if k == 0 then 0 else DepthAt(s, k - 1, open, close) + Step(s[k - 1], open, close)
  }

  /** The counting loop of findMatchingBracket from position `i` on, with
      `count` the depth reached so far. */
  function MatchFrom(s: string, open: char, close: char, i: nat, count: int): (r: int)
    requires 1 <= i <= |s|
    ensures r == -1 || (i <= r < |s| && s[r] == close)
    decreases |s| - i
  {
    if i == |s| then -1
    else if s[i] == open then MatchFrom(s, open, close, i + 1, count + 1)
    else if s[i] == close then
      if count - 1 == 0 then i else MatchFrom(s, open, close, i + 1, count - 1)
    else MatchFrom(s, open, close, i + 1, count)
  }

  /** findMatchingBracket: -1, or the index of the `close` that balances
      the `open` at index 0. */
  function MatchingBracket(s: string, open: char, close: char): (r: int)
    ensures r == -1 || (1 <= r < |s| && s[0] == open && s[r] == close)
  {
    if |s| == 0 || s[0] != open then -1 else MatchFrom(s, open, close, 1, 1)
  }

  method FindMatchingBracket(sig: string, open: char, close: char) returns (r: int)
    ensures r == MatchingBracket(sig, open, close)
  {
    if |sig| == 0 || sig[0] != open {
      return -1;
    }
    var count := 1;
    var i := 1;
    while i < |sig|
      invariant 1 <= i <= |sig|
      invariant MatchFrom(sig, open, close, i, count) == MatchingBracket(sig, open, close)
    {
      if sig[i] == open {
        count := count + 1;
      } else if sig[i] == close {
        count := count - 1;
        if count == 0 {
          return i;
        }
      }
      i := i + 1;
    }
    return -1;
  }

  /** The counting loop finds nothing exactly when the depth stays
      positive to the end. */
  lemma {:induction false} MatchFromNone(s: string, open: char, close: char, i: nat, count: int)
    requires 1 <= i <= |s| && count == DepthAt(s, i, open, close) && count > 0
    ensures MatchFrom(s, open, close, i, count) == -1
            <==> forall m :: i < m <= |s| ==> DepthAt(s, m, open, close) > 0
    decreases |s| - i
  {
    if i < |s| {
      assert DepthAt(s, i + 1, open, close) == count + Step(s[i], open, close);
      if s[i] == open {
        MatchFromNone(s, open, close, i + 1, count + 1);
      } else if s[i] == close {
        if count - 1 != 0 {
          MatchFromNone(s, open, close, i + 1, count - 1);
        }
      } else {
        MatchFromNone(s, open, close, i + 1, count);
      }
    }
  }

  /** What the counting loop finds is the first index at which the depth
      gets back to 0. */
  lemma {:induction false} MatchFromFound(s: string, open: char, close: char, i: nat, count: int)
    requires 1 <= i <= |s| && count == DepthAt(s, i, open, close) && count > 0
    ensures var r := MatchFrom(s, open, close, i, count);
      r != -1 ==> DepthAt(s, r + 1, open, close) == 0
                  && forall m :: i < m <= r ==> DepthAt(s, m, open, close) > 0
    decreases |s| - i
  {
    if i < |s| {
      var next := count + Step(s[i], open, close);
      assert DepthAt(s, i + 1, open, close) == next;
      if next != 0 {
        MatchFromFound(s, open, close, i + 1, next);
        assert MatchFrom(s, open, close, i, count) == MatchFrom(s, open, close, i + 1, next);
      }
    }
  }

  /** findMatchingBracket returns the first index at which the running
      count of `open` minus `close` reaches 0, and -1 exactly when the
      string is empty, does not start with `open`, or never gets back to 0. */
  lemma MatchingBracketFirstBalance(s: string, open: char, close: char)
    ensures var r := MatchingBracket(s, open, close);
      (r == -1 <==> (s == [] || s[0] != open
                     || forall m :: 0 < m <= |s| ==> DepthAt(s, m, open, close) > 0))
      && (r != -1 ==> 1 <= r < |s| && s[r] == close && DepthAt(s, r + 1, open, close) == 0
                      && forall m :: 0 < m <= r ==> DepthAt(s, m, open, close) > 0)
  {
    if s != [] && s[0] == open {
      assert DepthAt(s, 1, open, close) == 1;
      MatchFromNone(s, open, close, 1, 1);
      MatchFromFound(s, open, close, 1, 1);
    }
  }

  /** Two strings that agree up to a found match give the same match. */
  lemma {:induction false} MatchFromAgree(s: string, s': string, open: char, close: char, i: nat, count: int, n: nat)
    requires 1 <= i <= |s| && 1 <= i <= |s'| && n <= |s| && n <= |s'| && s[..n] == s'[..n]
    requires var r := MatchFrom(s, open, close, i, count); r != -1 && r < n
    ensures MatchFrom(s', open, close, i, count) == MatchFrom(s, open, close, i, count)
    decreases |s| - i
  {
    assert s[i] == s[..n][i] == s'[..n][i] == s'[i];
    if s[i] == open {
      MatchFromAgree(s, s', open, close, i + 1, count + 1, n);
    } else if s[i] == close && count - 1 != 0 {
      MatchFromAgree(s, s', open, close, i + 1, count - 1, n);
    } else if s[i] != close {
      MatchFromAgree(s, s', open, close, i + 1, count, n);
    }
  }

  /** The depth over a slice is the difference of the depths at its ends. */
  lemma {:induction false} DepthSlice(s: string, d: nat, n: nat, j: nat, open: char, close: char)
    requires d + j <= n <= |s|
    ensures DepthAt(s[d..n], j, open, close) == DepthAt(s, d + j, open, close) - DepthAt(s, d, open, close)
  {
    if j > 0 {
      DepthSlice(s, d, n, j - 1, open, close);
      assert s[d..n][j - 1] == s[d + j - 1];
    }
  }

  // ---------------------------------------------------------------------
  // The text the parser loop works on
  // ---------------------------------------------------------------------

  /** The text left to parse ends with the closing ')' of the signature and
      every '(' in it has its matching ')': this is what makes Parse's
      `(`-branch (which would otherwise repeat forever) always advance. */
  predicate Closed(s: string) {
    (s == [] || s[|s| - 1] == ')')
    && forall k :: 0 <= k < |s| ==> OpenMatched(s, k)
  }

  /** The byte at `k`, if it is a '(', has its matching ')'. */
  predicate OpenMatched(s: string, k: nat)
    requires k < |s|
  {
    s[k] == '(' ==> MatchingBracket(s[k..], '(', ')') > 0
  }

  lemma SuffixTrans(a: string, b: string, c: string)
    requires IsSuffix(a, b) && IsSuffix(b, c)
    ensures IsSuffix(a, c)
  {
  }

  lemma ClosedSuffix(t: string, s: string)
    requires Closed(s) && IsSuffix(t, s)
    ensures Closed(t)
  {
    var d := |s| - |t|;
    forall k | 0 <= k < |t|
      ensures OpenMatched(t, k)
    {
      assert OpenMatched(s, d + k);
      assert t[k] == s[d + k];
      assert t[k..] == s[d + k..];
    }
  }

  lemma TrimClosed(s: string)
    requires Closed(s)
    ensures IsSuffix(TrimSpace(s), s) && Closed(TrimSpace(s))
  {
    if s != [] {
      TrimSpaceSuffix(s);
      ClosedSuffix(TrimSpace(s), s);
    }
  }

  /** Cutting the signature at its balancing ')' and dropping the leading
      '(' leaves a Closed text. */
  lemma TruncatedClosed(sig: string)
    requires MatchingBracket(sig, '(', ')') != -1
    ensures var e := MatchingBracket(sig, '(', ')'); Closed(sig[1..e + 1])
  {
    var e := MatchingBracket(sig, '(', ')');
    MatchingBracketFirstBalance(sig, '(', ')');
    var S := sig[1..e + 1];
    forall k | 0 <= k < |S|
      ensures OpenMatched(S, k)
    {
      if S[k] == '(' {
        TruncatedOpenMatched(sig, e, k);
      }
    }
  }

  lemma TruncatedOpenMatched(sig: string, e: int, k: nat)
    requires e == MatchingBracket(sig, '(', ')') && e != -1
    requires k < e && sig[k + 1] == '('
    ensures MatchingBracket(sig[1..e + 1][k..], '(', ')') > 0
  {
    MatchingBracketFirstBalance(sig, '(', ')');
    var T := sig[k + 1..e + 1];
    assert sig[1..e + 1][k..] == T;
    DepthSlice(sig, k + 1, e + 1, |T|, '(', ')');
    assert DepthAt(sig, k + 1, '(', ')') > 0;
    assert DepthAt(T, |T|, '(', ')') < 0;
    MatchingBracketFirstBalance(T, '(', ')');
  }

  // ---------------------------------------------------------------------
  // parseType and parseDefVal
  // ---------------------------------------------------------------------

  /** The text ends with the signature's closing ')'. */
  predicate EndsWithClose(t: string) {
    t != [] && t[|t| - 1] == ')'
  }

  /** The condition under which parseType skips over a '[' group: something
      other than ',' follows it after white space. */
  predicate BracketOpensType(t: string, right: int)
    requires 0 <= right < |t|
  {
    var tmp := TrimSpace(t[right + 1..]);
    |tmp| > 0 && tmp[0] != ','
  }

  /** The input on which parseType slices with a negative bound and panics:
      its first delimiter is a '[' at index 0 that opens a type but has no
      matching ']' (for instance "[b)" in "(a:[b)"). */
  predicate TypeBracketUnmatched(t: string) {
    t != [] && t[0] == '[' && BracketOpensType(t, 0) && MatchingBracket(t, '[', ']') == -1
  }

  /** Where parseType cuts the text: the index of the first top-level '=',
      ',' or ')' (after skipping one [...] group that opens a type), or 0
      when the text holds none of its delimiters. */
  function TypeEnd(t: string): (r: Outcome<nat>)
    ensures r.Ok? ==> r.value <= |t|
    ensures !r.Diverge?
  {
    var right := IndexAny(t, {'=', ',', ')', '['});
    if right < 0 then Ok(0)
    else if t[right] == '[' && BracketOpensType(t, right) then
      var right1 := right + MatchingBracket(t[right..], '[', ']');
      if right1 < 0 then Panic else GroupEnd(t, right1)
    else Ok(right)
  }

  /** Where parseType cuts the text after a [...] group that closes at
      right1: at the next '=', ',' or ')'. */
  function GroupEnd(t: string, right1: nat): (r: Outcome<nat>)
    requires right1 < |t|
    ensures r.Ok? ==> r.value <= |t|
    ensures !r.Diverge?
  {
    var right2 := right1 + IndexAny(t[right1..], {'=', ',', ')'});
    if right2 < 0 then Panic else Ok(right2)
  }

  /** parseType: the trimmed type annotation and the text from its end on. */
  function ParseType(t: string): (r: Outcome<(string, string)>)
    ensures r.Ok? ==> IsSuffix(r.value.1, t) && r.value.0 == TrimSpace(t[..|t| - |r.value.1|])
    ensures r.Panic? <==> TypeEnd(t).Panic?
    ensures !r.Diverge?
  {
    match TypeEnd(t)
    case Ok(k) => Ok((TrimSpace(t[..k]), t[k..]))
    case _ => Panic
  }

  /** Where parseType leaves the text: at '=', ',' or ')', or at a '['
      that does not open a type. */
  predicate StopsAtDelimiter(rest: string) {
    rest != [] && rest[0] in {'=', ',', ')', '['}
    && (rest[0] == '[' ==> !BracketOpensType(rest, 0))
  }

  /** On text that ends with the signature's ')', as every text the parser
      hands to parseType does, parseType panics exactly on an unmatched type
      bracket at the very start, and otherwise stops at one of its
      delimiters, a '[' only when that does not open a type. */
  lemma ParseTypeOnClosed(t: string)
    requires EndsWithClose(t)
    ensures ParseType(t).Panic? <==> TypeBracketUnmatched(t)
    ensures ParseType(t).Ok? ==> StopsAtDelimiter(ParseType(t).value.1)
  {
    TypeEndOnClosed(t);
  }

  lemma TypeEndOnClosed(t: string)
    requires EndsWithClose(t)
    ensures TypeEnd(t).Panic? <==> TypeBracketUnmatched(t)
    ensures TypeEnd(t).Ok? ==> StopsAtDelimiter(t[TypeEnd(t).value..])
  {
    var right := IndexAny(t, {'=', ',', ')', '['});
    IndexAnyFirst(t, {'=', ',', ')', '['});
    assert t[|t| - 1] in {'=', ',', ')', '['};
    assert t[0] == '[' ==> right == 0;
    if t[right] == '[' && BracketOpensType(t, right) {
      var length := MatchingBracket(t[right..], '[', ']');
      if right + length < 0 {
        TypeEndUnmatched(t, right);
      } else {
        TypeEndGroup(t, right, length);
        if t[0] == '[' {
          GroupMatched(t, length);
        }
      }
    } else {
      TypeEndPlain(t, right);
    }
  }

  lemma TypeEndUnmatched(t: string, right: int)
    requires right == IndexAny(t, {'=', ',', ')', '['}) && right >= 0
    requires t[right] == '[' && BracketOpensType(t, right)
    requires right + MatchingBracket(t[right..], '[', ']') < 0
    ensures TypeEnd(t).Panic? && TypeBracketUnmatched(t)
  {
    assert right == 0;
    assert t[0..] == t;
  }

  lemma TypeEndGroup(t: string, right: int, length: int)
    requires EndsWithClose(t) && right == IndexAny(t, {'=', ',', ')', '['}) && right >= 0
    requires t[right] == '[' && BracketOpensType(t, right)
    requires length == MatchingBracket(t[right..], '[', ']') && right + length >= 0
    ensures TypeEnd(t).Ok? && StopsAtDelimiter(t[TypeEnd(t).value..])
  {
    TypeEndAtGroup(t, right, length);
    GroupTail(t, right + length);
    var e := GroupEnd(t, right + length).value;
    assert TypeEnd(t).value == e;
  }

  /** When the first delimiter is a '[' that opens a type and has a match,
      the cut is where GroupEnd puts it. */
  lemma TypeEndAtGroup(t: string, right: int, length: int)
    requires right == IndexAny(t, {'=', ',', ')', '['}) && right >= 0
    requires t[right] == '[' && BracketOpensType(t, right)
    requires length == MatchingBracket(t[right..], '[', ']') && right + length >= 0
    ensures TypeEnd(t) == GroupEnd(t, right + length)
  {
  }

  /** A type bracket at the start that has a match is not unmatched. */
  lemma GroupMatched(t: string, length: int)
    requires t != [] && length == MatchingBracket(t[0..], '[', ']') && length >= 0
    ensures !TypeBracketUnmatched(t)
  {
    assert t[0..] == t;
  }

  lemma TypeEndPlain(t: string, right: int)
    requires right == IndexAny(t, {'=', ',', ')', '['}) && right >= 0
    requires t[0] == '[' ==> right == 0
    requires !(t[right] == '[' && BracketOpensType(t, right))
    ensures TypeEnd(t).Ok? && TypeEnd(t).value == right && !TypeBracketUnmatched(t)
    ensures StopsAtDelimiter(t[right..])
  {
    if t[right] == '[' {
      assert t[right..][1..] == t[right + 1..];
    }
  }

  /** After a skipped group, the closing ')' guarantees a delimiter. */
  lemma GroupTail(t: string, right1: nat)
    requires EndsWithClose(t) && right1 < |t|
    ensures GroupEnd(t, right1).Ok? && StopsAtDelimiter(t[GroupEnd(t, right1).value..])
  {
    var u := t[right1..];
    assert u[|u| - 1] == ')';
    IndexAnyFirst(u, {'=', ',', ')'});
    var idx := IndexAny(u, {'=', ',', ')'});
    assert t[right1 + idx..] == u[idx..];
    assert u[idx..][0] == u[idx];
  }

  /** The bracket pairs a default value may start with. */
  const Pairs: map<char, char> := map['(' := ')', '[' := ']', '{' := '}']

  /** The default value is a whole bracketed literal. */
  predicate IsGroupDefault(s: string) {
    s != [] && s[0] in Pairs && MatchingBracket(s, s[0], Pairs[s[0]]) > 0
  }

  /** parseDefVal: a default value that starts with '(', '[' or '{' is the
      whole balanced group; any other runs up to the first '[', ',' or ')',
      and is "" with "" left over when that delimiter comes first. The
      Go function parseDefVal indexes the trimmed text, so blank text panics. */
  function ParseDefVal(v: string): (r: Outcome<(string, string)>)
    ensures r.Panic? <==> TrimSpace(v) == []
    ensures r.Ok? ==> IsSuffix(r.value.1, TrimSpace(v)) && Trimmed(r.value.0)
    ensures !r.Diverge?
  {
    var s := TrimSpace(v);
    if s == [] then Panic
    else if IsGroupDefault(s) then
      var idx := MatchingBracket(s, s[0], Pairs[s[0]]);
      Ok((TrimSpace(s[..idx + 1]), s[idx + 1..]))
    else
      var pos := IndexAny(s, {'[', ',', ')'});
      if pos > 0 then Ok((TrimSpace(s[..pos]), s[pos..]))
      else Ok(("", ""))
  }

  /** A default value that is a bracketed literal is taken whole, balanced
      brackets included, and nothing of the text is lost. */
  lemma ParseDefValGroup(v: string)
    requires TrimSpace(v) != [] && IsGroupDefault(TrimSpace(v))
    ensures var s, r := TrimSpace(v), ParseDefVal(v).value;
      s == r.0 + r.1 && MatchingBracket(r.0, s[0], Pairs[s[0]]) == |r.0| - 1
  {
    var s := TrimSpace(v);
    var idx := MatchingBracket(s, s[0], Pairs[s[0]]);
    var r := ParseDefVal(v).value;
    assert r.1 == s[idx + 1..];
    assert r.0 == TrimSpace(s[..idx + 1]);
    GroupIsTrimmed(s, idx);
    assert r.0 == s[..idx + 1];
    assert s == s[..idx + 1] + s[idx + 1..];
  }

  /** Any other default value runs up to the first '[', ',' or ')', which
      it does not contain; when that delimiter comes first the value and
      the text left are both "". */
  lemma ParseDefValPlain(v: string)
    requires TrimSpace(v) != [] && !IsGroupDefault(TrimSpace(v))
    ensures var s, r := TrimSpace(v), ParseDefVal(v).value;
      (r.1 == [] <==> IndexAny(s, {'[', ',', ')'}) <= 0)
      && (r.1 == [] ==> r.0 == [])
      && (r.1 != [] ==> r.1[0] in {'[', ',', ')'} && r.0 == TrimSpace(s[..|s| - |r.1|])
                        && forall i :: 0 <= i < |r.0| ==> r.0[i] !in {'[', ',', ')'})
  {
    var s := TrimSpace(v);
    var pos := IndexAny(s, {'[', ',', ')'});
    IndexAnyFirst(s, {'[', ',', ')'});
    if pos > 0 {
      TrimSpaceInner(s[..pos]);
    }
  }

  lemma GroupIsTrimmed(s: string, idx: int)
    requires IsGroupDefault(s) && idx == MatchingBracket(s, s[0], Pairs[s[0]])
    ensures TrimSpace(s[..idx + 1]) == s[..idx + 1]
    ensures MatchingBracket(s[..idx + 1], s[0], Pairs[s[0]]) == idx
  {
    TrimLeftNoSpace(s[..idx + 1]);
    TrimRightNoSpace(s[..idx + 1]);
    MatchFromAgree(s, s[..idx + 1], s[0], Pairs[s[0]], 1, 1, idx + 1);
  }

  /** Trimming keeps only bytes of the input. */
  lemma TrimSpaceInner(s: string)
    ensures forall c :: c in TrimSpace(s) ==> c in s
  {
    var l := TrimLeft(s);
    TrimLeftDropsSpace(s);
    assert forall c :: c in l ==> c in s;
  }

  // ---------------------------------------------------------------------
  // Parse and parseOptArgs as functions
  // ---------------------------------------------------------------------

  /** Every arg of a group gets Optional set. */
  function MarkOptional(args: seq<Arg>): (r: seq<Arg>)
    ensures |r| == |args|
    ensures forall i :: 0 <= i < |r| ==> r[i] == args[i].(optional := true)
  {
    seq(|args|, i requires 0 <= i < |args| => args[i].(optional := true))
  }

  /** The name of the ellipsis parameter: "**kwargs" after a parameter with
      a default value, "**args" otherwise. */
  function EllipsisName(args: seq<Arg>): string {
    if |args| > 0 && args[|args| - 1].defVal != "" then "**kwargs" else "**args"
  }

  /** Parse: the args of the text between the leading '(' and its
      balancing ')', or none when there is no such pair. */
  function ParseSpec(sig: string): Outcome<seq<Arg>>
    decreases |sig|, 0
  {
    var end := MatchingBracket(sig, '(', ')');
    if end == -1 then Ok([])
    else ParseFrom([], sig[1..end + 1])
  }

  /** parseOptArgs: the args of the interior of the [...] group at the
      start of `sig`, parsed as a signature of its own, and the text after
      the group; no args and "" when the group is not closed. */
  function OptArgsSpec(sig: string): (r: Outcome<(seq<Arg>, string)>)
    ensures r.Ok? ==> IsSuffix(r.value.1, sig) && (sig != [] ==> |r.value.1| < |sig|)
    decreases |sig|, 1
  {
    var end := MatchingBracket(sig, '[', ']');
    if end == -1 then Ok(([], []))
    else
      match ParseSpec("(" + sig[1..end] + ")")
      case Ok(optArgs) => Ok((optArgs, sig[end + 1..]))
      case Panic => Panic
      case Diverge => Diverge
  }

  /** The loop of Parse: `args` collected so far, `sig` the text left. The
      `(`-branch of Parse's loop repeats forever when the '(' has no match. */
  function ParseFrom(args: seq<Arg>, sig: string): Outcome<seq<Arg>>
    decreases |sig|, 4
  {
    ParseTrimmed(args, TrimSpace(sig))
  }

  /** One iteration of the loop of Parse on the trimmed text `s`. */
  function ParseTrimmed(args: seq<Arg>, s: string): Outcome<seq<Arg>>
    decreases |s|, 3
  {
    if s == [] then Ok(args)
    else if s[0] == '[' then
      var opt := OptArgsSpec(s);
      if opt.Ok? then ParseFrom(args + MarkOptional(opt.value.0), opt.value.1)
      else if opt.Panic? then Panic
      else Diverge
    else if s[0] == '(' then
      var pos := MatchingBracket(s, '(', ')');
      if pos > 0 then ParseFrom(args + [Arg(TrimSpace(s[..pos + 1]), "", "", false)], s[pos + 1..])
      else Diverge
    else ParseNamed(args, s)
  }

  /** One iteration of the loop of Parse on a parameter written by name:
      the name up to the first ',', ':', '=', '[' or ')', then what that
      delimiter introduces. */
  function ParseNamed(args: seq<Arg>, s: string): Outcome<seq<Arg>>
    decreases |s|, 2
  {
    var pos := IndexAny(s, {',', ':', '=', '[', ')'});
    if pos < 0 || (pos == 0 && s[0] == ')') then Ok(args)
    else
      var name := TrimSpace(s[..pos]);
      if name == [] then ParseFrom(args, s[1..])
      else
        ParseSplit(args, Arg(if name == "..." then EllipsisName(args) else name, "", "", false), s, pos)
  }

  /** The switch on the delimiter at `pos` that ended the name of `arg`. */
  function ParseSplit(args: seq<Arg>, arg: Arg, s: string, pos: nat): Outcome<seq<Arg>>
    requires 0 < pos < |s|
    decreases |s|, 1
  {
    if s[pos] == ',' then ParseFrom(args + [arg], s[pos + 1..])
    else if s[pos] == ':' then ParseTyped(args, arg, s[pos + 1..])
    else if s[pos] == '=' then ParseDefaulted(args, arg, s[pos + 1..])
    else if s[pos] == '[' then
      var opt := OptArgsSpec(s[pos..]);
      if opt.Ok? then ParseFrom(args + [arg] + MarkOptional(opt.value.0), opt.value.1)
      else if opt.Panic? then Panic
      else Diverge
    else Ok(args + [arg])
  }

  /** After "name:": the type, then "=default" when an '=' follows, then
      one ',' if present. Parse reads the first byte after the type
      unguarded. */
  function ParseTyped(args: seq<Arg>, arg: Arg, t: string): Outcome<seq<Arg>>
    decreases |t|, 5
  {
    var parsed := ParseType(t);
    if parsed.Panic? then Panic
    else
      var (typ, rest) := parsed.value;
      if rest == [] then Panic
      else if rest[0] == '=' then ParseDefaulted(args, arg.(typ := typ), rest[1..])
      else ParseFrom(args + [arg.(typ := typ)], TrimPrefix(rest, ","))
  }

  /** After '=': the default value, then one ',' if present. */
  function ParseDefaulted(args: seq<Arg>, arg: Arg, v: string): Outcome<seq<Arg>>
    decreases |v|, 5
  {
    var parsed := ParseDefVal(v);
    if parsed.Panic? then Panic
    else
      var (defVal, rest) := parsed.value;
      ParseFrom(args + [arg.(defVal := defVal)], TrimPrefix(rest, ","))
  }

  // ---------------------------------------------------------------------
  // What every parsed Arg looks like
  // ---------------------------------------------------------------------

  /** A parsed Arg has a name, which is never the "..." placeholder, and
      its name, type and default value carry no surrounding white space. */
  predicate WellFormed(a: Arg) {
    a.name != [] && a.name != "..." && Trimmed(a.name) && Trimmed(a.typ) && Trimmed(a.defVal)
  }

  predicate AllWellFormed(args: seq<Arg>) {
    forall i :: 0 <= i < |args| ==> WellFormed(args[i])
  }

  lemma MarkOptionalWellFormed(args: seq<Arg>)
    requires AllWellFormed(args)
    ensures AllWellFormed(MarkOptional(args))
  {
  }

  /** Every Arg that Parse returns is well formed. */
  lemma {:induction false} SpecWellFormed(sig: string)
    ensures ParseSpec(sig).Ok? ==> AllWellFormed(ParseSpec(sig).value)
    decreases |sig|, 0
  {
    var end := MatchingBracket(sig, '(', ')');
    if end != -1 {
      FromWellFormed([], sig[1..end + 1]);
    }
  }

  lemma {:induction false} OptArgsWellFormed(sig: string)
    ensures OptArgsSpec(sig).Ok? ==> AllWellFormed(OptArgsSpec(sig).value.0)
    decreases |sig|, 1
  {
    var end := MatchingBracket(sig, '[', ']');
    if end != -1 {
      SpecWellFormed("(" + sig[1..end] + ")");
    }
  }

  lemma {:induction false} FromWellFormed(args: seq<Arg>, sig: string)
    requires AllWellFormed(args)
    ensures ParseFrom(args, sig).Ok? ==> AllWellFormed(ParseFrom(args, sig).value)
    decreases |sig|, 4
  {
    TrimmedWellFormed(args, TrimSpace(sig));
  }

  lemma {:induction false} TrimmedWellFormed(args: seq<Arg>, s: string)
    requires AllWellFormed(args)
    ensures ParseTrimmed(args, s).Ok? ==> AllWellFormed(ParseTrimmed(args, s).value)
    decreases |s|, 3
  {
    if s == [] {
    } else if s[0] == '[' {
      OptArgsWellFormed(s);
      var opt := OptArgsSpec(s);
      if opt.Ok? {
        MarkOptionalWellFormed(opt.value.0);
        FromWellFormed(args + MarkOptional(opt.value.0), opt.value.1);
      }
    } else if s[0] == '(' {
      var pos := MatchingBracket(s, '(', ')');
      if pos > 0 {
        TrimSpaceKeepsFirst(s[..pos + 1]);
        FromWellFormed(args + [Arg(TrimSpace(s[..pos + 1]), "", "", false)], s[pos + 1..]);
      }
    } else {
      NamedWellFormed(args, s);
    }
  }

  lemma {:induction false} NamedWellFormed(args: seq<Arg>, s: string)
    requires AllWellFormed(args)
    ensures ParseNamed(args, s).Ok? ==> AllWellFormed(ParseNamed(args, s).value)
    decreases |s|, 2
  {
    var pos := IndexAny(s, {',', ':', '=', '[', ')'});
    if pos < 0 || (pos == 0 && s[0] == ')') {
    } else {
      var name := TrimSpace(s[..pos]);
      if name == [] {
        FromWellFormed(args, s[1..]);
      } else {
        NamedArg(args, s, pos);
        SplitWellFormed(args, Arg(if name == "..." then EllipsisName(args) else name, "", "", false), s, pos);
      }
    }
  }

  /** The Arg a name starts is well formed. */
  lemma NamedArg(args: seq<Arg>, s: string, pos: int)
    requires 0 <= pos < |s| && TrimSpace(s[..pos]) != []
    ensures pos > 0
    ensures var name := TrimSpace(s[..pos]);
      WellFormed(Arg(if name == "..." then EllipsisName(args) else name, "", "", false))
  {
  }

  lemma {:induction false} SplitWellFormed(args: seq<Arg>, arg: Arg, s: string, pos: nat)
    requires AllWellFormed(args) && WellFormed(arg) && 0 < pos < |s|
    ensures ParseSplit(args, arg, s, pos).Ok? ==> AllWellFormed(ParseSplit(args, arg, s, pos).value)
    decreases |s|, 1
  {
    if s[pos] == ',' {
      FromWellFormed(args + [arg], s[pos + 1..]);
    } else if s[pos] == ':' {
      TypedWellFormed(args, arg, s[pos + 1..]);
    } else if s[pos] == '=' {
      DefaultedWellFormed(args, arg, s[pos + 1..]);
    } else if s[pos] == '[' {
      OptArgsWellFormed(s[pos..]);
      var opt := OptArgsSpec(s[pos..]);
      if opt.Ok? {
        MarkOptionalWellFormed(opt.value.0);
        FromWellFormed(args + [arg] + MarkOptional(opt.value.0), opt.value.1);
      }
    }
  }

  lemma {:induction false} TypedWellFormed(args: seq<Arg>, arg: Arg, t: string)
    requires AllWellFormed(args) && WellFormed(arg)
    ensures ParseTyped(args, arg, t).Ok? ==> AllWellFormed(ParseTyped(args, arg, t).value)
    decreases |t|, 5
  {
    var parsed := ParseType(t);
    if parsed.Ok? {
      var (typ, rest) := parsed.value;
      var typed := arg.(typ := typ);
      assert WellFormed(typed);
      if rest != [] {
        if rest[0] == '=' {
          DefaultedWellFormed(args, typed, rest[1..]);
          assert ParseTyped(args, arg, t) == ParseDefaulted(args, typed, rest[1..]);
        } else {
          AppendWellFormed(args, typed);
          FromWellFormed(args + [typed], TrimPrefix(rest, ","));
          assert ParseTyped(args, arg, t) == ParseFrom(args + [typed], TrimPrefix(rest, ","));
        }
      }
    }
  }

  lemma AppendWellFormed(args: seq<Arg>, arg: Arg)
    requires AllWellFormed(args) && WellFormed(arg)
    ensures AllWellFormed(args + [arg])
  {
    var l := args + [arg];
    assert forall i :: 0 <= i < |l| ==> l[i] == if i < |args| then args[i] else arg;
  }

  lemma {:induction false} DefaultedWellFormed(args: seq<Arg>, arg: Arg, v: string)
    requires AllWellFormed(args) && WellFormed(arg)
    ensures ParseDefaulted(args, arg, v).Ok? ==> AllWellFormed(ParseDefaulted(args, arg, v).value)
    decreases |v|, 5
  {
    var parsed := ParseDefVal(v);
    if parsed.Ok? {
      var (defVal, rest) := parsed.value;
      var defaulted := arg.(defVal := defVal);
      assert WellFormed(defaulted);
      AppendWellFormed(args, defaulted);
      FromWellFormed(args + [defaulted], TrimPrefix(rest, ","));
      assert ParseDefaulted(args, arg, v) == ParseFrom(args + [defaulted], TrimPrefix(rest, ","));
    }
  }

  // ---------------------------------------------------------------------
  // Optional marks exactly the args of [...] groups
  // ---------------------------------------------------------------------

  predicate NoneOptional(args: seq<Arg>) {
    forall i :: 0 <= i < |args| ==> !args[i].optional
  }

  lemma NoGroupSuffix(t: string, s: string)
    requires '[' !in s && IsSuffix(t, s)
    ensures '[' !in t
  {
  }

  /** A signature without any '[' has no [...] group, and none of the
      args Parse returns for it is marked Optional. */
  lemma {:induction false} SpecNotOptional(sig: string)
    requires '[' !in sig
    ensures ParseSpec(sig).Ok? ==> NoneOptional(ParseSpec(sig).value)
    decreases |sig|, 0
  {
    var end := MatchingBracket(sig, '(', ')');
    if end != -1 {
      assert '[' !in sig[1..end + 1];
      FromNotOptional([], sig[1..end + 1]);
    }
  }

  lemma {:induction false} FromNotOptional(args: seq<Arg>, sig: string)
    requires '[' !in sig && NoneOptional(args)
    ensures ParseFrom(args, sig).Ok? ==> NoneOptional(ParseFrom(args, sig).value)
    decreases |sig|, 4
  {
    TrimSpaceInner(sig);
    TrimmedNotOptional(args, TrimSpace(sig));
  }

  lemma {:induction false} TrimmedNotOptional(args: seq<Arg>, s: string)
    requires '[' !in s && NoneOptional(args)
    ensures ParseTrimmed(args, s).Ok? ==> NoneOptional(ParseTrimmed(args, s).value)
    decreases |s|, 3
  {
    if s != [] && s[0] == '(' {
      var pos := MatchingBracket(s, '(', ')');
      if pos > 0 {
        NoGroupSuffix(s[pos + 1..], s);
        FromNotOptional(args + [Arg(TrimSpace(s[..pos + 1]), "", "", false)], s[pos + 1..]);
      }
    } else if s != [] {
      assert s[0] != '[';
      NamedNotOptional(args, s);
    }
  }

  lemma {:induction false} NamedNotOptional(args: seq<Arg>, s: string)
    requires '[' !in s && NoneOptional(args) && s != [] && s[0] != '(' && s[0] != '['
    ensures ParseNamed(args, s).Ok? ==> NoneOptional(ParseNamed(args, s).value)
    decreases |s|, 2
  {
    var pos := IndexAny(s, {',', ':', '=', '[', ')'});
    if pos >= 0 && !(pos == 0 && s[0] == ')') {
      var name := TrimSpace(s[..pos]);
      if name == [] {
        NoGroupSuffix(s[1..], s);
        FromNotOptional(args, s[1..]);
      } else {
        NamedArg(args, s, pos);
        SplitNotOptional(args, Arg(if name == "..." then EllipsisName(args) else name, "", "", false), s, pos);
      }
    }
  }

  lemma {:induction false} SplitNotOptional(args: seq<Arg>, arg: Arg, s: string, pos: nat)
    requires '[' !in s && NoneOptional(args) && !arg.optional && 0 < pos < |s|
    ensures ParseSplit(args, arg, s, pos).Ok? ==> NoneOptional(ParseSplit(args, arg, s, pos).value)
    decreases |s|, 1
  {
    NoGroupSuffix(s[pos + 1..], s);
    assert s[pos] != '[';
    if s[pos] == ',' {
      FromNotOptional(args + [arg], s[pos + 1..]);
    } else if s[pos] == ':' {
      TypedNotOptional(args, arg, s[pos + 1..]);
    } else if s[pos] == '=' {
      DefaultedNotOptional(args, arg, s[pos + 1..]);
    }
  }

  lemma {:induction false} TypedNotOptional(args: seq<Arg>, arg: Arg, t: string)
    requires '[' !in t && NoneOptional(args) && !arg.optional
    ensures ParseTyped(args, arg, t).Ok? ==> NoneOptional(ParseTyped(args, arg, t).value)
    decreases |t|, 5
  {
    var parsed := ParseType(t);
    if parsed.Ok? {
      var (typ, rest) := parsed.value;
      NoGroupSuffix(rest, t);
      if rest != [] {
        if rest[0] == '=' {
          NoGroupSuffix(rest[1..], rest);
          DefaultedNotOptional(args, arg.(typ := typ), rest[1..]);
        } else {
          NoGroupSuffix(TrimPrefix(rest, ","), rest);
          FromNotOptional(args + [arg.(typ := typ)], TrimPrefix(rest, ","));
        }
      }
    }
  }

  lemma {:induction false} DefaultedNotOptional(args: seq<Arg>, arg: Arg, v: string)
    requires '[' !in v && NoneOptional(args) && !arg.optional
    ensures ParseDefaulted(args, arg, v).Ok? ==> NoneOptional(ParseDefaulted(args, arg, v).value)
    decreases |v|, 5
  {
    var parsed := ParseDefVal(v);
    if parsed.Ok? {
      var (defVal, rest) := parsed.value;
      TrimSpaceInner(v);
      NoGroupSuffix(rest, TrimSpace(v));
      NoGroupSuffix(TrimPrefix(rest, ","), rest);
      FromNotOptional(args + [arg.(defVal := defVal)], TrimPrefix(rest, ","));
    }
  }

  /** Where an Arg of the result comes from: a top-level Arg (written by
      name or as a "(...)" group), or the args of a [...] group, which
      parseOptArgs parses from the group's text `text` at any depth. */
  datatype Segment = Top(arg: Arg) | Group(text: string, groupArgs: seq<Arg>)

  function SegmentArgs(seg: Segment): seq<Arg> {
    match seg
    case Top(a) => [a]
    case Group(_, g) => MarkOptional(g)
  }

  /** The args of a sequence of segments, in order. */
  function Flatten(segs: seq<Segment>): seq<Arg>
    decreases |segs|
  {
    if segs == [] then [] else SegmentArgs(segs[0]) + Flatten(segs[1..])
  }

  /** A top-level Arg is not Optional; a group is a '['-led text at the
      end of `sig` whose interior parseOptArgs parses to its args. */
  predicate SegmentIn(seg: Segment, sig: string) {
    match seg
    case Top(a) => !a.optional
    case Group(t, g) =>
      t != [] && t[0] == '[' && IsSuffix(t, sig)
      && OptArgsSpec(t).Ok? && OptArgsSpec(t).value.0 == g
  }

  predicate SegmentsIn(segs: seq<Segment>, sig: string) {
    forall k :: 0 <= k < |segs| ==> SegmentIn(segs[k], sig)
  }

  lemma SegmentsWiden(segs: seq<Segment>, t: string, s: string)
    requires SegmentsIn(segs, t) && IsSuffix(t, s)
    ensures SegmentsIn(segs, s)
  {
    forall k | 0 <= k < |segs|
      ensures SegmentIn(segs[k], s)
    {
      if segs[k].Group? {
        SuffixTrans(segs[k].text, t, s);
      }
    }
  }

  lemma FlattenCons(seg: Segment, segs: seq<Segment>)
    ensures Flatten([seg] + segs) == SegmentArgs(seg) + Flatten(segs)
  {
    assert ([seg] + segs)[1..] == segs;
  }

  lemma ArgsAssoc(a: seq<Arg>, b: seq<Arg>, c: seq<Arg>)
    ensures (a + b) + c == a + (b + c)
  {
  }

  /** Consing a segment: args + X + Flatten(segs) is args followed by the
      segments [seg] + segs when X is the args of seg. */
  lemma ConsSegment(args: seq<Arg>, seg: Segment, segs: seq<Segment>, t: string, s: string)
    requires SegmentIn(seg, s) && SegmentsIn(segs, t) && IsSuffix(t, s)
    ensures (args + SegmentArgs(seg)) + Flatten(segs) == args + Flatten([seg] + segs)
    ensures SegmentsIn([seg] + segs, s)
  {
    FlattenCons(seg, segs);
    ArgsAssoc(args, SegmentArgs(seg), Flatten(segs));
    SegmentsWiden(segs, t, s);
    assert forall k :: 0 < k < |[seg] + segs| ==> ([seg] + segs)[k] == segs[k - 1];
  }

  /** Optional marks exactly the args of [...] groups: the args Parse
      returns are the top-level args, none Optional, and the args of each
      [...] group of the text between the parentheses, all Optional, in the
      order of the text. */
  lemma {:induction false} SpecSegments(sig: string) returns (segs: seq<Segment>)
    ensures var end := MatchingBracket(sig, '(', ')');
      ParseSpec(sig).Ok? && end != -1 ==>
        ParseSpec(sig).value == Flatten(segs) && SegmentsIn(segs, sig[1..end + 1])
    ensures MatchingBracket(sig, '(', ')') == -1 ==> ParseSpec(sig) == Ok([])
  {
    segs := [];
    var end := MatchingBracket(sig, '(', ')');
    if end != -1 {
      TruncatedClosed(sig);
      segs := FromSegments([], sig[1..end + 1]);
    }
  }

  /** The same, stated for every signature: the result of Parse splits
      into top-level args, none Optional, and the args of [...] groups of
      the text between the parentheses, all Optional. */
  lemma OptionalExactlyGroups(sig: string)
    ensures var end := MatchingBracket(sig, '(', ')');
      ParseSpec(sig).Ok? && end != -1 ==>
        exists segs :: ParseSpec(sig).value == Flatten(segs) && SegmentsIn(segs, sig[1..end + 1])
  {
    var segs := SpecSegments(sig);
  }

  lemma {:induction false} FromSegments(args: seq<Arg>, sig: string) returns (segs: seq<Segment>)
    requires Closed(sig)
    ensures ParseFrom(args, sig).Ok? ==>
      ParseFrom(args, sig).value == args + Flatten(segs) && SegmentsIn(segs, sig)
    decreases |sig|, 4
  {
    TrimClosed(sig);
    segs := TrimmedSegments(args, TrimSpace(sig));
    if ParseFrom(args, sig).Ok? {
      SegmentsWiden(segs, TrimSpace(sig), sig);
    }
  }

  lemma {:induction false} TrimmedSegments(args: seq<Arg>, s: string) returns (segs: seq<Segment>)
    requires Closed(s)
    ensures ParseTrimmed(args, s).Ok? ==>
      ParseTrimmed(args, s).value == args + Flatten(segs) && SegmentsIn(segs, s)
    decreases |s|, 3
  {
    segs := [];
    if s == [] {
    } else if s[0] == '[' {
      OptStep(args, s);
      var opt := OptArgsSpec(s);
      if opt.Ok? {
        var seg := Group(s, opt.value.0);
        var rest := FromSegments(args + SegmentArgs(seg), opt.value.1);
        if ParseTrimmed(args, s).Ok? {
          ConsSegment(args, seg, rest, opt.value.1, s);
        }
        segs := [seg] + rest;
      }
    } else if s[0] == '(' {
      ParenStep(args, s);
      var pos := MatchingBracket(s, '(', ')');
      var seg := Top(Arg(TrimSpace(s[..pos + 1]), "", "", false));
      var rest := FromSegments(args + SegmentArgs(seg), s[pos + 1..]);
      if ParseTrimmed(args, s).Ok? {
        ConsSegment(args, seg, rest, s[pos + 1..], s);
      }
      segs := [seg] + rest;
    } else {
      segs := NamedSegments(args, s);
    }
  }

  lemma {:induction false} NamedSegments(args: seq<Arg>, s: string) returns (segs: seq<Segment>)
    requires Closed(s)
    ensures ParseNamed(args, s).Ok? ==>
      ParseNamed(args, s).value == args + Flatten(segs) && SegmentsIn(segs, s)
    decreases |s|, 2
  {
    segs := [];
    var pos := IndexAny(s, {',', ':', '=', '[', ')'});
    if pos < 0 || (pos == 0 && s[0] == ')') {
    } else {
      var name := TrimSpace(s[..pos]);
      if name == [] {
        ClosedSuffix(s[1..], s);
        segs := FromSegments(args, s[1..]);
        if ParseNamed(args, s).Ok? {
          SegmentsWiden(segs, s[1..], s);
        }
      } else {
        NamedArg(args, s, pos);
        segs := SplitSegments(args, Arg(if name == "..." then EllipsisName(args) else name, "", "", false), s, pos);
      }
    }
  }

  lemma {:induction false} SplitSegments(args: seq<Arg>, arg: Arg, s: string, pos: nat) returns (segs: seq<Segment>)
    requires Closed(s) && 0 < pos < |s| && !arg.optional
    ensures ParseSplit(args, arg, s, pos).Ok? ==>
      ParseSplit(args, arg, s, pos).value == args + Flatten(segs) && SegmentsIn(segs, s)
    decreases |s|, 1
  {
    segs := [Top(arg)];
    if s[pos] == ',' {
      ClosedSuffix(s[pos + 1..], s);
      var rest := FromSegments(args + SegmentArgs(Top(arg)), s[pos + 1..]);
      if ParseSplit(args, arg, s, pos).Ok? {
        ConsSegment(args, Top(arg), rest, s[pos + 1..], s);
      }
      segs := [Top(arg)] + rest;
    } else if s[pos] == ':' {
      ClosedSuffix(s[pos + 1..], s);
      segs := TypedSegments(args, arg, s[pos + 1..]);
      if ParseSplit(args, arg, s, pos).Ok? {
        SegmentsWiden(segs, s[pos + 1..], s);
      }
    } else if s[pos] == '=' {
      ClosedSuffix(s[pos + 1..], s);
      segs := DefaultedSegments(args, arg, s[pos + 1..]);
      if ParseSplit(args, arg, s, pos).Ok? {
        SegmentsWiden(segs, s[pos + 1..], s);
      }
    } else if s[pos] == '[' {
      SplitOptStep(args, arg, s, pos);
      var opt := OptArgsSpec(s[pos..]);
      if opt.Ok? {
        var seg := Group(s[pos..], opt.value.0);
        var rest := FromSegments(args + [arg] + SegmentArgs(seg), opt.value.1);
        if ParseSplit(args, arg, s, pos).Ok? {
          SuffixTrans(opt.value.1, s[pos..], s);
          ConsSegment(args + [arg], seg, rest, opt.value.1, s);
          ConsSegment(args, Top(arg), [seg] + rest, s, s);
        }
        segs := [Top(arg)] + ([seg] + rest);
      }
    } else {
      if ParseSplit(args, arg, s, pos).Ok? {
        ConsSegment(args, Top(arg), [], s, s);
      }
    }
  }

  lemma {:induction false} TypedSegments(args: seq<Arg>, arg: Arg, t: string) returns (segs: seq<Segment>)
    requires Closed(t) && !arg.optional
    ensures ParseTyped(args, arg, t).Ok? ==>
      ParseTyped(args, arg, t).value == args + Flatten(segs) && SegmentsIn(segs, t)
    decreases |t|, 5
  {
    segs := [];
    var parsed := ParseType(t);
    if parsed.Ok? {
      var (typ, rest) := parsed.value;
      var typed := arg.(typ := typ);
      if rest != [] {
        ClosedSuffix(rest, t);
        if rest[0] == '=' {
          ClosedSuffix(rest[1..], rest);
          segs := DefaultedSegments(args, typed, rest[1..]);
          assert ParseTyped(args, arg, t) == ParseDefaulted(args, typed, rest[1..]);
          if ParseTyped(args, arg, t).Ok? {
            SuffixTrans(rest[1..], rest, t);
            SegmentsWiden(segs, rest[1..], t);
          }
        } else {
          var next := TrimPrefix(rest, ",");
          ClosedSuffix(next, rest);
          var tail := FromSegments(args + SegmentArgs(Top(typed)), next);
          assert ParseTyped(args, arg, t) == ParseFrom(args + [typed], next);
          if ParseTyped(args, arg, t).Ok? {
            SuffixTrans(next, rest, t);
            ConsSegment(args, Top(typed), tail, next, t);
          }
          segs := [Top(typed)] + tail;
        }
      }
    }
  }

  lemma {:induction false} DefaultedSegments(args: seq<Arg>, arg: Arg, v: string) returns (segs: seq<Segment>)
    requires Closed(v) && !arg.optional
    ensures ParseDefaulted(args, arg, v).Ok? ==>
      ParseDefaulted(args, arg, v).value == args + Flatten(segs) && SegmentsIn(segs, v)
    decreases |v|, 5
  {
    segs := [];
    var parsed := ParseDefVal(v);
    if parsed.Ok? {
      var (defVal, rest) := parsed.value;
      var defaulted := arg.(defVal := defVal);
      TrimClosed(v);
      ClosedSuffix(rest, TrimSpace(v));
      var next := TrimPrefix(rest, ",");
      ClosedSuffix(next, rest);
      var tail := FromSegments(args + SegmentArgs(Top(defaulted)), next);
      assert ParseDefaulted(args, arg, v) == ParseFrom(args + [defaulted], next);
      if ParseDefaulted(args, arg, v).Ok? {
        SuffixTrans(next, rest, TrimSpace(v));
        SuffixTrans(next, TrimSpace(v), v);
        ConsSegment(args, Top(defaulted), tail, next, v);
      }
      segs := [Top(defaulted)] + tail;
    }
  }

  // ---------------------------------------------------------------------
  // What Parse reads, and where it stops
  // ---------------------------------------------------------------------

  /** Parse returns no args when the text does not start with '(' or the
      depth of '(' over ')' never gets back to 0. */
  lemma NoParensNoArgs(sig: string)
    requires sig == [] || sig[0] != '(' || forall m :: 0 < m <= |sig| ==> DepthAt(sig, m, '(', ')') > 0
    ensures ParseSpec(sig) == Ok([])
  {
    MatchingBracketFirstBalance(sig, '(', ')');
  }

  /** Nothing after the ')' that balances the leading '(' is read: text
      appended there (such as "-> int") leaves the result unchanged. */
  lemma ParseIgnoresTail(sig: string, tail: string)
    requires MatchingBracket(sig, '(', ')') != -1
    ensures ParseSpec(sig + tail) == ParseSpec(sig)
  {
    var end := MatchingBracket(sig, '(', ')');
    var s := sig + tail;
    assert s[..|sig|] == sig[..|sig|];
    MatchFromAgree(sig, s, '(', ')', 1, 1, |sig|);
    assert s[1..end + 1] == sig[1..end + 1];
  }

  /** A '[' without its ']' ends the parse: the args collected so far are
      the result. */
  lemma UnmatchedGroupStops(args: seq<Arg>, s: string)
    requires s != [] && s[0] == '[' && MatchingBracket(s, '[', ']') == -1
    ensures ParseTrimmed(args, s) == Ok(args)
  {
    assert OptArgsSpec(s) == Ok(([], []));
    assert args + MarkOptional([]) == args;
  }

  /** The same for a '[' that ends a name, as in "(a[b)": the named arg is
      kept, and nothing after the unclosed '[' is read. */
  lemma UnmatchedSplitGroupStops(args: seq<Arg>, arg: Arg, s: string, pos: nat)
    requires 0 < pos < |s| && s[pos] == '[' && MatchingBracket(s[pos..], '[', ']') == -1
    ensures ParseSplit(args, arg, s, pos) == Ok(args + [arg])
  {
    assert OptArgsSpec(s[pos..]) == Ok(([], []));
    assert args + [arg] + MarkOptional([]) == args + [arg];
  }

  // ---------------------------------------------------------------------
  // The loop of Parse always ends
  // ---------------------------------------------------------------------

  /** Parse never loops forever: the text its loop works on stays Closed,
      so a '(' it meets always has its matching ')'. */
  lemma {:induction false} SpecEnds(sig: string)
    ensures !ParseSpec(sig).Diverge?
    decreases |sig|, 0
  {
    var end := MatchingBracket(sig, '(', ')');
    if end != -1 {
      TruncatedClosed(sig);
      FromEnds([], sig[1..end + 1]);
    }
  }

  lemma {:induction false} OptArgsEnds(sig: string)
    ensures !OptArgsSpec(sig).Diverge?
    decreases |sig|, 1
  {
    var end := MatchingBracket(sig, '[', ']');
    if end != -1 {
      SpecEnds("(" + sig[1..end] + ")");
    }
  }

  lemma {:induction false} FromEnds(args: seq<Arg>, sig: string)
    requires Closed(sig)
    ensures !ParseFrom(args, sig).Diverge?
    decreases |sig|, 4
  {
    TrimClosed(sig);
    TrimmedEnds(args, TrimSpace(sig));
  }

  lemma {:induction false} TrimmedEnds(args: seq<Arg>, s: string)
    requires Closed(s)
    ensures !ParseTrimmed(args, s).Diverge?
    decreases |s|, 3
  {
    if s == [] {
    } else if s[0] == '[' {
      GroupEnds(args, s);
    } else if s[0] == '(' {
      var pos := MatchingBracket(s, '(', ')');
      ClosedOpen(s);
      FromEnds(args + [Arg(TrimSpace(s[..pos + 1]), "", "", false)], s[pos + 1..]);
    } else {
      NamedEnds(args, s);
    }
  }

  /** The '[' branch of the loop of Parse. */
  lemma {:induction false} GroupEnds(args: seq<Arg>, s: string)
    requires Closed(s) && s != []
    ensures var opt := OptArgsSpec(s);
      opt.Ok? ==> !ParseFrom(args + MarkOptional(opt.value.0), opt.value.1).Diverge?
    ensures !OptArgsSpec(s).Diverge?
    decreases |s|, 2
  {
    OptArgsEnds(s);
    var opt := OptArgsSpec(s);
    if opt.Ok? {
      ClosedSuffix(opt.value.1, s);
      FromEnds(args + MarkOptional(opt.value.0), opt.value.1);
    }
  }

  /** A Closed text that starts with '(' has its match, and what follows
      the match is Closed. */
  lemma ClosedOpen(s: string)
    requires Closed(s) && s != [] && s[0] == '('
    ensures var pos := MatchingBracket(s, '(', ')'); pos > 0 && Closed(s[pos + 1..])
  {
    assert OpenMatched(s, 0);
    assert s[0..] == s;
    var pos := MatchingBracket(s, '(', ')');
    ClosedSuffix(s[pos + 1..], s);
  }

  lemma {:induction false} NamedEnds(args: seq<Arg>, s: string)
    requires Closed(s)
    ensures !ParseNamed(args, s).Diverge?
    decreases |s|, 2
  {
    var pos := IndexAny(s, {',', ':', '=', '[', ')'});
    if pos < 0 || (pos == 0 && s[0] == ')') {
    } else {
      var name := TrimSpace(s[..pos]);
      if name == [] {
        ClosedSuffix(s[1..], s);
        FromEnds(args, s[1..]);
      } else {
        NamedArg(args, s, pos);
        SplitEnds(args, Arg(if name == "..." then EllipsisName(args) else name, "", "", false), s, pos);
      }
    }
  }

  lemma {:induction false} SplitEnds(args: seq<Arg>, arg: Arg, s: string, pos: nat)
    requires Closed(s) && 0 < pos < |s|
    ensures !ParseSplit(args, arg, s, pos).Diverge?
    decreases |s|, 1
  {
    if s[pos] == ',' {
      ClosedSuffix(s[pos + 1..], s);
      FromEnds(args + [arg], s[pos + 1..]);
    } else if s[pos] == ':' {
      ClosedSuffix(s[pos + 1..], s);
      TypedEnds(args, arg, s[pos + 1..]);
    } else if s[pos] == '=' {
      ClosedSuffix(s[pos + 1..], s);
      DefaultedEnds(args, arg, s[pos + 1..]);
    } else if s[pos] == '[' {
      OptArgsEnds(s[pos..]);
      var opt := OptArgsSpec(s[pos..]);
      if opt.Ok? {
        ClosedSuffix(s[pos..], s);
        SuffixTrans(opt.value.1, s[pos..], s);
        ClosedSuffix(opt.value.1, s);
        FromEnds(args + [arg] + MarkOptional(opt.value.0), opt.value.1);
      }
    }
  }

  lemma {:induction false} TypedEnds(args: seq<Arg>, arg: Arg, t: string)
    requires Closed(t)
    ensures !ParseTyped(args, arg, t).Diverge?
    decreases |t|, 5
  {
    var parsed := ParseType(t);
    if parsed.Ok? {
      var (typ, rest) := parsed.value;
      if rest != [] {
        ClosedSuffix(rest, t);
        if rest[0] == '=' {
          ClosedSuffix(rest[1..], rest);
          DefaultedEnds(args, arg.(typ := typ), rest[1..]);
        } else {
          ClosedSuffix(TrimPrefix(rest, ","), rest);
          FromEnds(args + [arg.(typ := typ)], TrimPrefix(rest, ","));
        }
      }
    }
  }

  lemma {:induction false} DefaultedEnds(args: seq<Arg>, arg: Arg, v: string)
    requires Closed(v)
    ensures !ParseDefaulted(args, arg, v).Diverge?
    decreases |v|, 5
  {
    var parsed := ParseDefVal(v);
    if parsed.Ok? {
      var (defVal, rest) := parsed.value;
      TrimClosed(v);
      ClosedSuffix(rest, TrimSpace(v));
      ClosedSuffix(TrimPrefix(rest, ","), rest);
      FromEnds(args + [arg.(defVal := defVal)], TrimPrefix(rest, ","));
    }
  }

  // ---------------------------------------------------------------------
  // Parse, parseOptArgs and the Optional loop as methods
  // ---------------------------------------------------------------------

  /** The loop that sets Optional on every arg of a group. */
  method SetOptional(optArgs: seq<Arg>) returns (r: seq<Arg>)
    ensures r == MarkOptional(optArgs)
  {
    r := optArgs;
    var i := 0;
    while i < |r|
      invariant 0 <= i <= |r| == |optArgs|
      invariant forall j :: 0 <= j < i ==> r[j] == optArgs[j].(optional := true)
      invariant forall j :: i <= j < |r| ==> r[j] == optArgs[j]
    {
      r := r[i := r[i].(optional := true)];
      i := i + 1;
    }
  }

  /** parseOptArgs: parses the interior of the leading [...] group with
      Parse; the run-time panics of parse.go come back as Panic. */
  method ParseOptArgs(sig: string) returns (r: Outcome<(seq<Arg>, string)>)
    ensures r == OptArgsSpec(sig) && !r.Diverge?
    decreases |sig|, 1
  {
    var end := FindMatchingBracket(sig, '[', ']');
    if end == -1 {
      return Ok(([], []));
    }
    var optArgs := Parse("(" + sig[1..end] + ")");
    if optArgs.Panic? {
      return Panic;
    }
    return Ok((optArgs.value, sig[end + 1..]));
  }

  /** Parse: the loop of parse.go's Parse over the text between the leading '(' and
      its balancing ')'. The loop always ends (SpecEnds). */
  method Parse(sig: string) returns (r: Outcome<seq<Arg>>)
    ensures r == ParseSpec(sig) && !r.Diverge?
    decreases |sig|, 0
  {
    var end := FindMatchingBracket(sig, '(', ')');
    if end == -1 {
      return Ok([]);
    }
    var s := TrimPrefix(sig[..end + 1], "(");
    assert s == sig[1..end + 1];
    TruncatedClosed(sig);
    var args: seq<Arg> := [];
    while true
      invariant Closed(s) && |s| < |sig|
      invariant ParseFrom(args, s) == ParseSpec(sig)
      decreases |s|
    {
      TrimClosed(s);
      assert ParseFrom(args, s) == ParseTrimmed(args, TrimSpace(s));
      s := TrimSpace(s);
      if |s| == 0 {
        return Ok(args);
      }
      if s[0] == '[' {
        var opt := ParseOptArgs(s);
        OptStep(args, s);
        if opt.Panic? {
          return Panic;
        }
        var optArgs := SetOptional(opt.value.0);
        args := args + optArgs;
        s := opt.value.1;
      } else if s[0] == '(' {
        // A Closed text has the match, so Parse's guard pos > 0 holds.
        var pos := FindMatchingBracket(s, '(', ')');
        ParenStep(args, s);
        var name := TrimSpace(s[..pos + 1]);
        args := args + [Arg(name, "", "", false)];
        s := s[pos + 1..];
      } else {
        assert ParseTrimmed(args, s) == ParseNamed(args, s);
        var done, result;
        done, result, args, s := NamedArgStep(args, s);
        if done {
          return result;
        }
      }
    }
  }

  /** The rest of one iteration of the loop of Parse, on a parameter
      written by name: either the loop returns `r`, or it goes on with
      `args'` and the text `s'`. The Arg appended is updated in place once
      its type and default value are known, as Parse in parse.go does through the
      pointer it appended. */
  method NamedArgStep(args: seq<Arg>, s: string) returns (done: bool, r: Outcome<seq<Arg>>, args': seq<Arg>, s': string)
    requires Closed(s) && s != []
    ensures done ==> r == ParseNamed(args, s) && !r.Diverge?
    ensures !done ==> ParseNamed(args, s) == ParseFrom(args', s') && Closed(s') && |s'| < |s|
    decreases |s|, 2
  {
    r := Ok([]);
    var pos := IndexAny(s, {',', ':', '=', '[', ')'});
    if pos < 0 || (pos == 0 && s[0] == ')') {
      return true, Ok(args), args, s;
    }
    var name := TrimSpace(s[..pos]);
    if name == "" {
      ClosedSuffix(s[1..], s);
      return false, r, args, s[1..];
    }
    if name == "..." {
      if |args| > 0 && args[|args| - 1].defVal != "" {
        name := "**kwargs";
      } else {
        name := "**args";
      }
    }
    var arg := Arg(name, "", "", false);
    NamedArg(args, s, pos);
    assert ParseNamed(args, s) == ParseSplit(args, arg, s, pos);
    done, r, args', s' := SplitStep(args, arg, s, pos);
  }

  /** Parse's switch on the delimiter that ended the name of `arg`. */
  method SplitStep(args: seq<Arg>, arg: Arg, s: string, pos: nat) returns (done: bool, r: Outcome<seq<Arg>>, args': seq<Arg>, s': string)
    requires Closed(s) && 0 < pos < |s|
    ensures done ==> r == ParseSplit(args, arg, s, pos) && !r.Diverge?
    ensures !done ==> ParseSplit(args, arg, s, pos) == ParseFrom(args', s') && Closed(s') && |s'| < |s|
    decreases |s|, 1
  {
    done, r := false, Ok([]);
    args' := args + [arg];
    var split := s[pos];
    if split == ',' {
      assert ParseSplit(args, arg, s, pos) == ParseFrom(args', s[pos + 1..]);
      ClosedSuffix(s[pos + 1..], s);
      return false, r, args', s[pos + 1..];
    } else if split == ':' {
      assert ParseSplit(args, arg, s, pos) == ParseTyped(args, arg, s[pos + 1..]);
      ClosedSuffix(s[pos + 1..], s);
      done, r, args', s' := TypedArgStep(args, arg, s[pos + 1..]);
    } else if split == '=' {
      assert ParseSplit(args, arg, s, pos) == ParseDefaulted(args, arg, s[pos + 1..]);
      ClosedSuffix(s[pos + 1..], s);
      done, r, args', s' := DefaultedArgStep(args, arg, s[pos + 1..]);
    } else if split == '[' {
      var opt := ParseOptArgs(s[pos..]);
      SplitOptStep(args, arg, s, pos);
      if opt.Panic? {
        return true, Panic, args', s;
      }
      var optArgs := SetOptional(opt.value.0);
      return false, r, args' + optArgs, opt.value.1;
    } else {
      return true, Ok(args'), args', s;
    }
  }

  /** The text after "name:": the type, then a default value when an '='
      follows, then one ','. The Arg just appended is updated in place. */
  method TypedArgStep(args: seq<Arg>, arg: Arg, t: string) returns (done: bool, r: Outcome<seq<Arg>>, args': seq<Arg>, s': string)
    requires Closed(t)
    ensures done ==> r == ParseTyped(args, arg, t) && !r.Diverge?
    ensures !done ==> ParseTyped(args, arg, t) == ParseFrom(args', s') && Closed(s') && |s'| <= |t|
    decreases |t|, 1
  {
    args' := args + [arg];
    var typed := ParseType(t);
    TypedStep(args, arg, t);
    if typed.Panic? {
      return true, Panic, args', t;
    }
    var (typ, rest) := typed.value;
    if |rest| == 0 {
      return true, Panic, args', rest;
    }
    if rest[0] == '=' {
      done, r, args', s' := DefaultedArgStep(args, arg.(typ := typ), rest[1..]);
      return;
    }
    assert |args'| - 1 == |args| && args'[|args|] == arg;
    args' := args'[|args'| - 1 := args'[|args'| - 1].(typ := typ)];
    done, r, s' := false, Ok([]), TrimPrefix(rest, ",");
  }

  /** The text after '=': the default value, then one ','. The Arg just
      appended is updated in place. */
  method DefaultedArgStep(args: seq<Arg>, arg: Arg, v: string) returns (done: bool, r: Outcome<seq<Arg>>, args': seq<Arg>, s': string)
    requires Closed(v)
    ensures done ==> r == ParseDefaulted(args, arg, v) && !r.Diverge?
    ensures !done ==> ParseDefaulted(args, arg, v) == ParseFrom(args', s') && Closed(s') && |s'| <= |v|
    decreases |v|, 1
  {
    args' := args + [arg];
    var defaulted := ParseDefVal(v);
    DefaultedStep(args, arg, v);
    if defaulted.Panic? {
      return true, Panic, args', v;
    }
    assert |args'| - 1 == |args| && args'[|args|] == arg;
    args' := args'[|args'| - 1 := args'[|args'| - 1].(defVal := defaulted.value.0)];
    done, r, s' := false, Ok([]), TrimPrefix(defaulted.value.1, ",");
  }

  // Single iterations of the loop of Parse, each with the Closed text it
  // leaves.

  lemma OptStep(args: seq<Arg>, s: string)
    requires Closed(s) && s != [] && s[0] == '['
    ensures var opt := OptArgsSpec(s);
      (opt.Panic? ==> ParseTrimmed(args, s) == Panic)
      && (opt.Ok? ==> ParseTrimmed(args, s) == ParseFrom(args + MarkOptional(opt.value.0), opt.value.1)
                      && Closed(opt.value.1) && |opt.value.1| < |s|)
  {
    var opt := OptArgsSpec(s);
    if opt.Ok? {
      ClosedSuffix(opt.value.1, s);
    }
  }

  lemma ParenStep(args: seq<Arg>, s: string)
    requires Closed(s) && s != [] && s[0] == '('
    ensures var pos := MatchingBracket(s, '(', ')');
      pos > 0 && Closed(s[pos + 1..])
      && ParseTrimmed(args, s) == ParseFrom(args + [Arg(TrimSpace(s[..pos + 1]), "", "", false)], s[pos + 1..])
  {
    ClosedOpen(s);
  }

  lemma SplitOptStep(args: seq<Arg>, arg: Arg, s: string, pos: nat)
    requires Closed(s) && 0 < pos < |s| && s[pos] == '['
    ensures var opt := OptArgsSpec(s[pos..]);
      (opt.Panic? ==> ParseSplit(args, arg, s, pos) == Panic)
      && (opt.Ok? ==> ParseSplit(args, arg, s, pos) == ParseFrom(args + [arg] + MarkOptional(opt.value.0), opt.value.1)
                      && Closed(opt.value.1) && |opt.value.1| < |s|)
  {
    var opt := OptArgsSpec(s[pos..]);
    if opt.Ok? {
      ClosedSuffix(s[pos..], s);
      ClosedSuffix(opt.value.1, s[pos..]);
    }
  }

  lemma TypedStep(args: seq<Arg>, arg: Arg, t: string)
    requires Closed(t)
    ensures var typed := ParseType(t);
      (typed.Panic? ==> ParseTyped(args, arg, t) == Panic)
      && (typed.Ok? ==> Closed(typed.value.1) && |typed.value.1| <= |t|)
      && (typed.Ok? && typed.value.1 == [] ==> ParseTyped(args, arg, t) == Panic)
      && (typed.Ok? && typed.value.1 != [] && typed.value.1[0] == '=' ==>
            ParseTyped(args, arg, t) == ParseDefaulted(args, arg.(typ := typed.value.0), typed.value.1[1..])
            && Closed(typed.value.1[1..]))
      && (typed.Ok? && typed.value.1 != [] && typed.value.1[0] != '=' ==>
            var next := TrimPrefix(typed.value.1, ",");
            ParseTyped(args, arg, t) == ParseFrom((args + [arg])[|args| := arg.(typ := typed.value.0)], next)
            && Closed(next) && |next| <= |t|)
  {
    var typed := ParseType(t);
    if typed.Ok? {
      var rest := typed.value.1;
      ClosedSuffix(rest, t);
      if rest != [] {
        ClosedSuffix(rest[1..], rest);
        ClosedSuffix(TrimPrefix(rest, ","), rest);
        LastUpdated(args, arg, arg.(typ := typed.value.0));
      }
    }
  }

  lemma DefaultedStep(args: seq<Arg>, arg: Arg, v: string)
    requires Closed(v)
    ensures var parsed := ParseDefVal(v);
      (parsed.Panic? ==> ParseDefaulted(args, arg, v) == Panic)
      && (parsed.Ok? ==>
            var next := TrimPrefix(parsed.value.1, ",");
            ParseDefaulted(args, arg, v) == ParseFrom((args + [arg])[|args| := arg.(defVal := parsed.value.0)], next)
            && Closed(next) && |next| <= |v|)
  {
    var parsed := ParseDefVal(v);
    if parsed.Ok? {
      LastUpdated(args, arg, arg.(defVal := parsed.value.0));
      TrimClosed(v);
      ClosedSuffix(parsed.value.1, TrimSpace(v));
      ClosedSuffix(TrimPrefix(parsed.value.1, ","), parsed.value.1);
    }
  }

  /** Updating the last Arg in place. */
  lemma LastUpdated(args: seq<Arg>, arg: Arg, arg': Arg)
    ensures (args + [arg])[|args| := arg'] == args + [arg']
  {
  }
}
