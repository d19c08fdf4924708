// The few functions of Go's `strings` and `strconv` packages that the
// signature parser and the binding generators rely on, over byte strings
// (one Dafny `char` stands for one byte of the Go string).
module GoStrings {

  /** Go's unicode.IsSpace restricted to ASCII: space, \t, \n, \v, \f, \r. */
  predicate IsSpace(c: char) {
    c == ' ' || c == '\t' || c == '\n' || c == '\U{B}' || c == '\U{C}' || c == '\r'
  }

  /** `t` is a suffix of `s`. */
  predicate IsSuffix(t: string, s: string) {
    |t| <= |s| && t == s[|s| - |t|..]
  }

  /** strings.HasPrefix */
  predicate HasPrefix(s: string, prefix: string) {
    |prefix| <= |s| && s[..|prefix|] == prefix
  }

  /** strings.HasSuffix */
  predicate HasSuffix(s: string, suffix: string) {
    |suffix| <= |s| && s[|s| - |suffix|..] == suffix
  }

  /** strings.TrimPrefix */
  function TrimPrefix(s: string, prefix: string): (r: string)
    ensures HasPrefix(s, prefix) ==> s == prefix + r
    ensures !HasPrefix(s, prefix) ==> r == s
    ensures IsSuffix(r, s)
  {
    if HasPrefix(s, prefix) then s[|prefix|..] else s
  }

  /** Leading white space removed. */
  function TrimLeft(s: string): (r: string)
    ensures |r| <= |s|
    ensures r == [] || !IsSpace(r[0])
  {
    if s != [] && IsSpace(s[0]) then TrimLeft(s[1..]) else s
  }

  /** TrimLeft drops a prefix of white space: what is left is a suffix. */
  lemma {:induction false} TrimLeftDropsSpace(s: string)
    ensures IsSuffix(TrimLeft(s), s)
    ensures forall i :: 0 <= i < |s| - |TrimLeft(s)| ==> IsSpace(s[i])
  {
    if s != [] && IsSpace(s[0]) {
      TrimLeftDropsSpace(s[1..]);
      assert forall i :: 1 <= i < |s| - |TrimLeft(s)| ==> s[i] == s[1..][i - 1];
    }
  }

  /** Trailing white space removed. */
  function TrimRight(s: string): (r: string)
    ensures |r| <= |s| && r == s[..|r|]
    ensures r == [] || !IsSpace(r[|r| - 1])
  {
    if s != [] && IsSpace(s[|s| - 1]) then TrimRight(s[..|s| - 1]) else s
  }

  /** What TrimRight drops is white space. */
  lemma {:induction false} TrimRightDropsSpace(s: string)
    ensures forall i :: |TrimRight(s)| <= i < |s| ==> IsSpace(s[i])
  {
    if s != [] && IsSpace(s[|s| - 1]) {
      TrimRightDropsSpace(s[..|s| - 1]);
    }
  }

  /** Neither starts nor ends with white space. */
  predicate Trimmed(s: string) {
    s == [] || (!IsSpace(s[0]) && !IsSpace(s[|s| - 1]))
  }

  /** strings.TrimSpace */
  function TrimSpace(s: string): (r: string)
    ensures |r| <= |s|
    ensures Trimmed(r)
  {
    TrimRight(TrimLeft(s))
  }

  lemma TrimLeftNoSpace(s: string)
    requires s == [] || !IsSpace(s[0])
    ensures TrimLeft(s) == s
  {
  }

  lemma TrimRightNoSpace(s: string)
    requires s == [] || !IsSpace(s[|s| - 1])
    ensures TrimRight(s) == s
  {
  }

  /** A string that neither starts nor ends with white space is its own
      TrimSpace. */
  lemma TrimmedUnchanged(s: string)
    requires Trimmed(s)
    ensures TrimSpace(s) == s
  {
    TrimLeftNoSpace(s);
    TrimRightNoSpace(s);
  }

  /** Trimming twice is trimming once. */
  lemma TrimSpaceIdempotent(s: string)
    ensures TrimSpace(TrimSpace(s)) == TrimSpace(s)
  {
    var t := TrimSpace(s);
    TrimLeftNoSpace(t);
    TrimRightNoSpace(t);
  }

  /** A string whose last byte is not white space loses only its leading
      white space: the trimmed string is a suffix of it. */
  lemma TrimSpaceSuffix(s: string)
    requires s != [] && !IsSpace(s[|s| - 1])
    ensures IsSuffix(TrimSpace(s), s) && TrimSpace(s) != []
  {
    var l := TrimLeft(s);
    TrimLeftDropsSpace(s);
    assert l != [] && l[|l| - 1] == s[|s| - 1];
    TrimRightNoSpace(l);
  }

  /** A string that starts with a byte other than white space keeps it
      first after trimming. */
  lemma TrimSpaceKeepsFirst(s: string)
    requires s != [] && !IsSpace(s[0])
    ensures TrimSpace(s) != [] && TrimSpace(s)[0] == s[0]
  {
    TrimLeftNoSpace(s);
    TrimRightDropsSpace(s);
  }

  /** strings.IndexAny: the index of a byte of `s` that is one of
      `chars`, or -1; IndexAnyFirst says it is the first. */
  function IndexAny(s: string, chars: set<char>): (r: int)
    ensures -1 <= r < |s|
    ensures r >= 0 ==> s[r] in chars
  {
    if s == [] then -1
    else if s[0] in chars then 0
    else
      var k := IndexAny(s[1..], chars);
      if k == -1 then -1 else k + 1
  }

  /** IndexAny finds the first byte of `s` in `chars`, and returns -1
      exactly when there is none. */
  lemma {:induction false} IndexAnyFirst(s: string, chars: set<char>)
    ensures var r := IndexAny(s, chars);
      (r == -1 <==> forall i :: 0 <= i < |s| ==> s[i] !in chars)
      && (r >= 0 ==> forall i :: 0 <= i < r ==> s[i] !in chars)
  {
    if s != [] && s[0] !in chars {
      IndexAnyFirst(s[1..], chars);
      assert forall i :: 1 <= i < |s| ==> s[i] == s[1..][i - 1];
    }
  }

  /** The position of the first blank line separator "\n\n" in `s`, or -1
      (strings.Index(s, "\n\n")). */
  function IndexBlankLine(s: string): (r: int)
    ensures -1 <= r < |s| - 1 || r == -1
    ensures r >= 0 ==> s[r] == '\n' && s[r + 1] == '\n'
    ensures r >= 0 ==> forall i :: 0 <= i < r ==> !(s[i] == '\n' && s[i + 1] == '\n')
    ensures r == -1 ==> forall i :: 0 <= i < |s| - 1 ==> !(s[i] == '\n' && s[i + 1] == '\n')
  {
    if |s| < 2 then -1
    else if s[0] == '\n' && s[1] == '\n' then 0
    else
      var k := IndexBlankLine(s[1..]);
      if k == -1 then -1 else k + 1
  }

  /** strings.Split with a one-byte separator: the maximal separator-free
      pieces between separators, so never empty. */
  function Split(s: string, sep: char): (parts: seq<string>)
    ensures |parts| >= 1
    ensures forall i :: 0 <= i < |parts| ==> sep !in parts[i]
    ensures sep !in s ==> parts == [s]
    ensures sep in s ==> |parts| >= 2
  {
    if s == [] then [[]]
    else
      var rest := Split(s[1..], sep);
      assert s == [s[0]] + s[1..];
      if s[0] == sep then [[]] + rest
      else [[s[0]] + rest[0]] + rest[1..]
  }

  /** strings.Join */
  function Join(parts: seq<string>, sep: string): (r: string)
  {
    if parts == [] then []
    else if |parts| == 1 then parts[0]
    else parts[0] + sep + Join(parts[1..], sep)
  }

  /** Joining the pieces of a split with the separator gives back the string. */
  lemma {:induction false} JoinSplit(s: string, sep: char)
    ensures Join(Split(s, sep), [sep]) == s
    decreases |s|
  {
    if s != [] {
      var rest := Split(s[1..], sep);
      JoinSplit(s[1..], sep);
      assert s == [s[0]] + s[1..];
      if s[0] == sep {
        JoinEmptyHead(rest, [sep]);
      } else {
        JoinCons(s[0], rest, [sep]);
      }
    }
  }

  /** An empty first piece contributes only its separator. */
  lemma JoinEmptyHead(ps: seq<string>, sep: string)
    requires ps != []
    ensures Join([[]] + ps, sep) == sep + Join(ps, sep)
  {
    assert ([[]] + ps)[1..] == ps;
  }

  /** A byte put in front of the first piece comes first in the join. */
  lemma JoinCons(c: char, ps: seq<string>, sep: string)
    requires ps != []
    ensures Join([[c] + ps[0]] + ps[1..], sep) == [c] + Join(ps, sep)
  {
    var qs := [[c] + ps[0]] + ps[1..];
    assert qs[1..] == ps[1..];
  }

  /** A non-empty run of bytes none of which is white space. */
  predicate IsField(w: string) {
    w != [] && forall j :: 0 <= j < |w| ==> !IsSpace(w[j])
  }

  /** strings.Fields: the maximal runs of bytes other than white space. */
  function Fields(s: string): (r: seq<string>)
    ensures forall i :: 0 <= i < |r| ==> IsField(r[i])
    decreases |s|
  {
    var t := TrimLeft(s);
    if t == [] then []
    else
      var k := FirstSpace(t);
      [t[..k]] + Fields(t[k..])
  }

  /** Index of the first white space byte of `s`, or |s|. */
  function FirstSpace(s: string): (k: nat)
    ensures k <= |s|
    ensures forall i :: 0 <= i < k ==> !IsSpace(s[i])
    ensures k < |s| ==> IsSpace(s[k])
  {
    if s == [] || IsSpace(s[0]) then 0 else 1 + FirstSpace(s[1..])
  }

  /** Decimal digit predicate. */
  predicate IsDigit(c: char) {
    '0' <= c <= '9'
  }

  /** strconv.Itoa for non-negative numbers. */
  function Itoa(n: nat): (r: string)
    ensures r != [] && forall i :: 0 <= i < |r| ==> IsDigit(r[i])
  {
    if n < 10 then [DigitChar(n)] else Itoa(n / 10) + [DigitChar(n % 10)]
  }

  function DigitChar(d: nat): (c: char)
    requires d < 10
    ensures IsDigit(c)
  {
    ['0', '1', '2', '3', '4', '5', '6', '7', '8', '9'][d]
  }

  /** A join starts with its first piece. */
  lemma JoinFirst(ps: seq<string>, sep: string)
    requires ps != []
    ensures |Join(ps, sep)| >= |ps[0]| && Join(ps, sep)[..|ps[0]|] == ps[0]
  {
    if |ps| > 1 {
      assert Join(ps, sep) == ps[0] + (sep + Join(ps[1..], sep));
    }
  }

  /** Appending a piece to a non-empty join. */
  lemma {:induction false} JoinSnoc(ps: seq<string>, last: string, sep: string)
    requires ps != []
    ensures Join(ps + [last], sep) == Join(ps, sep) + sep + last
    decreases |ps|
  {
    if |ps| > 1 {
      JoinSnoc(ps[1..], last, sep);
      assert (ps + [last])[1..] == ps[1..] + [last];
    } else {
      assert (ps + [last])[1..] == [last];
    }
  }

  /** A character that is not in a string is in none of its pieces. */
  lemma {:induction false} SplitNoChar(s: string, sep: char, c: char)
    requires c !in s
    ensures forall i :: 0 <= i < |Split(s, sep)| ==> c !in Split(s, sep)[i]
    decreases |s|
  {
    if s != [] {
      assert c !in s[1..] by {
        assert forall j :: 0 <= j < |s[1..]| ==> s[1..][j] == s[j + 1];
      }
      SplitNoChar(s[1..], sep, c);
    }
  }

  /** Split of two separator-free words joined by the separator. */
  lemma {:induction false} SplitAt(w: string, d: string, sep: char)
    requires sep !in w && sep !in d
    ensures Split(w + [sep] + d, sep) == [w, d]
    decreases |w|
  {
    if w == [] {
      assert w + [sep] + d == [sep] + d;
      assert ([sep] + d)[1..] == d;
    } else {
      SplitAt(w[1..], d, sep);
      assert (w + [sep] + d)[1..] == w[1..] + [sep] + d;
      assert [w[0]] + w[1..] == w;
    }
  }
}
