/** The pieces of ECMAScript string handling the script relies on:
    the `\s` character class, `String.prototype.trim`, `split` with a
    one-or-more character-class pattern, `split` with a one-character
    string, and `Array.prototype.filter`. */
module JsString {

  /** `\s` in a regular expression, which is also the set of characters
      `trim` removes: ECMAScript WhiteSpace (TAB, VT, FF, SP, NBSP, ZWNBSP
      and the Unicode space separators) and LineTerminator (LF, CR, LS,
      PS). Below U+00A0 these are TAB, LF, VT, FF, CR and SP. */
  const WideWhitespace: set<char> := {
    '\U{00A0}', '\U{1680}',
    '\U{2000}', '\U{2001}', '\U{2002}', '\U{2003}', '\U{2004}', '\U{2005}',
    '\U{2006}', '\U{2007}', '\U{2008}', '\U{2009}', '\U{200A}',
    '\U{2028}', '\U{2029}', '\U{202F}', '\U{205F}', '\U{3000}', '\U{FEFF}'
  }

  predicate IsWs(c: char) {
    if c < '\U{00A0}' then c == ' ' || '\t' <= c <= '\r' else c in WideWhitespace
  }

  /** The characters `.` in a regular expression does not match. */
  predicate IsLineTerminator(c: char) {
    c == '\n' || c == '\r' || c == '\U{2028}' || c == '\U{2029}'
  }

  /** ECMAScript WhiteSpace, listed as section 12.2 of ECMA-262 lists it:
      TAB, VT, FF, SP, NBSP, ZWNBSP and the space separators (category Zs). */
  const WhiteSpaceChars: set<char> := {
    '\t', '\U{000B}', '\U{000C}', ' ', '\U{00A0}', '\U{FEFF}',
    '\U{1680}', '\U{2000}', '\U{2001}', '\U{2002}', '\U{2003}', '\U{2004}',
    '\U{2005}', '\U{2006}', '\U{2007}', '\U{2008}', '\U{2009}', '\U{200A}',
    '\U{202F}', '\U{205F}', '\U{3000}'
  }

  /** ECMAScript LineTerminator (section 12.3 of ECMA-262): LF, CR, LS, PS. */
  const LineTerminators: set<char> := {'\n', '\r', '\U{2028}', '\U{2029}'}

  /** `\s` is WhiteSpace and LineTerminator together, and `.` stops at
      exactly the line terminators. */
  lemma WhitespaceIsStandard(c: char)
    ensures IsWs(c) <==> c in WhiteSpaceChars || c in LineTerminators
    ensures IsLineTerminator(c) <==> c in LineTerminators
  {
  }

  /** The character classes the script's patterns use: `\s`, `[.!?]`, the
      line feed of `split('\n')`, and the class with no members. */
  datatype CharClass = Space | Terminator | LineFeed | NoChar

  predicate In(c: char, k: CharClass) {
    match k
    case Space => IsWs(c)
    case Terminator => c == '.' || c == '!' || c == '?'
    case LineFeed => c == '\n'
    case NoChar => false
  }

  /** Nothing of `p` satisfies `sep`. */
  ghost predicate SepFree(p: string, sep: CharClass) {
    forall i :: 0 <= i < |p| ==> !In(p[i], sep)
  }

  /** Number of whitespace characters `trim` drops from the front of `s`. */
  function Leading(s: string): (n: nat)
    ensures n <= |s|
    ensures forall k :: 0 <= k < n ==> IsWs(s[k])
    ensures n < |s| ==> !IsWs(s[n])
  {
    if s == [] || !IsWs(s[0]) then 0 else 1 + Leading(s[1..])
  }

  /** Where the trailing whitespace of `s[lo..hi]` starts. */
  function TrimmedEnd(s: string, lo: nat, hi: nat): (m: nat)
    requires lo <= hi <= |s|
    ensures lo <= m <= hi
    ensures forall k :: m <= k < hi ==> IsWs(s[k])
    ensures m > lo ==> !IsWs(s[m - 1])
    decreases hi
  {
    if hi == lo || !IsWs(s[hi - 1]) then hi else TrimmedEnd(s, lo, hi - 1)
  }

  /** `s.trim()`: the slice of `s` left after dropping whitespace at both
      ends; it is empty exactly when `s` is all whitespace. */
  function Trim(s: string): (r: string)
    ensures Leading(s) + |r| <= |s| && r == s[Leading(s)..Leading(s) + |r|]
    ensures forall k :: 0 <= k < Leading(s) ==> IsWs(s[k])
    ensures forall k :: Leading(s) + |r| <= k < |s| ==> IsWs(s[k])
    ensures r == [] <==> forall k :: 0 <= k < |s| ==> IsWs(s[k])
    ensures r != [] ==> !IsWs(r[0]) && !IsWs(r[|r| - 1])
  {
    var n := Leading(s);
    s[n..TrimmedEnd(s, n, |s|)]
  }

  /** Index of the first character of `s` satisfying `sep`, or `|s|`. */
  function FindFirst(s: string, sep: CharClass): (k: nat)
    ensures k <= |s|
    ensures forall i :: 0 <= i < k ==> !In(s[i], sep)
    ensures k < |s| ==> In(s[k], sep)
  {
    if s == [] || In(s[0], sep) then 0 else 1 + FindFirst(s[1..], sep)
  }

  /** Length of the run of `sep` characters at the front of `s`: what the
      greedy `C+` consumes when it matches there. */
  function Span(s: string, sep: CharClass): (k: nat)
    ensures k <= |s|
    ensures forall i :: 0 <= i < k ==> In(s[i], sep)
    ensures k < |s| ==> !In(s[k], sep)
  {
    if s == [] || !In(s[0], sep) then 0 else 1 + Span(s[1..], sep)
  }

  /** `s.split(/C+/)` where `sep` is the class `C`: the pieces between the
      maximal runs of `sep` characters, in order, with an empty piece
      before a leading run and after a trailing one; `""` splits into
      `[""]`. */
  function SplitRuns(s: string, sep: CharClass): (r: seq<string>)
    ensures |r| >= 1
    ensures s != [] && !In(s[0], sep) ==> r[0] != []
    ensures forall i :: 0 < i < |r| - 1 ==> r[i] != []
    decreases |s|
  {
    var k := FindFirst(s, sep);
    if k == |s| then [s]
    else
      var e := k + Span(s[k..], sep);
      [s[..k]] + SplitRuns(s[e..], sep)
  }

  /** Every character of `g` is in `sep`. */
  ghost predicate AllIn(g: string, sep: CharClass) {
    forall i :: 0 <= i < |g| ==> In(g[i], sep)
  }

  /** The texts `C+` matches in `s`, in order: its maximal runs of `sep`
      characters, one between each two pieces of the split. */
  function RunMatches(s: string, sep: CharClass): (m: seq<string>)
    ensures |m| + 1 == |SplitRuns(s, sep)|
    ensures forall g :: g in m ==> g != [] && AllIn(g, sep)
    decreases |s|
  {
    var k := FindFirst(s, sep);
    if k == |s| then []
    else
      var e := k + Span(s[k..], sep);
      SplitRunsStep(s, sep, k, e);
      [s[k..e]] + RunMatches(s[e..], sep)
  }

  /** `pieces[0] + gaps[0] + pieces[1] + ... + pieces[n]`. */
  function Interleave(pieces: seq<string>, gaps: seq<string>): string
    requires |pieces| == |gaps| + 1
  {
    if gaps == [] then pieces[0]
    else pieces[0] + gaps[0] + Interleave(pieces[1..], gaps[1..])
  }

  /** The split loses nothing: the pieces, with the matched separator runs
      put back between them, are the text. */
  lemma {:induction false} SplitRunsJoin(s: string, sep: CharClass)
    ensures Interleave(SplitRuns(s, sep), RunMatches(s, sep)) == s
    decreases |s|
  {
    var k := FindFirst(s, sep);
    if k == |s| {
      assert SplitRuns(s, sep) == [s] && RunMatches(s, sep) == [];
    } else {
      var e := k + Span(s[k..], sep);
      SplitRunsJoin(s[e..], sep);
      SplitRunsJoinStep(s, sep, k, e);
    }
  }

  lemma SplitRunsJoinStep(s: string, sep: CharClass, k: nat, e: nat)
    requires k == FindFirst(s, sep) && k < |s| && e == k + Span(s[k..], sep)
    requires Interleave(SplitRuns(s[e..], sep), RunMatches(s[e..], sep)) == s[e..]
    ensures Interleave(SplitRuns(s, sep), RunMatches(s, sep)) == s
  {
    SplitRunsStep(s, sep, k, e);
    RunMatchesStep(s, sep, k, e);
    SliceThree(s, k, e);
    InterleaveCons(s[..k], s[k..e], SplitRuns(s[e..], sep), RunMatches(s[e..], sep));
  }

  lemma SliceThree(s: string, k: nat, e: nat)
    requires k <= e <= |s|
    ensures s == s[..k] + s[k..e] + s[e..]
  {
  }

  lemma RunMatchesStep(s: string, sep: CharClass, k: nat, e: nat)
    requires k == FindFirst(s, sep) && k < |s| && e == k + Span(s[k..], sep)
    ensures RunMatches(s, sep) == [s[k..e]] + RunMatches(s[e..], sep)
  {
  }

  lemma InterleaveCons(p: string, g: string, pieces: seq<string>, gaps: seq<string>)
    requires |pieces| == |gaps| + 1
    ensures Interleave([p] + pieces, [g] + gaps) == p + g + Interleave(pieces, gaps)
  {
    assert ([p] + pieces)[1..] == pieces && ([g] + gaps)[1..] == gaps;
  }

  /** No piece of `s.split(/C+/)` holds a character of `C`. */
  lemma {:induction false} SplitRunsSepFree(s: string, sep: CharClass)
    ensures forall p :: p in SplitRuns(s, sep) ==> SepFree(p, sep)
    decreases |s|
  {
    var k := FindFirst(s, sep);
    if k < |s| {
      var e := k + Span(s[k..], sep);
      SplitRunsStep(s, sep, k, e);
      SplitRunsSepFree(s[e..], sep);
    }
  }

  lemma SplitRunsStep(s: string, sep: CharClass, k: nat, e: nat)
    requires k == FindFirst(s, sep) && k < |s| && e == k + Span(s[k..], sep)
    ensures SplitRuns(s, sep) == [s[..k]] + SplitRuns(s[e..], sep)
  {
  }

  /** Index of the first `c` in `s`, or `|s|`. */
  function IndexOf(s: string, c: char): (k: nat)
    ensures k <= |s|
    ensures c !in s[..k]
    ensures k < |s| ==> s[k] == c
  {
    if s == [] || s[0] == c then 0
    else
      var k := 1 + IndexOf(s[1..], c);
      assert s[..k] == [s[0]] + s[1..][..k - 1];
      k
  }

  /** `s.split(c)` for a one-character separator: every occurrence of `c`
      separates, so there is one more piece than occurrences. */
  function SplitOn(s: string, c: char): (r: seq<string>)
    ensures |r| >= 1
    ensures Join(r, c) == s
    decreases |s|
  {
    var k := IndexOf(s, c);
    if k == |s| then [s]
    else
      var rest := SplitOn(s[k + 1..], c);
      assert ([s[..k]] + rest)[1..] == rest;
      assert s == s[..k] + [c] + s[k + 1..];
      [s[..k]] + rest
  }

  /** `pieces.join(c)`: the pieces with `c` between each two. */
  function Join(pieces: seq<string>, c: char): string
    requires |pieces| >= 1
  {
    if |pieces| == 1 then pieces[0] else pieces[0] + [c] + Join(pieces[1..], c)
  }

  /** One more piece than occurrences of `c`. */
  lemma {:induction false} SplitOnCount(s: string, c: char)
    ensures |SplitOn(s, c)| == multiset(s)[c] + 1
    decreases |s|
  {
    var k := IndexOf(s, c);
    if k == |s| {
      assert s[..k] == s;
    } else {
      SplitOnCount(s[k + 1..], c);
      SplitOnStep(s, c, k);
      CountAfterFirst(s, c, k);
    }
  }

  lemma CountAfterFirst(s: string, c: char, k: nat)
    requires k < |s| && s[k] == c && c !in s[..k]
    ensures multiset(s)[c] == multiset(s[k + 1..])[c] + 1
  {
    assert s == s[..k] + [c] + s[k + 1..];
    assert multiset(s) == multiset(s[..k]) + multiset{c} + multiset(s[k + 1..]);
  }

  /** No piece holds `c`. */
  lemma {:induction false} SplitOnPieces(s: string, c: char)
    ensures forall p :: p in SplitOn(s, c) ==> c !in p
    decreases |s|
  {
    var k := IndexOf(s, c);
    if k < |s| {
      SplitOnPieces(s[k + 1..], c);
      SplitOnStep(s, c, k);
    }
  }

  lemma SplitOnStep(s: string, c: char, k: nat)
    requires k == IndexOf(s, c) && k < |s|
    ensures SplitOn(s, c) == [s[..k]] + SplitOn(s[k + 1..], c)
  {
  }

  /** The two tests the script filters pieces with:
      `word => word.length > 0` (also used for lines) and
      `sentence => sentence.trim().length > 0`. */
  datatype PieceTest = NonEmpty | NonBlank

  predicate Keeps(test: PieceTest, p: string): (b: bool)
    ensures test == NonEmpty ==> (b <==> p != [])
    ensures test == NonBlank ==> (b <==> exists k :: 0 <= k < |p| && !IsWs(p[k]))
  {
    match test
    case NonEmpty => |p| > 0
    case NonBlank => |Trim(p)| > 0
  }

  /** `xs.filter(test)`: the pieces passing `test`, in order. */
  function Filter(xs: seq<string>, test: PieceTest): (r: seq<string>)
    ensures |r| <= |xs|
  {
    if xs == [] then []
    else (if Keeps(test, xs[0]) then [xs[0]] else []) + Filter(xs[1..], test)
  }

  /** The filter keeps exactly the pieces that pass. */
  lemma {:induction false} FilterMembers(xs: seq<string>, test: PieceTest)
    ensures forall p :: p in Filter(xs, test) <==> p in xs && Keeps(test, p)
  {
    if xs != [] {
      FilterMembers(xs[1..], test);
      assert xs == [xs[0]] + xs[1..];
    }
  }

  /** Each piece that passes is kept as often as it occurs; the others
      are dropped. */
  lemma {:induction false} FilterCounts(xs: seq<string>, test: PieceTest)
    ensures forall p :: multiset(Filter(xs, test))[p] == if Keeps(test, p) then multiset(xs)[p] else 0
  {
    if xs != [] {
      FilterCounts(xs[1..], test);
      assert xs == [xs[0]] + xs[1..];
      assert multiset(xs) == multiset{xs[0]} + multiset(xs[1..]);
    }
  }

  /** Filtering a concatenation filters each part, keeping the order. */
  lemma {:induction false} FilterAppend(xs: seq<string>, ys: seq<string>, test: PieceTest)
    ensures Filter(xs + ys, test) == Filter(xs, test) + Filter(ys, test)
  {
    if xs == [] {
      assert xs + ys == ys;
    } else {
      var x, rest := xs[0], xs[1..];
      assert xs == [x] + rest && xs + ys == [x] + (rest + ys);
      FilterAppend(rest, ys, test);
      FilterAppendStep(x, rest, ys, test);
    }
  }

  lemma FilterAppendStep(x: string, rest: seq<string>, ys: seq<string>, test: PieceTest)
    requires Filter(rest + ys, test) == Filter(rest, test) + Filter(ys, test)
    ensures Filter([x] + (rest + ys), test) == Filter([x] + rest, test) + Filter(ys, test)
  {
    FilterCons(x, rest + ys, test);
    FilterCons(x, rest, test);
    HeadThenAppend(if Keeps(test, x) then [x] else [], Filter([x] + (rest + ys), test), Filter([x] + rest, test),
      Filter(rest + ys, test), Filter(rest, test), Filter(ys, test));
  }

  lemma HeadThenAppend<T>(head: seq<T>, u: seq<T>, v: seq<T>, p: seq<T>, q: seq<T>, w: seq<T>)
    requires u == head + p && v == head + q && p == q + w
    ensures u == v + w
  {
  }

  lemma FilterCons(x: string, xs: seq<string>, test: PieceTest)
    ensures Filter([x] + xs, test) == (if Keeps(test, x) then [x] else []) + Filter(xs, test)
  {
    assert ([x] + xs)[0] == x && ([x] + xs)[1..] == xs;
  }
}
