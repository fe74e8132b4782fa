/** The five counters `updateStats` shows for the text in the input box
    (script.js:15-36), each computed the way the script computes it, and
    their characterisation as counts of maximal runs of characters. */
module TextStats {
  import opened JsString

  /** What the five counters display. */
  datatype Statistics = Statistics(
    totalChars: nat,     // `text.length`
    nonSpaceChars: nat,  // length of `text.replace(/\s/g, '')`
    words: nat,
    sentences: nat,
    lines: nat)

  /** `text.replace(/\s/g, '')`: every whitespace character deleted, every
      other character kept, in order. */
  function RemoveWs(s: string): (r: string)
    ensures |r| <= |s|
  {
    if s == [] then []
    else
      (if IsWs(s[0]) then [] else [s[0]]) + RemoveWs(s[1..])
  }

  /** What is left is exactly the characters of `s` that are not
      whitespace. */
  lemma {:induction false} RemoveWsMembers(s: string)
    ensures forall c :: c in RemoveWs(s) <==> c in s && !IsWs(c)
  {
    if s != [] {
      RemoveWsMembers(s[1..]);
      assert s == [s[0]] + s[1..];
    }
  }

  /** `text.replace(/\s/g, '').length`: the length minus the number of
      whitespace characters. */
  function NonSpaceChars(s: string): (n: nat)
    ensures n == |s| - WsCount(s)
  {
    RemoveWsLength(s);
    |RemoveWs(s)|
  }

  /** `text.trim().split(/\s+/).filter(word => word.length > 0).length`:
      the number of maximal runs of non-whitespace. */
  function WordCount(s: string): (n: nat)
    ensures n == Segments(s, Space, NoChar)
  {
    SplitRunsCount(Trim(s), Space, NoChar, NonEmpty);
    SegmentsTrim(s, NoChar);
    |Filter(SplitRuns(Trim(s), Space), NonEmpty)|
  }

  /** `text.split(/[.!?]+/).filter(sentence => sentence.trim().length > 0).length`:
      the number of maximal runs free of `.`, `!` and `?` that hold a
      non-whitespace character. */
  function SentenceCount(s: string): (n: nat)
    ensures n == Segments(s, Terminator, Space)
  {
    SplitRunsCount(s, Terminator, Space, NonBlank);
    |Filter(SplitRuns(s, Terminator), NonBlank)|
  }

  /** `text.split('\n').filter(line => line.length > 0).length`: the number
      of maximal runs free of line feeds, so empty lines are not counted
      and lines of spaces are. */
  function LineCount(s: string): (n: nat)
    ensures n == Segments(s, LineFeed, NoChar)
  {
    LineSplitCount(s);
    |Filter(SplitOn(s, '\n'), NonEmpty)|
  }

  /** Everything `updateStats` writes into the counters for `text`, each
      counter against its reference definition. */
  function Stats(text: string): (r: Statistics)
    ensures r.totalChars == |text| && r.nonSpaceChars == |text| - WsCount(text)
    ensures r.words == Segments(text, Space, NoChar)
    ensures r.sentences == Segments(text, Terminator, Space)
    ensures r.lines == Segments(text, LineFeed, NoChar)
  {
    Statistics(|text|, NonSpaceChars(text), WordCount(text), SentenceCount(text), LineCount(text))
  }

  // ----- The reference definition: counting maximal runs -----

  /** A character that makes its run count: neither a separator nor blank. */
  predicate IsContent(c: char, sep: CharClass, blank: CharClass) {
    !In(c, sep) && !In(c, blank)
  }

  ghost predicate HasContent(p: string, sep: CharClass, blank: CharClass) {
    exists i :: 0 <= i < |p| && IsContent(p[i], sep, blank)
  }

  /** Only blank characters stand between the front of `t` and the next
      separator (or the end of the text). */
  predicate Closes(t: string, sep: CharClass, blank: CharClass) {
    t == [] || In(t[0], sep) || (In(t[0], blank) && Closes(t[1..], sep, blank))
  }

  /** The number of maximal runs of `s` free of `sep` characters that hold
      at least one character that is neither a separator nor `blank`. Each
      such run is counted once, at its last content character. */
  function Segments(s: string, sep: CharClass, blank: CharClass): nat {
    if s == [] then 0
    else
      (if IsContent(s[0], sep, blank) && Closes(s[1..], sep, blank) then 1 else 0)
      + Segments(s[1..], sep, blank)
  }

  /** The number of whitespace characters of `s`, counted from the back. */
  function WsCount(s: string): nat {
    if s == [] then 0
    else WsCount(s[..|s| - 1]) + (if IsWs(s[|s| - 1]) then 1 else 0)
  }

  // ----- Lemmas about runs -----

  /** Separators at the front of `s` start no run. */
  lemma {:induction false} SegmentsSkipSeps(s: string, sep: CharClass, blank: CharClass, n: nat)
    requires n <= |s|
    requires forall i :: 0 <= i < n ==> In(s[i], sep)
    ensures Segments(s, sep, blank) == Segments(s[n..], sep, blank)
  {
    if n > 0 {
      SegmentsSkipSeps(s[1..], sep, blank, n - 1);
      assert s[1..][n - 1..] == s[n..];
    }
  }

  /** `t` closes a run exactly when its first separator-free stretch holds
      no content. */
  lemma {:induction false} ClosesPiece(t: string, sep: CharClass, blank: CharClass, m: nat)
    requires m <= |t|
    requires forall i :: 0 <= i < m ==> !In(t[i], sep)
    requires m < |t| ==> In(t[m], sep)
    ensures Closes(t, sep, blank) <==> !HasContent(t[..m], sep, blank)
  {
    if m > 0 {
      ClosesPiece(t[1..], sep, blank, m - 1);
      assert t[1..][..m - 1] == t[1..m];
      if HasContent(t[1..m], sep, blank) {
        var i :| 0 <= i < m - 1 && IsContent(t[1..m][i], sep, blank);
        assert t[..m][i + 1] == t[1..m][i];
      }
      if HasContent(t[..m], sep, blank) && !IsContent(t[0], sep, blank) {
        var i :| 0 <= i < m && IsContent(t[..m][i], sep, blank);
        assert i > 0;
        assert t[1..m][i - 1] == t[..m][i];
      }
    }
  }

  /** A separator-free stretch at the front of `s` that ends at a separator
      (or at the end) adds one run when it holds content. */
  lemma {:induction false} SegmentsPiece(s: string, sep: CharClass, blank: CharClass, k: nat)
    requires k <= |s|
    requires forall i :: 0 <= i < k ==> !In(s[i], sep)
    requires k < |s| ==> In(s[k], sep)
    ensures Segments(s, sep, blank)
         == (if HasContent(s[..k], sep, blank) then 1 else 0) + Segments(s[k..], sep, blank)
  {
    if k > 0 {
      SegmentsPiece(s[1..], sep, blank, k - 1);
      ClosesPiece(s[1..], sep, blank, k - 1);
      assert s[1..][..k - 1] == s[1..k];
      assert s[1..][k - 1..] == s[k..];
      if HasContent(s[1..k], sep, blank) {
        var i :| 0 <= i < k - 1 && IsContent(s[1..k][i], sep, blank);
        assert s[..k][i + 1] == s[1..k][i];
      }
      if HasContent(s[..k], sep, blank) && !IsContent(s[0], sep, blank) {
        var i :| 0 <= i < k && IsContent(s[..k][i], sep, blank);
        assert s[1..k][i - 1] == s[..k][i];
      }
    }
  }

  /** What follows a separator does not change whether a run closes. */
  lemma {:induction false} ClosesAppend(t: string, b: string, sep: CharClass, blank: CharClass)
    requires b == [] || In(b[0], sep)
    ensures Closes(t + b, sep, blank) == Closes(t, sep, blank)
  {
    if t != [] {
      assert (t + b)[1..] == t[1..] + b;
      ClosesAppend(t[1..], b, sep, blank);
    }
  }

  /** Runs on either side of a separator are counted apart. */
  lemma {:induction false} SegmentsAppend(a: string, b: string, sep: CharClass, blank: CharClass)
    requires b == [] || In(b[0], sep)
    ensures Segments(a + b, sep, blank) == Segments(a, sep, blank) + Segments(b, sep, blank)
  {
    if a == [] {
      assert a + b == b;
    } else {
      assert (a + b)[1..] == a[1..] + b;
      ClosesAppend(a[1..], b, sep, blank);
      SegmentsAppend(a[1..], b, sep, blank);
    }
  }

  /** Separators after the end of `a` add no run. */
  lemma SegmentsTrailingSeps(a: string, b: string, sep: CharClass, blank: CharClass)
    requires forall i :: 0 <= i < |b| ==> In(b[i], sep)
    ensures Segments(a + b, sep, blank) == Segments(a, sep, blank)
  {
    SegmentsAppend(a, b, sep, blank);
    SegmentsSkipSeps(b, sep, blank, |b|);
  }

  /** Two texts joined by a run of separators. */
  lemma SegmentsJoin(a: string, gap: string, b: string, sep: CharClass, blank: CharClass)
    requires gap != [] && forall i :: 0 <= i < |gap| ==> In(gap[i], sep)
    ensures Segments(a + gap + b, sep, blank) == Segments(a, sep, blank) + Segments(b, sep, blank)
  {
    assert a + gap + b == a + (gap + b);
    SegmentsAppend(a, gap + b, sep, blank);
    assert forall i :: 0 <= i < |gap| ==> (gap + b)[i] == gap[i];
    SegmentsSkipSeps(gap + b, sep, blank, |gap|);
    assert (gap + b)[|gap|..] == b;
  }

  /** A separator-free text with content is one run. */
  lemma OneRun(p: string, sep: CharClass, blank: CharClass, i: nat)
    requires SepFree(p, sep) && i < |p| && IsContent(p[i], sep, blank)
    ensures Segments(p, sep, blank) == 1
  {
    SegmentsPiece(p, sep, blank, |p|);
    assert p[..|p|] == p;
  }

  /** Without content before the end, a run closes. */
  lemma {:induction false} ClosesNoContent(t: string, sep: CharClass, blank: CharClass)
    requires !HasContent(t, sep, blank)
    ensures Closes(t, sep, blank)
  {
    if t != [] && !In(t[0], sep) {
      assert !IsContent(t[0], sep, blank);
      assert forall i :: 0 <= i < |t| - 1 ==> t[1..][i] == t[i + 1];
      ClosesNoContent(t[1..], sep, blank);
    }
  }

  /** No run counts exactly when no character is content. */
  lemma {:induction false} SegmentsZeroIff(s: string, sep: CharClass, blank: CharClass)
    ensures Segments(s, sep, blank) == 0 <==> !HasContent(s, sep, blank)
  {
    if s != [] {
      SegmentsZeroIff(s[1..], sep, blank);
      assert forall i :: 0 <= i < |s| - 1 ==> s[1..][i] == s[i + 1];
      if HasContent(s, sep, blank) && !HasContent(s[1..], sep, blank) {
        ClosesNoContent(s[1..], sep, blank);
        var i :| 0 <= i < |s| && IsContent(s[i], sep, blank);
        assert i == 0;
      }
    }
  }

  /** A separator-free piece counts once in the filter exactly when it
      counts once among the runs. */
  lemma FilterPiece(p: string, rest: seq<string>, sep: CharClass, blank: CharClass, keep: PieceTest)
    requires Matching(sep, blank, keep)
    requires SepFree(p, sep)
    ensures |Filter([p] + rest, keep)| == (if HasContent(p, sep, blank) then 1 else 0) + |Filter(rest, keep)|
  {
    KeepsIffContent(p, sep, blank, keep);
    FilterCons(p, rest, keep);
  }

  /** The runs of `s` are those of its first piece and those after the
      separator run that ends it. */
  lemma SegmentsFirstPiece(s: string, sep: CharClass, blank: CharClass, k: nat, e: nat)
    requires k == FindFirst(s, sep) && k < |s| && e == k + Span(s[k..], sep)
    ensures Segments(s, sep, blank)
         == (if HasContent(s[..k], sep, blank) then 1 else 0) + Segments(s[e..], sep, blank)
  {
    SegmentsPiece(s, sep, blank, k);
    assert forall i :: 0 <= i < e - k ==> s[k..][i] == s[k + i];
    SegmentsSkipSeps(s[k..], sep, blank, e - k);
    assert s[k..][e - k..] == s[e..];
  }

  /** A text without a separator is one run when it has content. */
  lemma SegmentsWhole(s: string, sep: CharClass, blank: CharClass)
    requires FindFirst(s, sep) == |s|
    ensures Segments(s, sep, blank) == if HasContent(s, sep, blank) then 1 else 0
  {
    SegmentsPiece(s, sep, blank, |s|);
    assert s[..|s|] == s;
  }

  /** Filtering the pieces of `split(/C+/)` with the matching test leaves
      one piece per counted run. */
  lemma {:induction false} SplitRunsCount(s: string, sep: CharClass, blank: CharClass, keep: PieceTest)
    requires Matching(sep, blank, keep)
    ensures |Filter(SplitRuns(s, sep), keep)| == Segments(s, sep, blank)
    decreases |s|
  {
    var k := FindFirst(s, sep);
    if k == |s| {
      SplitRunsCountWhole(s, sep, blank, keep);
    } else {
      var e := k + Span(s[k..], sep);
      assert e > k;
      SplitRunsCount(s[e..], sep, blank, keep);
      SplitRunsCountStep(s, sep, blank, keep, k, e);
    }
  }

  /** A text without a separator is one piece. */
  lemma SplitRunsCountWhole(s: string, sep: CharClass, blank: CharClass, keep: PieceTest)
    requires Matching(sep, blank, keep)
    requires FindFirst(s, sep) == |s|
    ensures |Filter(SplitRuns(s, sep), keep)| == Segments(s, sep, blank)
  {
    assert SplitRuns(s, sep) == [s];
    assert SepFree(s, sep);
    FilterPiece(s, [], sep, blank, keep);
    SegmentsWhole(s, sep, blank);
  }

  /** The first piece and the pieces after the separator run that ends it. */
  lemma SplitRunsCountStep(s: string, sep: CharClass, blank: CharClass, keep: PieceTest, k: nat, e: nat)
    requires Matching(sep, blank, keep)
    requires k == FindFirst(s, sep) && k < |s| && e == k + Span(s[k..], sep)
    requires |Filter(SplitRuns(s[e..], sep), keep)| == Segments(s[e..], sep, blank)
    ensures |Filter(SplitRuns(s, sep), keep)| == Segments(s, sep, blank)
  {
    SplitRunsStep(s, sep, k, e);
    var p := s[..k];
    assert SepFree(p, sep) by {
      forall i | 0 <= i < |p| ensures !In(p[i], sep) {
        assert p[i] == s[i];
      }
    }
    FilterPiece(p, SplitRuns(s[e..], sep), sep, blank, keep);
    SegmentsFirstPiece(s, sep, blank, k, e);
  }

  /** Dropping leading and trailing whitespace changes no run of
      non-whitespace. */
  lemma SegmentsTrim(s: string, blank: CharClass)
    ensures Segments(Trim(s), Space, blank) == Segments(s, Space, blank)
  {
    var n := Leading(s);
    var r := Trim(s);
    SegmentsSkipSeps(s, Space, blank, n);
    SegmentsDropTail(s[n..], |r|, Space, blank);
    assert s[n..][..|r|] == r;
  }

  /** Separators at the end of `t` add no run. */
  lemma SegmentsDropTail(t: string, k: nat, sep: CharClass, blank: CharClass)
    requires k <= |t| && forall i :: k <= i < |t| ==> In(t[i], sep)
    ensures Segments(t[..k], sep, blank) == Segments(t, sep, blank)
  {
    var rest := t[k..];
    assert t == t[..k] + rest;
    assert forall i :: 0 <= i < |rest| ==> rest[i] == t[k + i];
    SegmentsTrailingSeps(t[..k], rest, sep, blank);
  }

  /** The filter tests the script pairs with each split: a non-empty piece
      of a split on any class, a non-blank piece of the split on `[.!?]`. */
  predicate Matching(sep: CharClass, blank: CharClass, keep: PieceTest) {
    || (keep == NonEmpty && blank == NoChar)
    || (keep == NonBlank && sep == Terminator && blank == Space)
  }

  /** On a separator-free piece, the matching filter test keeps the piece
      exactly when it has content. */
  lemma KeepsIffContent(p: string, sep: CharClass, blank: CharClass, keep: PieceTest)
    requires Matching(sep, blank, keep)
    requires SepFree(p, sep)
    ensures Keeps(keep, p) <==> HasContent(p, sep, blank)
  {
    if keep == NonEmpty {
      NonEmptyHasContent(p, sep);
    } else {
      NonBlankHasContent(p);
    }
  }

  /** `length > 0` on a separator-free piece is "has content" when nothing
      is blank. */
  lemma NonEmptyHasContent(p: string, sep: CharClass)
    requires SepFree(p, sep)
    ensures Keeps(NonEmpty, p) <==> HasContent(p, sep, NoChar)
  {
    if |p| > 0 {
      assert IsContent(p[0], sep, NoChar);
    }
  }

  /** `trim().length > 0` on a terminator-free piece is "has a character
      other than whitespace". */
  lemma NonBlankHasContent(p: string)
    requires SepFree(p, Terminator)
    ensures Keeps(NonBlank, p) <==> HasContent(p, Terminator, Space)
  {
    if Keeps(NonBlank, p) {
      var i :| 0 <= i < |p| && !IsWs(p[i]);
      assert IsContent(p[i], Terminator, Space);
    }
  }

  // ----- The line split -----

  /** The pieces of `split('\n')` that survive the filter are the maximal
      runs free of line feeds. */
  lemma {:induction false} LineSplitCount(s: string)
    ensures |Filter(SplitOn(s, '\n'), NonEmpty)| == Segments(s, LineFeed, NoChar)
    decreases |s|
  {
    var k := IndexOf(s, '\n');
    if k == |s| {
      LineSplitWhole(s);
    } else {
      LineSplitCount(s[k + 1..]);
      LineSplitStep(s, k);
    }
  }

  /** A text without a line feed is one piece. */
  lemma LineSplitWhole(s: string)
    requires IndexOf(s, '\n') == |s|
    ensures |Filter(SplitOn(s, '\n'), NonEmpty)| == Segments(s, LineFeed, NoChar)
  {
    assert s[..|s|] == s;
    assert SplitOn(s, '\n') == [s];
    SegmentsPiece(s, LineFeed, NoChar, |s|);
    NonEmptyHasContent(s, LineFeed);
    FilterCons(s, [], NonEmpty);
  }

  /** The first line and the lines after the first line feed. */
  lemma LineSplitStep(s: string, k: nat)
    requires k == IndexOf(s, '\n') && k < |s|
    requires |Filter(SplitOn(s[k + 1..], '\n'), NonEmpty)| == Segments(s[k + 1..], LineFeed, NoChar)
    ensures |Filter(SplitOn(s, '\n'), NonEmpty)| == Segments(s, LineFeed, NoChar)
  {
    SegmentsFirstLine(s, k);
    FilterFirstLine(s, k);
    NonEmptyHasContent(s[..k], LineFeed);
  }

  /** The runs of `s` are its first line's and those after the first
      line feed. */
  lemma SegmentsFirstLine(s: string, k: nat)
    requires k == IndexOf(s, '\n') && k < |s|
    ensures Segments(s, LineFeed, NoChar)
         == (if HasContent(s[..k], LineFeed, NoChar) then 1 else 0) + Segments(s[k + 1..], LineFeed, NoChar)
  {
    SegmentsPiece(s, LineFeed, NoChar, k);
    SegmentsSkipSeps(s[k..], LineFeed, NoChar, 1);
    assert s[k..][1..] == s[k + 1..];
  }

  /** The filter keeps the first line of `split('\n')` when it is not
      empty. */
  lemma FilterFirstLine(s: string, k: nat)
    requires k == IndexOf(s, '\n') && k < |s|
    ensures SepFree(s[..k], LineFeed)
    ensures |Filter(SplitOn(s, '\n'), NonEmpty)|
         == (if |s[..k]| > 0 then 1 else 0) + |Filter(SplitOn(s[k + 1..], '\n'), NonEmpty)|
  {
    var p := s[..k];
    assert forall i :: 0 <= i < k ==> p[i] == s[i];
    SplitOnStep(s, '\n', k);
    FilterCons(p, SplitOn(s[k + 1..], '\n'), NonEmpty);
  }

  /** Deleting whitespace from a concatenation deletes it from each part. */
  lemma {:induction false} RemoveWsAppend(a: string, b: string)
    ensures RemoveWs(a + b) == RemoveWs(a) + RemoveWs(b)
  {
    if a != [] {
      var head := if IsWs(a[0]) then [] else [a[0]];
      assert (a + b)[0] == a[0] && (a + b)[1..] == a[1..] + b;
      assert RemoveWs(a + b) == head + RemoveWs(a[1..] + b);
      RemoveWsAppend(a[1..], b);
      assert RemoveWs(a) == head + RemoveWs(a[1..]);
    } else {
      assert a + b == b;
    }
  }

  /** `RemoveWs` keeps a text without whitespace whole. */
  lemma {:induction false} RemoveWsKeeps(p: string)
    requires SepFree(p, Space)
    ensures RemoveWs(p) == p
  {
    if p != [] {
      RemoveWsKeeps(p[1..]);
      assert p == [p[0]] + p[1..];
    }
  }

  /** `RemoveWs` drops a run of whitespace entirely. */
  lemma {:induction false} RemoveWsDrops(g: string)
    requires forall i :: 0 <= i < |g| ==> IsWs(g[i])
    ensures RemoveWs(g) == []
  {
    if g != [] {
      RemoveWsDrops(g[1..]);
    }
  }

  /** A word followed by whitespace keeps only the word. */
  lemma RemoveWsWordGap(a: string, gap: string, b: string)
    requires SepFree(a, Space) && forall i :: 0 <= i < |gap| ==> IsWs(gap[i])
    ensures RemoveWs(a + gap + b) == a + RemoveWs(b)
  {
    RemoveWsWordThenGap(a, gap);
    RemoveWsAppend(a + gap, b);
  }

  lemma RemoveWsWordThenGap(a: string, gap: string)
    requires SepFree(a, Space) && forall i :: 0 <= i < |gap| ==> IsWs(gap[i])
    ensures RemoveWs(a + gap) == a
  {
    RemoveWsAppend(a, gap);
    RemoveWsKeeps(a);
    RemoveWsDrops(gap);
    assert a + [] == a;
  }

  /** Deleting whitespace leaves the length minus the whitespace
      characters. */
  lemma {:induction false} RemoveWsLength(s: string)
    ensures |RemoveWs(s)| == |s| - WsCount(s)
    decreases |s|
  {
    if s != [] {
      var init := s[..|s| - 1];
      RemoveWsLength(init);
      assert s == init + [s[|s| - 1]];
      RemoveWsAppend(init, [s[|s| - 1]]);
      assert [s[|s| - 1]][1..] == [];
    }
  }

  /** Each word holds at least one non-space character. */
  lemma {:induction false} RunsBelowNonSpace(s: string)
    ensures Segments(s, Space, NoChar) <= |RemoveWs(s)|
  {
    if s != [] {
      RunsBelowNonSpace(s[1..]);
    }
  }

  /** Word count <= non-space count <= total count. */
  lemma CountsOrdered(s: string)
    ensures WordCount(s) <= NonSpaceChars(s) <= |s|
  {
    RunsBelowNonSpace(s);
  }

  /** No words exactly when the text is empty or all whitespace. */
  lemma NoWordsIffBlank(s: string)
    ensures WordCount(s) == 0 <==> forall i :: 0 <= i < |s| ==> IsWs(s[i])
  {
    SegmentsZeroIff(s, Space, NoChar);
    if !HasContent(s, Space, NoChar) {
      forall i | 0 <= i < |s| ensures IsWs(s[i]) {
        assert !IsContent(s[i], Space, NoChar);
      }
    }
  }

  /** No sentences exactly when every character is whitespace, `.`, `!` or
      `?`. */
  lemma NoSentencesIffPunctuation(s: string)
    ensures SentenceCount(s) == 0 <==> forall i :: 0 <= i < |s| ==> In(s[i], Space) || In(s[i], Terminator)
  {
    SegmentsZeroIff(s, Terminator, Space);
  }

  /** Non-blank text without a terminator is one sentence. */
  lemma OneSentenceWithoutTerminator(s: string)
    requires forall i :: 0 <= i < |s| ==> !In(s[i], Terminator)
    requires exists i :: 0 <= i < |s| && !IsWs(s[i])
    ensures SentenceCount(s) == 1
  {
    SegmentsPiece(s, Terminator, Space, |s|);
    assert s[..|s|] == s;
    var i :| 0 <= i < |s| && !IsWs(s[i]);
    assert IsContent(s[i], Terminator, Space);
  }

  /** Non-empty text without a line feed is one line, even when it is all
      spaces. */
  lemma OneLineWithoutNewline(s: string)
    requires s != [] && '\n' !in s
    ensures LineCount(s) == 1
  {
    SegmentsPiece(s, LineFeed, NoChar, |s|);
    assert s[..|s|] == s;
    assert IsContent(s[0], LineFeed, NoChar);
  }

  /** At most one line more than there are line feeds. */
  lemma LinesBound(s: string)
    ensures LineCount(s) <= multiset(s)['\n'] + 1
  {
    SplitOnCount(s, '\n');
  }

  /** `clearText` empties the box and recomputes: every counter is zero. */
  lemma ClearedCountersAreZero()
    ensures Stats("") == Statistics(0, 0, 0, 0, 0)
  {
    assert SplitRuns("", Space) == [""];
    assert SplitRuns("", Terminator) == [""];
    assert SplitOn("", '\n') == [""];
  }

  // ----- A worked example -----

  /** A non-empty separator-free text whose first character is content:
      exactly one run. */
  ghost predicate Word(p: string, sep: CharClass, blank: CharClass) {
    p != [] && SepFree(p, sep) && IsContent(p[0], sep, blank)
  }

  /** Five words, one separator between each two. */
  lemma FiveRuns(a: string, b: string, c: string, d: string, e: string, gap: string, sep: CharClass, blank: CharClass)
    requires gap != [] && forall i :: 0 <= i < |gap| ==> In(gap[i], sep)
    requires Word(a, sep, blank) && Word(b, sep, blank) && Word(c, sep, blank)
    requires Word(d, sep, blank) && Word(e, sep, blank)
    ensures Segments(a + gap + (b + gap + (c + gap + (d + gap + e))), sep, blank) == 5
  {
    OneRun(a, sep, blank, 0);
    OneRun(b, sep, blank, 0);
    OneRun(c, sep, blank, 0);
    OneRun(d, sep, blank, 0);
    OneRun(e, sep, blank, 0);
    SegmentsJoin(d, gap, e, sep, blank);
    SegmentsJoin(c, gap, d + gap + e, sep, blank);
    SegmentsJoin(b, gap, c + gap + (d + gap + e), sep, blank);
    SegmentsJoin(a, gap, b + gap + (c + gap + (d + gap + e)), sep, blank);
  }

  /** Two separator-free texts with content, each closed by a separator. */
  lemma TwoRuns(s: string, a: string, b: string, x: string, y: string, sep: CharClass, blank: CharClass, i: nat, j: nat)
    requires SepFree(a, sep) && i < |a| && IsContent(a[i], sep, blank)
    requires SepFree(b, sep) && j < |b| && IsContent(b[j], sep, blank)
    requires |x| == 1 && In(x[0], sep) && |y| == 1 && In(y[0], sep)
    requires s == a + x + (b + y)
    ensures Segments(s, sep, blank) == 2
  {
    OneRun(a, sep, blank, i);
    OneRun(b, sep, blank, j);
    assert b + y == b + y + [];
    SegmentsJoin(b, y, [], sep, blank);
    SegmentsJoin(a, x, b + y, sep, blank);
  }

  /** A worked example: "Hello world. How are you?" has 25 characters,
      21 of them not whitespace, 5 words, 2 sentences and 1 line. */
  const Sample: string := "Hello world. How are you?"

  /** The five words of the sample, split on whitespace. */
  lemma SampleWordsHaveNoSpace()
    ensures Word("Hello", Space, NoChar) && Word("world.", Space, NoChar) && Word("How", Space, NoChar)
    ensures Word("are", Space, NoChar) && Word("you?", Space, NoChar)
  {
  }

  /** The sample is five words with one space between each two. */
  lemma SampleIsFiveWords()
    ensures Sample == "Hello" + " " + ("world." + " " + ("How" + " " + ("are" + " " + "you?")))
  {
  }

  /** The third counter: "Hello" "world." "How" "are" "you?". */
  lemma SampleWords(s: string)
    requires s == Sample
    ensures WordCount(s) == 5
  {
    SampleIsFiveWords();
    SampleWordsHaveNoSpace();
    FiveRuns("Hello", "world.", "How", "are", "you?", " ", Space, NoChar);
  }

  /** The fourth counter: "Hello world" and " How are you". */
  lemma SampleSentences(s: string)
    requires s == Sample
    ensures SentenceCount(s) == 2
  {
    assert s == "Hello world" + "." + (" How are you" + "?");
    TwoRuns(s, "Hello world", " How are you", ".", "?", Terminator, Space, 0, 1);
  }

  /** Five words joined by whitespace: only the words' characters are
      not whitespace. */
  lemma FiveWordsNonSpace(a: string, b: string, c: string, d: string, e: string, gap: string)
    requires SepFree(a, Space) && SepFree(b, Space) && SepFree(c, Space)
    requires SepFree(d, Space) && SepFree(e, Space)
    requires forall i :: 0 <= i < |gap| ==> IsWs(gap[i])
    ensures NonSpaceChars(a + gap + (b + gap + (c + gap + (d + gap + e)))) == |a| + |b| + |c| + |d| + |e|
  {
    RemoveWsWordGap(a, gap, b + gap + (c + gap + (d + gap + e)));
    RemoveWsWordGap(b, gap, c + gap + (d + gap + e));
    RemoveWsWordGap(c, gap, d + gap + e);
    RemoveWsWordGap(d, gap, e);
    RemoveWsKeeps(e);
  }

  /** The second counter: the four spaces are not counted. */
  lemma SampleNonSpace(s: string)
    requires s == Sample
    ensures NonSpaceChars(s) == 21
  {
    SampleIsFiveWords();
    SampleWordsHaveNoSpace();
    FiveWordsNonSpace("Hello", "world.", "How", "are", "you?", " ");
  }

  lemma SampleLengthAndLines(s: string)
    requires s == Sample
    ensures |s| == 25 && LineCount(s) == 1
  {
    OneLineWithoutNewline(s);
  }
}
