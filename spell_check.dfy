/** What `checkSpelling` (script.js:39-118) decides to show: validation of
    the trimmed text, extraction of the JSON payload from the service's
    callback-wrapped reply, and classification of the decoded result. The
    network reply and the JSON decoder are inputs. */
module SpellCheck {
  import opened Wrappers
  import opened JsString

  /** Longest trimmed text the script sends to the service. */
  const MaxLength: nat := 500

  // ----- The service's reply, as far as the script reads it -----

  /** One entry of `result.errata`; `help` is absent or a string. */
  datatype Erratum = Erratum(orgStr: string, candWord: string, help: Option<string>)

  /** `message.result`. `errataCount` is `Some(n)` when `errata_count` is
      the number n and `None` for any other value; `errata` is `None` when
      the field is not an array the script can walk, or holds a `null`
      entry whose fields the script cannot read. */
  datatype CheckResult = CheckResult(errataCount: Option<int>, errata: Option<seq<Erratum>>, html: string)

  /** `message`; `result` is `None` when `message.result` is missing or falsy. */
  datatype Message = Message(result: Option<CheckResult>)

  /** The parsed payload; `message` is `None` when `data.message` is
      missing or falsy. */
  datatype Payload = Payload(message: Option<Message>)

  /** What `fetch(...)` followed by `response.text()` yields. */
  datatype Reply = TransportFailure | Body(text: string)

  // ----- What the script shows -----

  /** One numbered entry of the error list. */
  datatype Item = Item(number: nat, wrong: string, correct: string, help: string)

  datatype Outcome =
    | EnterText        // the "enter some text" error; nothing is sent
    | TooLong          // the "500 characters at most" warning; nothing is sent
    | NoErrors         // the "no spelling errors" message
    | Errors(reported: Option<int>, items: seq<Item>, corrected: string)
    | Fallback         // the error message listing two alternative services

  // ----- Extracting the payload: `textResponse.match(/\((.+)\)/)` -----

  /** `s[i]` opens and `s[j]` closes a match of `\((.+)\)`: at least one
      character between them and no line terminator among those. */
  ghost predicate Wrapped(s: string, i: int, j: int) {
    && 0 <= i && i + 2 <= j < |s|
    && s[i] == '(' && s[j] == ')'
    && forall k :: i < k < j ==> !IsLineTerminator(s[k])
  }

  /** Index of the first line terminator at or after `from`, or `|s|`. */
  function LineEnd(s: string, from: nat): (e: nat)
    requires from <= |s|
    ensures from <= e <= |s|
    ensures forall k :: from <= k < e ==> !IsLineTerminator(s[k])
    ensures e < |s| ==> IsLineTerminator(s[e])
    decreases |s| - from
  {
    if from == |s| || IsLineTerminator(s[from]) then from else LineEnd(s, from + 1)
  }

  /** The last `)` in `s[lo..hi]`, if any. */
  function LastClose(s: string, lo: nat, hi: nat): (r: Option<nat>)
    requires lo <= hi <= |s|
    ensures r.Some? ==> lo <= r.value < hi && s[r.value] == ')'
    ensures r.Some? ==> forall k :: r.value < k < hi ==> s[k] != ')'
    ensures r.None? ==> forall k :: lo <= k < hi ==> s[k] != ')'
    decreases hi - lo
  {
    if hi == lo then None
    else if s[hi - 1] == ')' then Some(hi - 1)
    else LastClose(s, lo, hi - 1)
  }

  /** Where the match of `\((.+)\)` that starts at `i` ends, if one
      starts there: `.+` first runs to the end of the line and gives back
      characters until a `)` follows, so the match ends at the last `)`
      on the line, at least two characters after the `(`. */
  function MatchEnd(s: string, i: nat): (r: Option<nat>)
    requires i < |s|
    ensures r.Some? ==> s[i] == '(' && i + 2 <= r.value < |s| && s[r.value] == ')'
  {
    if s[i] != '(' then None
    else
      var e := LineEnd(s, i + 1);
      if e < i + 2 then None else LastClose(s, i + 2, e)
  }

  /** A match found at `i` is a match, and the longest one from `i`. */
  lemma MatchEndGreedy(s: string, i: nat)
    requires i < |s| && MatchEnd(s, i).Some?
    ensures Wrapped(s, i, MatchEnd(s, i).value)
    ensures forall j :: MatchEnd(s, i).value < j < |s| ==> !Wrapped(s, i, j)
  {
  }

  /** Every match from `i` is found, and ends no later than the one found. */
  lemma MatchEndComplete(s: string, i: nat, j: nat)
    requires Wrapped(s, i, j)
    ensures MatchEnd(s, i).Some? && j <= MatchEnd(s, i).value
  {
  }

  /** The leftmost position at or after `i` where a match starts. */
  function FirstOpen(s: string, i: nat): (r: Option<nat>)
    requires i <= |s|
    ensures r.Some? ==> i <= r.value < |s| && MatchEnd(s, r.value).Some?
    ensures forall k :: i <= k < |s| && (r.None? || k < r.value) ==> MatchEnd(s, k).None?
    decreases |s| - i
  {
    if i == |s| then None
    else if MatchEnd(s, i).Some? then Some(i)
    else FirstOpen(s, i + 1)
  }

  /** `jsonMatch[1]`: the group of the leftmost match of `\((.+)\)`, or
      `None` when the reply has none. The group is one non-empty line. */
  function ExtractPayload(s: string): (r: Option<string>)
    ensures r.Some? ==> |r.value| > 0 && forall k :: 0 <= k < |r.value| ==> !IsLineTerminator(r.value[k])
  {
    match FirstOpen(s, 0)
    case None => None
    case Some(i) =>
      var j := MatchEnd(s, i).value;
      MatchEndGreedy(s, i);
      Some(s[i + 1..j])
  }

  /** The group is that of the leftmost, longest match of `\((.+)\)`, and
      there is none exactly when the reply has no match at all. */
  lemma LeftmostLongest(s: string)
    ensures ExtractPayload(s).None? <==> forall i, j :: !Wrapped(s, i, j)
    ensures ExtractPayload(s).Some? ==> exists i, j ::
      && Wrapped(s, i, j) && ExtractPayload(s).value == s[i + 1..j]
      && (forall i', j' :: 0 <= i' < i ==> !Wrapped(s, i', j'))
      && (forall j' :: j < j' < |s| ==> !Wrapped(s, i, j'))
  {
    match FirstOpen(s, 0)
    case None =>
      forall i, j | Wrapped(s, i, j) ensures false {
        MatchEndComplete(s, i, j);
      }
    case Some(i) =>
      var j := MatchEnd(s, i).value;
      MatchEndGreedy(s, i);
      forall i', j' | 0 <= i' < i && Wrapped(s, i', j') ensures false {
        MatchEndComplete(s, i', j');
      }
  }

  // ----- Classifying the decoded reply -----

  /** `error.help || ''`: the help text when there is one, otherwise
      the empty string. */
  function HelpText(help: Option<string>): (r: string)
    ensures help.Some? ==> r == help.value
    ensures help.None? ==> r == ""
  {
    help.GetOr("")
  }

  /** The list the `forEach` at script.js:83-97 builds: entry k of `errata`
      becomes item number k + 1. */
  function NumberErrata(errata: seq<Erratum>): (items: seq<Item>)
    ensures |items| == |errata|
    ensures forall k :: 0 <= k < |errata| ==>
      items[k] == Item(k + 1, errata[k].orgStr, errata[k].candWord, HelpText(errata[k].help))
  {
    if errata == [] then []
    else
      var n := |errata| - 1;
      NumberErrata(errata[..n]) + [Item(n + 1, errata[n].orgStr, errata[n].candWord, HelpText(errata[n].help))]
  }

  /** `data.message && data.message.result`, when the JSON parsed: there
      is a result exactly when the payload parsed, has a `message` and that
      message has a `result`. */
  function ResultOf(data: Option<Payload>): (r: Option<CheckResult>)
    ensures r.Some? <==> data.Some? && data.value.message.Some? && data.value.message.value.result.Some?
    ensures r.Some? ==> r == data.value.message.value.result
  {
    if data.Some? && data.value.message.Some? then data.value.message.value.result else None
  }

  /** What the script shows once the reply is in (script.js:64-117). */
  function Respond(reply: Reply, decode: string -> Option<Payload>): (o: Outcome)
    ensures o != EnterText && o != TooLong
    ensures o.Errors? ==> o.reported != Some(0) && forall k :: 0 <= k < |o.items| ==> o.items[k].number == k + 1
  {
    match reply
    case TransportFailure => Fallback
    case Body(text) =>
      match ExtractPayload(text)
      case None => Fallback
      case Some(json) =>
        match ResultOf(decode(json))
        case None => Fallback
        case Some(result) =>
          if result.errataCount == Some(0) then NoErrors
          else if result.errata.None? then Fallback
          else Errors(result.errataCount, NumberErrata(result.errata.value), result.html)
  }

  // ----- The click handler -----

  /** The list of items, built entry by entry as the `forEach` appends to
      `html`. */
  method ListErrata(errata: seq<Erratum>) returns (items: seq<Item>)
    ensures items == NumberErrata(errata)
  {
    items := [];
    var index := 0;
    while index < |errata|
      invariant 0 <= index <= |errata|
      invariant items == NumberErrata(errata[..index])
    {
      var error := errata[index];
      assert errata[..index + 1][..index] == errata[..index];
      items := items + [Item(index + 1, error.orgStr, error.candWord, HelpText(error.help))];
      index := index + 1;
    }
    assert errata[..index] == errata;
  }

  /** `checkSpelling` for the text in the box. `request` is the `q` the
      script sends, or `None` when it sends nothing; `fetch` stands for the
      service and `decode` for `JSON.parse`. */
  method CheckSpelling(input: string, fetch: string -> Reply, decode: string -> Option<Payload>)
    returns (request: Option<string>, outcome: Outcome)
    ensures |Trim(input)| == 0 ==> request == None && outcome == EnterText
    ensures |Trim(input)| > MaxLength ==> request == None && outcome == TooLong
    ensures 0 < |Trim(input)| <= MaxLength ==>
      request == Some(Trim(input)) && outcome == Respond(fetch(Trim(input)), decode)
  {
    var text := Trim(input);
    if |text| == 0 {
      return None, EnterText;
    }
    if |text| > MaxLength {
      return None, TooLong;
    }
    request := Some(text);
    var reply := fetch(text);
    if reply.TransportFailure? {
      return request, Fallback;
    }
    var jsonMatch := ExtractPayload(reply.text);
    if jsonMatch.None? {
      return request, Fallback;
    }
    var result := ResultOf(decode(jsonMatch.value));
    if result.None? {
      outcome := Fallback;
    } else if result.value.errataCount == Some(0) {
      outcome := NoErrors;
    } else if result.value.errata.None? {
      outcome := Fallback;
    } else {
      var items := ListErrata(result.value.errata.value);
      outcome := Errors(result.value.errataCount, items, result.value.html);
    }
  }

  // ----- Properties -----

  /** `t` occurs in `s` at index `i`. */
  ghost predicate OccursAt(s: string, i: int, t: string) {
    0 <= i && i + |t| <= |s| && s[i..i + |t|] == t
  }

  /** The captured group is non-empty, holds no line terminator, and sits
      between a `(` and a `)` of the reply. */
  lemma CapturedGroupIsWrapped(s: string)
    requires ExtractPayload(s).Some?
    ensures var g := ExtractPayload(s).value;
      && |g| > 0
      && (forall k :: 0 <= k < |g| ==> !IsLineTerminator(g[k]))
      && exists i :: OccursAt(s, i, "(" + g + ")")
  {
    var i := FirstOpen(s, 0).value;
    MatchEndGreedy(s, i);
    WrappedGroup(s, i, MatchEnd(s, i).value);
  }

  lemma WrappedGroup(s: string, i: int, j: int)
    requires Wrapped(s, i, j)
    ensures var g := s[i + 1..j];
      && |g| > 0
      && (forall k :: 0 <= k < |g| ==> !IsLineTerminator(g[k]))
      && OccursAt(s, i, "(" + g + ")")
  {
    var g := s[i + 1..j];
    assert forall k :: 0 <= k < |g| ==> g[k] == s[i + 1 + k];
    assert s[i..j + 1] == [s[i]] + g + [s[j]];
  }

  /** Where the parts of `name(payload)tail` lie. */
  lemma CallbackLayout(name: string, payload: string, tail: string)
    ensures var s := name + "(" + payload + ")" + tail;
      var i, j := |name|, |name| + 1 + |payload|;
      && |s| == j + 1 + |tail|
      && s[..i] == name && s[i] == '(' && s[i + 1..j] == payload && s[j] == ')' && s[j + 1..] == tail
  {
  }

  /** A match whose `(` is the first of the reply and whose `)` is the
      last is the one `match` returns. */
  lemma ExtractBetween(s: string, i: int, j: int)
    requires Wrapped(s, i, j)
    requires forall k :: 0 <= k < i ==> s[k] != '('
    requires forall k :: j < k < |s| ==> s[k] != ')'
    ensures ExtractPayload(s) == Some(s[i + 1..j])
  {
    MatchEndComplete(s, i, j);
    var r := FirstOpen(s, 0);
    assert r == Some(i);
    assert MatchEnd(s, i) == Some(j);
  }

  lemma ExtractFromParts(s: string, name: string, payload: string, tail: string)
    requires '(' !in name && ')' !in tail
    requires |payload| > 0 && forall k :: 0 <= k < |payload| ==> !IsLineTerminator(payload[k])
    requires var i, j := |name|, |name| + 1 + |payload|;
      && |s| == j + 1 + |tail|
      && s[..i] == name && s[i] == '(' && s[i + 1..j] == payload && s[j] == ')' && s[j + 1..] == tail
    ensures ExtractPayload(s) == Some(payload)
  {
    var i, j := |name|, |name| + 1 + |payload|;
    forall k | i < k < j ensures !IsLineTerminator(s[k]) {
      assert s[k] == s[i + 1..j][k - i - 1];
    }
    forall k | 0 <= k < i ensures s[k] != '(' {
      assert s[k] == s[..i][k];
    }
    forall k | j < k < |s| ensures s[k] != ')' {
      assert s[k] == s[j + 1..][k - j - 1];
    }
    ExtractBetween(s, i, j);
  }

  /** A reply `name(payload)tail` yields `payload` when the callback name
      has no `(`, the payload is one non-empty line, and the tail has no
      `)`. */
  lemma ExtractFromCallback(name: string, payload: string, tail: string)
    requires '(' !in name && ')' !in tail
    requires |payload| > 0 && forall k :: 0 <= k < |payload| ==> !IsLineTerminator(payload[k])
    ensures ExtractPayload(name + "(" + payload + ")" + tail) == Some(payload)
  {
    CallbackLayout(name, payload, tail);
    ExtractFromParts(name + "(" + payload + ")" + tail, name, payload, tail);
  }

  /** A reply without a `(`, at least one character and a `)` on one line
      gives the fallback. */
  lemma NoWrapperFallsBack(text: string, decode: string -> Option<Payload>)
    requires forall i, j :: !Wrapped(text, i, j)
    ensures Respond(Body(text), decode) == Fallback
  {
    LeftmostLongest(text);
  }

  /** The fallback is shown exactly when the request failed, the reply has
      no wrapper, the payload has no `message.result`, or the result
      reports errors but has no errata the script can walk. */
  lemma FallbackIffFailure(reply: Reply, decode: string -> Option<Payload>)
    ensures Respond(reply, decode) == Fallback <==>
      || reply.TransportFailure?
      || ExtractPayload(reply.text).None?
      || ResultOf(decode(ExtractPayload(reply.text).value)).None?
      || (var r := ResultOf(decode(ExtractPayload(reply.text).value)).value;
          r.errataCount != Some(0) && r.errata.None?)
  {
  }

  /** The no-errors message is shown exactly when a result came back whose
      `errata_count` is 0, whatever its errata. */
  lemma NoErrorsIffZeroCount(reply: Reply, decode: string -> Option<Payload>)
    ensures Respond(reply, decode) == NoErrors <==>
      && reply.Body? && ExtractPayload(reply.text).Some?
      && ResultOf(decode(ExtractPayload(reply.text).value)).Some?
      && ResultOf(decode(ExtractPayload(reply.text).value)).value.errataCount == Some(0)
  {
  }

  /** Otherwise the reported count is `errata_count`, the errata are
      listed 1..n in the order the service gave, each with its original
      word, candidate and help text, and the corrected text `result.html`
      follows the list. */
  lemma ErrataNumberedInOrder(reply: Reply, decode: string -> Option<Payload>)
    requires Respond(reply, decode).Errors?
    ensures reply.Body? && ExtractPayload(reply.text).Some?
    ensures var r := ResultOf(decode(ExtractPayload(reply.text).value));
      var o := Respond(reply, decode);
      && r.Some? && r.value.errataCount != Some(0) && r.value.errata.Some?
      && o.reported == r.value.errataCount
      && o.corrected == r.value.html
      && |o.items| == |r.value.errata.value|
      && forall k :: 0 <= k < |o.items| ==>
           o.items[k].number == k + 1 && o.items[k].wrong == r.value.errata.value[k].orgStr
           && o.items[k].correct == r.value.errata.value[k].candWord
           && o.items[k].help == HelpText(r.value.errata.value[k].help)
  {
    var json := ExtractPayload(reply.text).value;
    var r := ResultOf(decode(json)).value;
    assert Respond(reply, decode) == Errors(r.errataCount, NumberErrata(r.errata.value), r.html);
  }
}
