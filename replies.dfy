/** Decoding the model's free-text replies (utils/analyzeUtils.js:85-106, 152-165, 182-213,
    261-265): the markdown-fence stripping shared by every call site, the verdict decode of
    `isSameProductImage`, and the two bounded retry loops. Transport and `JSON.parse` are
    oracles: a reply is `None` when the request threw, and `parse` is `None` when
    `JSON.parse` throws. */
module Replies {
  import opened Wrappers
  import opened Text
  import opened Json

  const Fence := "```"
  const JsonFence := "```json"

  /** Trims the reply and, when it then opens with three backticks, removes a leading
      "```json" or "```" marker and a trailing "```" marker before trimming again. What
      reaches `JSON.parse` is no longer than the reply and never starts or ends with
      whitespace. */
  function Unfence(raw: string): (r: string)
    ensures |r| <= |raw|
    ensures r == [] || (!IsSpace(r[0]) && !IsSpace(r[|r| - 1]))
  {
    var t := Trim(raw);
    if StartsWith(t, Fence) then Trim(DropSuffix(DropPrefix(DropPrefix(t, JsonFence), Fence), Fence))
    else t
  }

  /** A reply that does not start with a fence (after trimming) is only trimmed. */
  lemma UnfencePlain(raw: string)
    requires !StartsWith(Trim(raw), Fence)
    ensures Unfence(raw) == Trim(raw)
  {
  }

  /** Dropping a leading fence and then a trailing fence from `body + Fence` gives back
      `body`, provided `body` does not open with a fence. */
  lemma StripClosingFence(body: string)
    requires !StartsWith(body, Fence)
    ensures DropSuffix(DropPrefix(body + Fence, Fence), Fence) == body
  {
    var y := body + Fence;
    var z := DropPrefix(y, Fence);
    if StartsWith(y, Fence) {
      // Only a body of fewer than three backticks lets `body + Fence` start with a fence,
      // and then dropping that fence leaves the same run of backticks.
      assert |body| < |Fence|;
      assert z == y[|Fence|..];
      assert z == body by {
        forall i | 0 <= i < |z| ensures z[i] == body[i] {
          assert z[i] == y[i + |Fence|] == '`';
          assert body[i] == y[i] == '`';
        }
      }
      assert !EndsWith(z, Fence);
    } else {
      assert z == body + Fence;
      assert EndsWith(z, Fence);
    }
  }

  /** A fenced JSON block, possibly surrounded by whitespace, yields its trimmed body
      (a body that itself opens with a fence would lose that fence too). */
  lemma UnfenceJsonBlock(ws1: string, body: string, ws2: string)
    requires AllSpaces(ws1) && AllSpaces(ws2)
    requires !StartsWith(body, Fence)
    ensures Unfence(ws1 + JsonFence + body + Fence + ws2) == Trim(body)
  {
    TrimJsonBlock(ws1, body, ws2);
    OpensWithFence(body);
    StripClosingFence(body);
  }

  lemma TrimJsonBlock(ws1: string, body: string, ws2: string)
    requires AllSpaces(ws1) && AllSpaces(ws2)
    ensures Trim(ws1 + JsonFence + body + Fence + ws2) == JsonFence + body + Fence
  {
    var x := JsonFence + body + Fence;
    assert ws1 + JsonFence + body + Fence + ws2 == ws1 + x + ws2;
    TrimAround(ws1, x, ws2);
  }

  lemma OpensWithFence(body: string)
    ensures StartsWith(JsonFence + body + Fence, Fence)
    ensures DropPrefix(JsonFence + body + Fence, JsonFence) == body + Fence
  {
    var x := JsonFence + body + Fence;
    assert x[..|Fence|] == Fence;
    assert x[..|JsonFence|] == JsonFence;
  }

  /** `JSON.parse(text)`: the empty text always throws; any other text is decided by the
      `parse` oracle. */
  function JsonParse(parse: string -> Option<Json>, text: string): (r: Option<Json>)
    ensures text == [] ==> r.None?
    ensures text != [] ==> r == parse(text)
  {
    if text == [] then None else parse(text)
  }

  /** A blank reply never parses. */
  lemma BlankReplyFails(parse: string -> Option<Json>, raw: string)
    requires AllSpaces(raw)
    ensures JsonParse(parse, Unfence(raw)).None?
  {
  }

  /** `isSameProductImage` after the request: `parsed.sameProduct === true`, false when
      `JSON.parse` throws or when reading the property throws. Only the JSON value `true`
      under the key "sameProduct" of an object counts. */
  function IsSameProduct(reply: string, parse: string -> Option<Json>): (same: bool)
    ensures JsonParse(parse, Unfence(reply)).None? ==> !same
    ensures same <==> var p := JsonParse(parse, Unfence(reply));
      p.Some? && p.value.JObj? && LastValueIs(p.value.members, "sameProduct", JBool(true))
  {
    match JsonParse(parse, Unfence(reply))
    case None => false
    case Some(parsed) => Property(parsed, "sameProduct") == Found(JBool(true))
  }

  /** One attempt of `analyzeImageWithGemini`: the parsed reply, or None when the request
      or `JSON.parse` threw. */
  function ExtractAttempt(reply: Option<string>, parse: string -> Option<Json>): Option<Json> {
    match reply
    case None => None
    case Some(text) => JsonParse(parse, Unfence(text))
  }

  /** An attempt succeeds only when the request returned a reply whose unfenced text parses,
      and then yields the parsed value; a blank reply never succeeds. */
  lemma ExtractAttemptSucceeds(reply: Option<string>, parse: string -> Option<Json>)
    ensures ExtractAttempt(reply, parse).Some? ==>
      (reply.Some? && JsonParse(parse, Unfence(reply.value)) == ExtractAttempt(reply, parse))
    ensures reply.Some? && AllSpaces(reply.value) ==> ExtractAttempt(reply, parse).None?
  {
    if reply.Some? && AllSpaces(reply.value) {
      BlankReplyFails(parse, reply.value);
    }
  }

  datatype Extraction =
    | Parsed(value: Json)    // the first attempt whose reply parsed
    | RetriesExceeded        // every one of the maxRetries attempts failed: the function throws
    | NoAttempt              // maxRetries <= 0: the loop never runs and the function returns undefined

  /** The first attempt from `attempt` on that parses, as the loop of lines 85-106 finds it. */
  function ExtractFrom(maxRetries: int, replyAt: nat -> Option<string>, parse: string -> Option<Json>, attempt: nat)
    : (r: Extraction)
    ensures r.NoAttempt? <==> attempt == 0 && maxRetries <= 0
    ensures r.RetriesExceeded? <==> (!(attempt == 0 && maxRetries <= 0)
      && forall a | attempt <= a < maxRetries :: ExtractAttempt(replyAt(a), parse).None?)
    decreases maxRetries - attempt
  {
    if attempt >= maxRetries then (if attempt == 0 then NoAttempt else RetriesExceeded)
    else match ExtractAttempt(replyAt(attempt), parse)
      case Some(j) => Parsed(j)
      case None => ExtractFrom(maxRetries, replyAt, parse, attempt + 1)
  }

  /** A failed attempt, not the first, hands over to the next one. */
  lemma ExtractFromNext(maxRetries: int, replyAt: nat -> Option<string>, parse: string -> Option<Json>, attempt: nat)
    requires attempt < maxRetries && ExtractAttempt(replyAt(attempt), parse).None?
    ensures attempt + 1 < maxRetries ==> ExtractFrom(maxRetries, replyAt, parse, attempt) == ExtractFrom(maxRetries, replyAt, parse, attempt + 1)
    ensures attempt + 1 >= maxRetries ==> ExtractFrom(maxRetries, replyAt, parse, attempt) == RetriesExceeded
  {
  }

  /** `analyzeImageWithGemini(base64Image, maxRetries)`: attempt `a` (from 0) receives
      `replyAt(a)`. It returns the first reply that parses, throws once `maxRetries`
      consecutive attempts failed, and makes no attempt at all when `maxRetries <= 0`. */
  method AnalyzeImageWithGemini(maxRetries: int, replyAt: nat -> Option<string>, parse: string -> Option<Json>)
    returns (r: Extraction, attempts: nat)
    ensures r == ExtractFrom(maxRetries, replyAt, parse, 0)
    ensures attempts <= if maxRetries > 0 then maxRetries else 0
    ensures r.NoAttempt? <==> maxRetries <= 0
    ensures r.Parsed? ==> attempts >= 1 && ExtractAttempt(replyAt(attempts - 1), parse) == Some(r.value)
    ensures r.Parsed? ==> forall a | 0 <= a < attempts - 1 :: ExtractAttempt(replyAt(a), parse).None?
    ensures r.RetriesExceeded? <==> maxRetries > 0 && forall a | 0 <= a < maxRetries :: ExtractAttempt(replyAt(a), parse).None?
    ensures r.RetriesExceeded? ==> attempts == maxRetries
  {
    var attempt: nat := 0;
    while attempt < maxRetries
      invariant maxRetries > 0 ==> attempt < maxRetries
      invariant forall a | 0 <= a < attempt :: ExtractAttempt(replyAt(a), parse).None?
      invariant ExtractFrom(maxRetries, replyAt, parse, attempt) == ExtractFrom(maxRetries, replyAt, parse, 0)
      decreases maxRetries - attempt
    {
      var parsed := ExtractAttempt(replyAt(attempt), parse);
      if parsed.Some? {
        return Parsed(parsed.value), attempt + 1;
      }
      ExtractFromNext(maxRetries, replyAt, parse, attempt);
      assert forall a | 0 <= a < attempt + 1 :: ExtractAttempt(replyAt(a), parse).None? by {
        forall a | 0 <= a < attempt + 1 ensures ExtractAttempt(replyAt(a), parse).None? {
          if a == attempt { assert parsed.None?; }
        }
      }
      attempt := attempt + 1;
      if attempt >= maxRetries {
        return RetriesExceeded, attempt;
      }
    }
    return NoAttempt, 0;
  }

  /** One attempt of `geminiSelectMostLikelyCandidate`: `Some(v)` when the reply parsed and
      `parsed.selectedUrl` read as `v` (`None` for undefined); `None` when the request threw,
      `JSON.parse` threw, or the reply was the JSON `null` (reading a property of null throws). */
  function SelectAttempt(reply: Option<string>, parse: string -> Option<Json>): (r: Option<Option<Json>>)
    ensures r.None? <==> reply.None? || JsonParse(parse, Unfence(reply.value)) in {None, Some(JNull)}
  {
    match reply
    case None => None
    case Some(text) =>
      match JsonParse(parse, Unfence(text))
      case None => None
      case Some(parsed) =>
        match Property(parsed, "selectedUrl")
        case TypeError => None
        case Undefined => Some(None)
        case Found(v) => Some(Some(v))
  }

  const SelectAttempts := 3

  datatype Selection =
    | Selected(url: Option<Json>)  // `parsed.selectedUrl` of the first attempt that got that far
    | Exhausted                    // three attempts failed: the function returns null

  /** Every attempt from `attempt` to the last one fails. */
  predicate AllFailFrom(urls: seq<Option<string>>, selector: (seq<Option<string>>, nat) -> Option<string>,
                        parse: string -> Option<Json>, attempt: nat) {
    forall a | attempt <= a <= SelectAttempts :: SelectAttempt(selector(urls, a), parse).None?
  }

  function SelectFrom(urls: seq<Option<string>>, selector: (seq<Option<string>>, nat) -> Option<string>,
                      parse: string -> Option<Json>, attempt: nat): (r: Selection)
    ensures r.Exhausted? <==> AllFailFrom(urls, selector, parse, attempt)
    decreases SelectAttempts + 1 - attempt
  {
    if attempt > SelectAttempts then Exhausted
    else
      var outcome := SelectAttempt(selector(urls, attempt), parse);
      if outcome.Some? then
        assert !AllFailFrom(urls, selector, parse, attempt);
        Selected(outcome.value)
      else
        AllFailStep(urls, selector, parse, attempt);
        SelectFrom(urls, selector, parse, attempt + 1)
  }

  lemma AllFailStep(urls: seq<Option<string>>, selector: (seq<Option<string>>, nat) -> Option<string>,
                    parse: string -> Option<Json>, attempt: nat)
    requires attempt <= SelectAttempts && SelectAttempt(selector(urls, attempt), parse).None?
    ensures AllFailFrom(urls, selector, parse, attempt) <==> AllFailFrom(urls, selector, parse, attempt + 1)
  {
  }

  /** An attempt that failed hands over to the next one. */
  lemma SelectFromNext(urls: seq<Option<string>>, selector: (seq<Option<string>>, nat) -> Option<string>,
                       parse: string -> Option<Json>, attempt: nat)
    requires attempt <= SelectAttempts && SelectAttempt(selector(urls, attempt), parse).None?
    ensures SelectFrom(urls, selector, parse, attempt) == SelectFrom(urls, selector, parse, attempt + 1)
  {
  }

  /** `geminiSelectMostLikelyCandidate`: the prompt lists the candidates' cleaned image
      references `urls`, and attempt `a` (1, 2, 3) receives `selector(urls, a)`. It returns
      the first attempt's `selectedUrl`, and null after three failed attempts; it always makes
      at least one and at most three requests. */
  method GeminiSelectMostLikelyCandidate(urls: seq<Option<string>>,
                                         selector: (seq<Option<string>>, nat) -> Option<string>,
                                         parse: string -> Option<Json>)
    returns (r: Selection, attempts: nat)
    ensures r == SelectFrom(urls, selector, parse, 1)
    ensures 1 <= attempts <= SelectAttempts
    ensures forall a | 1 <= a < attempts :: SelectAttempt(selector(urls, a), parse).None?
    ensures r.Selected? ==> SelectAttempt(selector(urls, attempts), parse) == Some(r.url)
    ensures r.Exhausted? <==> forall a | 1 <= a <= SelectAttempts :: SelectAttempt(selector(urls, a), parse).None?
    ensures r.Exhausted? ==> attempts == SelectAttempts
  {
    var attempt := 1;
    while attempt <= SelectAttempts
      invariant 1 <= attempt <= SelectAttempts + 1
      invariant forall a | 1 <= a < attempt :: SelectAttempt(selector(urls, a), parse).None?
      invariant SelectFrom(urls, selector, parse, attempt) == SelectFrom(urls, selector, parse, 1)
    {
      var outcome := SelectAttempt(selector(urls, attempt), parse);
      if outcome.Some? {
        assert SelectFrom(urls, selector, parse, attempt) == Selected(outcome.value);
        assert !AllFailFrom(urls, selector, parse, 1);
        return Selected(outcome.value), attempt;
      }
      SelectFromNext(urls, selector, parse, attempt);
      assert forall a | 1 <= a < attempt + 1 :: SelectAttempt(selector(urls, a), parse).None? by {
        forall a | 1 <= a < attempt + 1 ensures SelectAttempt(selector(urls, a), parse).None? {
          if a == attempt { assert outcome.None?; }
        }
      }
      attempt := attempt + 1;
    }
    assert AllFailFrom(urls, selector, parse, 1);
    return Exhausted, SelectAttempts;
  }
}
