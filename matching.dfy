/** `compareImagesToFindExactMatch` (utils/analyzeUtils.js:268-303): ask the verifier about
    each candidate's cleaned image reference in turn and stop at the first "same product";
    when every candidate is rejected, fall back to the selector and look its answer up among
    the candidates. A verifier request that throws (reading either image or calling the
    model) is not caught and aborts the comparison. */
module Matching {
  import opened Wrappers
  import opened Errors
  import opened Json
  import opened Catalog
  import opened Dedup
  import opened Seqs
  import opened Replies

  datatype Match = Match(matched: Row, imageUrl: Option<string>)

  /** The cleaned image references of the candidates, as listed in the selector's prompt
      (`KeysAt` gives each element). */
  function Keys(cands: seq<Candidate>): (urls: seq<Option<string>>)
    ensures |urls| == |cands|
  {
    if cands == [] then [] else [Key(cands[0])] + Keys(cands[1..])
  }

  lemma {:induction false} KeysAt(cands: seq<Candidate>, i: nat)
    requires i < |cands|
    ensures Keys(cands)[i] == Key(cands[i])
  {
    if i > 0 {
      KeysAt(cands[1..], i - 1);
    }
  }

  /** `isSameProductImage(baseImagePath, url)`: None when a request threw, otherwise the
      decoded verdict of the reply. */
  function Verdict(url: Option<string>, verifier: Option<string> -> Option<string>, parse: string -> Option<Json>)
    : (v: Option<bool>)
    ensures v.None? <==> verifier(url).None?
    ensures v == Some(true) <==> verifier(url).Some? && IsSameProduct(verifier(url).value, parse)
  {
    match verifier(url)
    case None => None
    case Some(reply) => Some(IsSameProduct(reply, parse))
  }

  /** The verdicts `tryMatch` would obtain, one per cleaned reference (`VerdictsAt` gives
      each element). */
  function Verdicts(urls: seq<Option<string>>, verifier: Option<string> -> Option<string>,
                    parse: string -> Option<Json>): (vs: seq<Option<bool>>)
    ensures |vs| == |urls|
  {
    if urls == [] then [] else [Verdict(urls[0], verifier, parse)] + Verdicts(urls[1..], verifier, parse)
  }

  lemma {:induction false} VerdictsAt(urls: seq<Option<string>>, verifier: Option<string> -> Option<string>,
                                      parse: string -> Option<Json>, i: nat)
    requires i < |urls|
    ensures Verdicts(urls, verifier, parse)[i] == Verdict(urls[i], verifier, parse)
  {
    if i > 0 {
      VerdictsAt(urls[1..], verifier, parse, i - 1);
    }
  }

  /** How far `tryMatch` gets: the index of the first verdict that is not "different
      product" (the length when there is none). */
  function FirstDecided(vs: seq<Option<bool>>): (k: nat)
    ensures k <= |vs|
    ensures forall j | 0 <= j < k :: vs[j] == Some(false)
    ensures k < |vs| ==> vs[k] != Some(false)
  {
    if vs == [] then 0
    else if vs[0] != Some(false) then 0
    else 1 + FirstDecided(vs[1..])
  }

  /** The first verdict that is not "different product" is where `tryMatch` stops. */
  lemma {:induction false} FirstDecidedAt(vs: seq<Option<bool>>, i: nat)
    requires i < |vs| && vs[i] != Some(false)
    requires forall j | 0 <= j < i :: vs[j] == Some(false)
    ensures FirstDecided(vs) == i
  {
    if i > 0 {
      FirstDecidedAt(vs[1..], i - 1);
    }
  }

  /** The fallback: a truthy `selectedUrl` is compared with `===` against each candidate's
      cleaned image reference `urls[i]`, so only a non-empty string can pick a candidate,
      and it picks the first one with that reference (`candidates.find`). Anything else
      leaves the result null. */
  function ResolveSelection(cands: seq<Candidate>, urls: seq<Option<string>>, sel: Selection): (r: Option<Match>)
    requires |urls| == |cands|
    ensures r.Some? <==> (sel.Selected? && sel.url.Some? && sel.url.value.JStr? && sel.url.value.s != []
      && Some(sel.url.value.s) in urls)
    ensures r.Some? ==> (r.value.imageUrl == Some(sel.url.value.s)
      && exists i | 0 <= i < |cands| :: (cands[i].row == r.value.matched && urls[i] == r.value.imageUrl
        && forall j | 0 <= j < i :: urls[j] != r.value.imageUrl))
  {
    if sel.Selected? && sel.url.Some? && Truthy(sel.url.value) && sel.url.value.JStr? then
      match FirstIndex(urls, Some(sel.url.value.s))
      case None => None
      case Some(i) => Some(Match(cands[i].row, Some(sel.url.value.s)))
    else None
  }

  /** How `compareImagesToFindExactMatch` settles, given the candidates, their cleaned
      references, the verdicts `tryMatch` obtains and the selector's answer. The first
      candidate the verifier calls the same product wins, with its cleaned reference; a
      verifier request that throws before that aborts; when every candidate was rejected
      the selector decides, and null remains when its answer is unusable. */
  function Settle(cands: seq<Candidate>, urls: seq<Option<string>>, vs: seq<Option<bool>>, sel: Selection)
    : (r: Result<Option<Match>, Error>)
    requires |urls| == |cands| && |vs| == |cands|
    ensures r.Failure? <==> exists i | 0 <= i < |vs| :: (vs[i].None? && forall j | 0 <= j < i :: vs[j] == Some(false))
    ensures r.Failure? ==> r.error == VerifierCallFailed
    ensures forall i | 0 <= i < |vs| && vs[i] == Some(true) && (forall j | 0 <= j < i :: vs[j] == Some(false)) ::
      r == Success(Some(Match(cands[i].row, urls[i])))
    ensures (forall i | 0 <= i < |vs| :: vs[i] == Some(false)) ==> r == Success(ResolveSelection(cands, urls, sel))
    ensures r.Success? && r.value.Some? ==>
      exists i | 0 <= i < |cands| :: cands[i].row == r.value.value.matched && urls[i] == r.value.value.imageUrl
  {
    var k := FirstDecided(vs);
    if k < |vs| then
      match vs[k]
      case None => Failure(VerifierCallFailed)
      case Some(_) => Success(Some(Match(cands[k].row, urls[k])))
    else
      Success(ResolveSelection(cands, urls, sel))
  }

  /** Once a verdict decides, the selector plays no part. */
  lemma SettleDecided(cands: seq<Candidate>, urls: seq<Option<string>>, vs: seq<Option<bool>>, s1: Selection, s2: Selection)
    requires |urls| == |cands| && |vs| == |cands| && FirstDecided(vs) < |vs|
    ensures Settle(cands, urls, vs, s1) == Settle(cands, urls, vs, s2)
  {
  }

  lemma SettleUndecided(cands: seq<Candidate>, urls: seq<Option<string>>, vs: seq<Option<bool>>, sel: Selection)
    requires |urls| == |cands| && |vs| == |cands| && FirstDecided(vs) == |vs|
    ensures Settle(cands, urls, vs, sel) == Success(ResolveSelection(cands, urls, sel))
  {
  }

  /** `compareImagesToFindExactMatch` with the verifier and the selector as oracles. */
  function ExactMatch(cands: seq<Candidate>, verifier: Option<string> -> Option<string>,
                      selector: (seq<Option<string>>, nat) -> Option<string>,
                      parse: string -> Option<Json>): (r: Result<Option<Match>, Error>)
    ensures r.Failure? ==> r.error == VerifierCallFailed
    ensures r.Success? && r.value.Some? ==> exists c | c in cands :: c.row == r.value.value.matched
  {
    var urls := Keys(cands);
    var r := Settle(cands, urls, Verdicts(urls, verifier, parse), SelectFrom(urls, selector, parse, 1));
    if r.Success? && r.value.Some? then
      var i :| 0 <= i < |cands| && cands[i].row == r.value.value.matched && urls[i] == r.value.value.imageUrl;
      assert cands[i] in cands;
      r
    else r
  }

  /** Any match pairs a candidate's row with the cleaned form of that row's own image
      reference. */
  lemma MatchIsCleanedRow(cands: seq<Candidate>, verifier: Option<string> -> Option<string>,
                          selector: (seq<Option<string>>, nat) -> Option<string>, parse: string -> Option<Json>)
    requires ExactMatch(cands, verifier, selector, parse).Success?
    requires ExactMatch(cands, verifier, selector, parse).value.Some?
    ensures var m := ExactMatch(cands, verifier, selector, parse).value.value;
      m.imageUrl == Url.CleanUrl(m.matched.imgurl1) && exists c | c in cands :: c.row == m.matched
  {
    var m := ExactMatch(cands, verifier, selector, parse).value.value;
    var i :| 0 <= i < |cands| && cands[i].row == m.matched && Keys(cands)[i] == m.imageUrl;
    KeysAt(cands, i);
    assert cands[i] in cands;
  }

  /** The inner `tryMatch`: ask about each cleaned reference in turn and stop at the first
      "same product"; null when every candidate was rejected. `probed` counts the requests. */
  method TryMatch(cands: seq<Candidate>, urls: seq<Option<string>>,
                  verifier: Option<string> -> Option<string>, parse: string -> Option<Json>)
    returns (r: Result<Option<Match>, Error>, probed: nat)
    requires |urls| == |cands|
    ensures var vs := Verdicts(urls, verifier, parse); var k := FirstDecided(vs);
      && (k < |vs| ==> r == Settle(cands, urls, vs, Exhausted))
      && (k == |vs| <==> r == Success(None))
      && probed == (if k < |vs| then k + 1 else |vs|)
  {
    ghost var vs := Verdicts(urls, verifier, parse);
    for i := 0 to |cands|
      invariant forall j | 0 <= j < i :: vs[j] == Some(false)
    {
      var fixedUrl := urls[i];
      var reply := verifier(fixedUrl);
      VerdictsAt(urls, verifier, parse, i);
      if reply.None? {
        FirstDecidedAt(vs, i);
        return Failure(VerifierCallFailed), i + 1;
      }
      var isSame := IsSameProduct(reply.value, parse);
      if isSame {
        FirstDecidedAt(vs, i);
        return Success(Some(Match(cands[i].row, fixedUrl))), i + 1;
      }
    }
    return Success(None), |cands|;
  }

  /** `compareImagesToFindExactMatch(baseImagePath, candidates)`. `probed` counts the
      verification requests and `selectorCalled` says whether the fallback ran: it runs
      exactly when every candidate was rejected, an empty candidate list included. */
  method CompareImagesToFindExactMatch(cands: seq<Candidate>, verifier: Option<string> -> Option<string>,
                                       selector: (seq<Option<string>>, nat) -> Option<string>,
                                       parse: string -> Option<Json>)
    returns (r: Result<Option<Match>, Error>, probed: nat, selectorCalled: bool)
    ensures r == ExactMatch(cands, verifier, selector, parse)
    ensures var k := FirstDecided(Verdicts(Keys(cands), verifier, parse));
      probed == (if k < |cands| then k + 1 else |cands|) && (selectorCalled <==> k == |cands|)
  {
    var urls := Keys(cands);
    ghost var vs := Verdicts(urls, verifier, parse);
    ghost var sel := SelectFrom(urls, selector, parse, 1);
    var result;
    result, probed := TryMatch(cands, urls, verifier, parse);
    if result != Success(None) {
      SettleDecided(cands, urls, vs, Exhausted, sel);
      return result, probed, false;
    }
    // every candidate was rejected: the fallback
    var selected, _ := GeminiSelectMostLikelyCandidate(urls, selector, parse);
    SettleUndecided(cands, urls, vs, sel);
    return Success(ResolveSelection(cands, urls, selected)), probed, true;
  }
}
