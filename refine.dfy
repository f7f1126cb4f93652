/** `refineWithGemini` (utils/analyzeUtils.js:249-266) and the filter that applies its reply
    to the candidates (utils/analyzeUtils.js:316). The model call is an oracle keyed by the
    product name and the candidate names that make up the prompt. */
module Refine {
  import opened Wrappers
  import opened Errors
  import opened Seqs
  import opened Text
  import opened Json
  import opened Catalog
  import opened Replies

  /** The candidate names listed in the prompt, in candidate order. */
  function Targets(cands: seq<Candidate>): (ts: seq<string>)
    ensures |ts| == |cands|
    ensures forall i | 0 <= i < |cands| :: ts[i] == cands[i].target
  {
    seq(|cands|, i requires 0 <= i < |cands| => cands[i].target)
  }

  /** `refineWithGemini(productName, candidates)`: a single request, no retry. A request that
      throws or a reply that `JSON.parse` rejects makes the call throw; otherwise the parsed
      reply is returned whatever its shape. */
  function RefineWithGemini(productName: string, cands: seq<Candidate>,
                            refiner: (string, seq<string>) -> Option<string>,
                            parse: string -> Option<Json>): (r: Result<Json, Error>)
    ensures refiner(productName, Targets(cands)).None? <==> r == Failure(RefinerCallFailed)
    ensures r == Failure(RefinerReplyNotJson) <==>
      refiner(productName, Targets(cands)).Some? &&
      JsonParse(parse, Unfence(refiner(productName, Targets(cands)).value)).None?
    ensures r.Success? ==>
      JsonParse(parse, Unfence(refiner(productName, Targets(cands)).value)) == Some(r.value)
  {
    match refiner(productName, Targets(cands))
    case None => Failure(RefinerCallFailed)
    case Some(reply) =>
      match JsonParse(parse, Unfence(reply))
      case None => Failure(RefinerReplyNotJson)
      case Some(refined) => Success(refined)
  }

  /** `refinedNames.includes(target)`: membership of an equal string for an array reply,
      substring search for a string reply, and a TypeError (None) for any other JSON value,
      which has no `includes` method. */
  function Includes(refined: Json, target: string): (r: Option<bool>)
    ensures r.Some? <==> refined.JArr? || refined.JStr?
    ensures refined.JArr? ==> (r == Some(true) <==> JStr(target) in refined.elems)
    ensures refined.JStr? ==> (r == Some(true) <==> exists k: nat :: OccursAt(refined.s, target, k))
  {
    match refined
    case JArr(elems) => Some(JStr(target) in elems)
    case JStr(s) => Some(Contains(s, target))
    case _ => None
  }

  /** `candidates.filter(c => refinedNames.includes(c.target))`. The filter keeps, in order,
      exactly the candidates the reply mentions; it throws on the first candidate when the
      reply is neither an array nor a string, so an empty candidate list never throws. */
  function RefineFilter(cands: seq<Candidate>, refined: Json): (r: Result<seq<Candidate>, Error>)
    ensures r.Failure? <==> cands != [] && !(refined.JArr? || refined.JStr?)
    ensures r.Failure? ==> r.error == RefinerReplyNotSearchable
    ensures r.Success? ==> Subseq(r.value, cands)
    ensures r.Success? ==> forall c | c in r.value :: Includes(refined, c.target) == Some(true)
    ensures r.Success? ==> forall c | c in cands && Includes(refined, c.target) == Some(true) :: c in r.value
  {
    if cands == [] then Success([])
    else
      match Includes(refined, cands[0].target)
      case None => Failure(RefinerReplyNotSearchable)
      case Some(keep) =>
        match RefineFilter(cands[1..], refined)
        case Failure(e) => Failure(e)
        case Success(rest) =>
          SubseqOfTail(rest, cands);
          if keep then
            assert forall c | c in cands :: c == cands[0] || c in cands[1..];
            Success([cands[0]] + rest)
          else
            assert forall c | c in cands && c != cands[0] :: c in cands[1..];
            Success(rest)
  }

  /** Whether the filter keeps a candidate. */
  function Kept(refined: Json): Candidate -> bool {
    (c: Candidate) => Includes(refined, c.target) == Some(true)
  }

  /** A successful filter is `Array.prototype.filter` with the reply's `includes`. */
  lemma {:induction false} RefineFilterIsFilter(cands: seq<Candidate>, refined: Json)
    requires RefineFilter(cands, refined).Success?
    ensures RefineFilter(cands, refined).value == Filter(cands, Kept(refined))
  {
    if cands != [] {
      RefineFilterIsFilter(cands[1..], refined);
    }
  }

  /** The kept candidates are exactly the included ones, position by position: candidate `k`
      is the one at position `pos[k]`, the positions increase, and every included position
      is taken, so a candidate listed twice is kept twice. */
  lemma RefineFilterInOrder(cands: seq<Candidate>, refined: Json) returns (pos: seq<nat>)
    requires RefineFilter(cands, refined).Success?
    ensures |pos| == |RefineFilter(cands, refined).value|
    ensures forall k | 0 <= k < |pos| :: (pos[k] < |cands| && Includes(refined, cands[pos[k]].target) == Some(true)
      && RefineFilter(cands, refined).value[k] == cands[pos[k]])
    ensures Increasing(pos)
    ensures forall i | 0 <= i < |cands| && Includes(refined, cands[i].target) == Some(true) :: i in pos
  {
    RefineFilterIsFilter(cands, refined);
    pos := FilterPositions(cands, Kept(refined));
  }
}
