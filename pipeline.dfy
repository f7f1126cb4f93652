/** `analyzeFullImage` (utils/analyzeUtils.js:306-331): extract the products shown in the
    image, then resolve each detected product against the catalog: similar names, refined
    by the model, deduplicated by image, confirmed by image comparison. The catalog sheet
    is given as its rows; the model calls and `JSON.parse` are oracles. */
module Pipeline {
  import opened Wrappers
  import opened Errors
  import opened Seqs
  import opened Json
  import opened Catalog
  import opened Dedup
  import opened Replies
  import opened Refine
  import opened Matching

  /** The external calls, each keyed by what its prompt depends on. */
  datatype Oracles = Oracles(
    parse: string -> Option<Json>,                            // JSON.parse; None when it throws
    similarity: (string, string) -> real,                     // the rating of findBestMatch
    extractor: nat -> Option<string>,                         // extraction attempt -> reply text
    refiner: (string, seq<string>) -> Option<string>,         // product name, candidate names -> reply
    verifier: Option<string> -> Option<string>,               // cleaned image reference -> reply
    selector: (seq<Option<string>>, nat) -> Option<string>)   // cleaned references, attempt -> reply

  /** `findRoughlySimilarProducts(names.한글, data)` uses its default `topN`. */
  const SimilarTopN: nat := 30
  /** `extractProductNamesFromImage` uses the default `maxRetries`. */
  const ExtractRetries := 3
  const KoreanName := "한글"

  /** One element of the `results` array: `inputName` and `match` (the matched row or null). */
  datatype Resolution = Resolution(inputName: Json, matchedRow: Option<Row>)

  /** `Object.entries(productMap)`, keeping the values (the keys are never used). An object
      yields one value per distinct key, in the order the reply first lists the keys; an
      array its elements; a string one single-character string per character; a number or
      a boolean nothing; null makes `Object.entries` throw. */
  function Entries(productMap: Json): (r: Result<seq<Json>, Error>)
    ensures r.Failure? <==> productMap.JNull?
    ensures r.Failure? ==> r.error == ProductMapNull
    ensures productMap.JArr? ==> r == Success(productMap.elems)
    ensures productMap.JObj? ==> (r.Success? && |r.value| == |OwnKeys(productMap.members)|
      && forall i | 0 <= i < |r.value| :: Property(productMap, OwnKeys(productMap.members)[i]) == Found(r.value[i]))
    ensures productMap.JStr? ==> (r.Success? && |r.value| == |productMap.s|
      && forall i | 0 <= i < |r.value| :: r.value[i] == JStr([productMap.s[i]]))
    ensures productMap.JNum? || productMap.JBool? ==> r == Success([])
  {
    match productMap
    case JNull => Failure(ProductMapNull)
    case JBool(_) => Success([])
    case JNum(_) => Success([])
    case JStr(s) => Success(seq(|s|, i requires 0 <= i < |s| => JStr([s[i]])))
    case JArr(elems) => Success(elems)
    case JObj(members) => Success(OwnValues(members))
  }

  /** `names.한글` as the first argument of `findBestMatch`: reading it from null throws, and
      anything but a string makes `findBestMatch` throw. */
  function LocalName(names: Json): (r: Result<string, Error>)
    ensures r.Success? ==> names.JObj? && LastValueIs(names.members, KoreanName, JStr(r.value))
    ensures r.Failure? ==> forall s :: !(names.JObj? && LastValueIs(names.members, KoreanName, JStr(s)))
    ensures r.Failure? ==> (r.error == ProductEntryNull <==> names.JNull?)
    ensures r.Failure? ==> r.error in {ProductEntryNull, SimilarityBadArguments}
  {
    match Property(names, KoreanName)
    case TypeError => Failure(ProductEntryNull)
    case Found(JStr(s)) => Success(s)
    case _ => Failure(SimilarityBadArguments)
  }

  /** The body of the per-detection callback, stage by stage. */
  function ResolveSpec(names: Json, data: seq<Row>, o: Oracles): (r: Result<Resolution, Error>)
    ensures r.Success? ==> r.value.inputName == names
    ensures names.JNull? ==> r == Failure(ProductEntryNull)
    ensures r.Failure? ==> r.error !in {ExtractionExhausted, ExtractionUndefined, ProductMapNull}
  {
    match LocalName(names)
    case Failure(e) => Failure(e)
    case Success(q) =>
      match SimilarProducts(q, data, SimilarTopN, o.similarity)
      case Failure(e) => Failure(e)
      case Success(candidates) =>
        match RefineWithGemini(q, candidates, o.refiner, o.parse)
        case Failure(e) => Failure(e)
        case Success(refinedNames) =>
          match RefineFilter(candidates, refinedNames)
          case Failure(e) => Failure(e)
          case Success(refined) =>
            match ExactMatch(Dedup.Dedup(refined), o.verifier, o.selector, o.parse)
            case Failure(e) => Failure(e)
            case Success(finalMatch) =>
              Success(Resolution(names, if finalMatch.Some? then Some(finalMatch.value.matched) else None))
  }

  /** The asynchronous callback that resolves one detection: its key is ignored and its
      value holds the detected names. */
  method ResolveDetection(names: Json, data: seq<Row>, o: Oracles) returns (r: Result<Resolution, Error>)
    ensures r == ResolveSpec(names, data, o)
    ensures r.Success? ==> r.value.inputName == names
  {
    var localName := LocalName(names);
    if localName.Failure? {
      return Failure(localName.error);
    }
    var q := localName.value;
    var candidates := FindRoughlySimilarProducts(q, data, SimilarTopN, o.similarity);
    if candidates.Failure? {
      return Failure(candidates.error);
    }
    var refinedNames := RefineWithGemini(q, candidates.value, o.refiner, o.parse);
    if refinedNames.Failure? {
      return Failure(refinedNames.error);
    }
    var refinedCandidates := RefineFilter(candidates.value, refinedNames.value);
    if refinedCandidates.Failure? {
      return Failure(refinedCandidates.error);
    }
    var uniqueCandidates := DeduplicateByImageUrl(refinedCandidates.value);
    var finalMatch, _, _ := CompareImagesToFindExactMatch(uniqueCandidates, o.verifier, o.selector, o.parse);
    if finalMatch.Failure? {
      return Failure(finalMatch.error);
    }
    var m := if finalMatch.value.Some? then Some(finalMatch.value.value.matched) else None;
    return Success(Resolution(names, m));
  }

  /** A matched row is a catalog row with a name and an image reference, and it is the last
      catalog row carrying its name; it came through every stage of the resolution. */
  lemma MatchedRowIsCatalogRow(names: Json, data: seq<Row>, o: Oracles)
    requires ResolveSpec(names, data, o).Success?
    requires ResolveSpec(names, data, o).value.matchedRow.Some?
    ensures var row := ResolveSpec(names, data, o).value.matchedRow.value;
      && row.prdlstNm.Some? && LastNamed(data, row.prdlstNm.value).Some?
      && data[LastNamed(data, row.prdlstNm.value).value] == row
      && Present(row.prdlstNm) && Present(row.imgurl1)
  {
    var q := LocalName(names).value;
    var candidates := SimilarProducts(q, data, SimilarTopN, o.similarity).value;
    var refinedNames := RefineWithGemini(q, candidates, o.refiner, o.parse).value;
    var refined := RefineFilter(candidates, refinedNames).value;
    var unique := Dedup.Dedup(refined);
    var m := ExactMatch(unique, o.verifier, o.selector, o.parse).value.value;
    MatchIsCleanedRow(unique, o.verifier, o.selector, o.parse);
    var c :| c in unique && c.row == m.matched;
    DedupSpec(refined);
    SubseqMembers(unique, refined);
    SubseqMembers(refined, candidates);
    SimilarProductsSpec(q, data, SimilarTopN, o.similarity);
    assert c in candidates;
  }

  /** `Promise.all` over settled outcomes, sequentialised: all values in order when every
      outcome succeeded, otherwise the first failure in order. */
  function All<T, E>(outcomes: seq<Result<T, E>>): (r: Result<seq<T>, E>)
    ensures r.Success? <==> forall i | 0 <= i < |outcomes| :: outcomes[i].Success?
    ensures r.Success? ==> (|r.value| == |outcomes|
      && forall i | 0 <= i < |outcomes| :: r.value[i] == outcomes[i].value)
    ensures r.Failure? ==> exists i | 0 <= i < |outcomes| :: (outcomes[i] == Failure(r.error)
      && forall j | 0 <= j < i :: outcomes[j].Success?)
  {
    if outcomes == [] then Success([])
    else
      match outcomes[0]
      case Failure(e) => Failure(e)
      case Success(first) =>
        match All(outcomes[1..])
        case Failure(e) =>
          assert forall j | 1 <= j < |outcomes| :: outcomes[j] == outcomes[1..][j - 1];
          Failure(e)
        case Success(rest) => Success([first] + rest)
  }

  /** The outcome of every detection's callback. */
  function Outcomes(entries: seq<Json>, data: seq<Row>, o: Oracles): (rs: seq<Result<Resolution, Error>>)
    ensures |rs| == |entries|
  {
    if entries == [] then [] else [ResolveSpec(entries[0], data, o)] + Outcomes(entries[1..], data, o)
  }

  lemma {:induction false} OutcomesAt(entries: seq<Json>, data: seq<Row>, o: Oracles, i: nat)
    requires i < |entries|
    ensures Outcomes(entries, data, o)[i] == ResolveSpec(entries[i], data, o)
  {
    if i > 0 {
      OutcomesAt(entries[1..], data, o, i - 1);
    }
  }

  /** A successful run has one result per detection, in order, each carrying the detected
      names it was computed for. */
  lemma ResultsFollowDetections(entries: seq<Json>, data: seq<Row>, o: Oracles)
    requires All(Outcomes(entries, data, o)).Success?
    ensures var results := All(Outcomes(entries, data, o)).value;
      |results| == |entries| && forall i | 0 <= i < |entries| :: results[i].inputName == entries[i]
  {
    var results := All(Outcomes(entries, data, o)).value;
    forall i | 0 <= i < |entries| ensures results[i].inputName == entries[i] {
      OutcomesAt(entries, data, o, i);
    }
  }

  /** What `analyzeFullImage` produces: the extraction with three attempts, then one
      resolution per entry of the extracted product map. */
  function AnalyzeSpec(data: seq<Row>, o: Oracles): (r: Result<seq<Resolution>, Error>)
    ensures r != Failure(ExtractionUndefined)
    ensures r == Failure(ExtractionExhausted) <==>
      forall a | 0 <= a < ExtractRetries :: ExtractAttempt(o.extractor(a), o.parse).None?
    ensures r == Failure(ProductMapNull) <==> ExtractFrom(ExtractRetries, o.extractor, o.parse, 0) == Parsed(JNull)
    ensures r.Success? ==> (Detected(o).Some? && |r.value| == |Detected(o).value|
      && forall i | 0 <= i < |r.value| :: r.value[i].inputName == Detected(o).value[i])
  {
    match ExtractFrom(ExtractRetries, o.extractor, o.parse, 0)
    case RetriesExceeded => Failure(ExtractionExhausted)
    case NoAttempt => Failure(ExtractionUndefined)
    case Parsed(productMap) =>
      match Entries(productMap)
      case Failure(e) => Failure(e)
      case Success(entries) =>
        var r := All(Outcomes(entries, data, o));
        if r.Success? then
          ResultsFollowDetections(entries, data, o);
          r
        else
          var i :| 0 <= i < |entries| && Outcomes(entries, data, o)[i] == Failure(r.error);
          OutcomesAt(entries, data, o, i);
          r
  }

  /** The entries of the extracted product map, when the extraction and `Object.entries`
      both succeed. */
  function Detected(o: Oracles): Option<seq<Json>> {
    match ExtractFrom(ExtractRetries, o.extractor, o.parse, 0)
    case Parsed(productMap) =>
      (match Entries(productMap)
       case Success(entries) => Some(entries)
       case Failure(_) => None)
    case _ => None
  }

  /** The step that runs the callback on every entry of the product map and waits for all
      of them with `Promise.all`, modelled one detection after the other. */
  method ResolveDetections(entries: seq<Json>, data: seq<Row>, o: Oracles)
    returns (r: Result<seq<Resolution>, Error>)
    ensures r == All(Outcomes(entries, data, o))
  {
    ghost var outcomes := Outcomes(entries, data, o);
    var results: seq<Resolution> := [];
    for i := 0 to |entries|
      invariant |results| == i
      invariant forall j | 0 <= j < i :: outcomes[j].Success? && results[j] == outcomes[j].value
    {
      var res := ResolveDetection(entries[i], data, o);
      OutcomesAt(entries, data, o, i);
      if res.Failure? {
        AllStopsAtFirstFailure(outcomes, i);
        return Failure(res.error);
      }
      ValuesExtend(outcomes, results, res.value);
      results := results + [res.value];
    }
    AllSucceeds(outcomes, results);
    return Success(results);
  }

  /** The values of the first `|values|` outcomes, extended by the next successful one. */
  lemma ValuesExtend<T, E>(outcomes: seq<Result<T, E>>, values: seq<T>, v: T)
    requires |values| < |outcomes| && outcomes[|values|] == Success(v)
    requires forall j | 0 <= j < |values| :: outcomes[j].Success? && values[j] == outcomes[j].value
    ensures forall j | 0 <= j < |values| + 1 :: outcomes[j].Success? && (values + [v])[j] == outcomes[j].value
  {
  }

  lemma AllStopsAtFirstFailure<T, E>(outcomes: seq<Result<T, E>>, i: nat)
    requires i < |outcomes| && outcomes[i].Failure?
    requires forall j | 0 <= j < i :: outcomes[j].Success?
    ensures All(outcomes) == Failure(outcomes[i].error)
  {
    var r := All(outcomes);
    var k :| 0 <= k < |outcomes| && outcomes[k] == Failure(r.error) && forall j | 0 <= j < k :: outcomes[j].Success?;
    assert k == i;
  }

  lemma AllSucceeds<T, E>(outcomes: seq<Result<T, E>>, values: seq<T>)
    requires |values| == |outcomes|
    requires forall j | 0 <= j < |outcomes| :: outcomes[j].Success? && values[j] == outcomes[j].value
    ensures All(outcomes) == Success(values)
  {
    var r := All(outcomes);
    assert r.Success?;
    assert r.value == values;
  }

  /** `analyzeFullImage(imagePath, excelPath)` with the sheet already read into `data`:
      one result per detected product, in the order of the extraction reply, each pairing
      the detected names with the matched catalog row or null. */
  method AnalyzeFullImage(data: seq<Row>, o: Oracles)
    returns (r: Result<seq<Resolution>, Error>)
    ensures r == AnalyzeSpec(data, o)
  {
    var productMap, _ := AnalyzeImageWithGemini(ExtractRetries, o.extractor, o.parse);
    if productMap.RetriesExceeded? {
      return Failure(ExtractionExhausted);
    }
    if productMap.NoAttempt? {
      return Failure(ExtractionUndefined);
    }
    var entries := Entries(productMap.value);
    if entries.Failure? {
      return Failure(entries.error);
    }
    r := ResolveDetections(entries.value, data, o);
  }
}
