/** `deduplicateByImageUrl` (utils/analyzeUtils.js:31-39): keep the first candidate of each
    canonical image reference, with `cleanUrl` of the candidate's image reference as the key. */
module Dedup {
  import opened Wrappers
  import opened Seqs
  import opened Firsts
  import opened Catalog
  import opened Url

  /** The deduplication key: `cleanUrl(c.row.imgurl1)`. A null key is a key like any other. */
  function Key(c: Candidate): Option<string> {
    CleanUrl(c.row.imgurl1)
  }

  /** `deduplicateByImageUrl(candidates)`: the candidates that are the first of their key,
      in input order. */
  function Dedup(cs: seq<Candidate>): (r: seq<Candidate>)
    ensures r == FirstOccurrences(cs, Key, |cs|)
  {
    DedupFromIsFirstOccurrences(cs, Key);
    DedupFrom(cs, Key, {})
  }

  /** The result is a subsequence of the input in which no two candidates share a key, and
      the first candidate of every key survives: exactly the first occurrences remain, and
      every key of the input is still represented. */
  lemma DedupSpec(cs: seq<Candidate>)
    ensures Subseq(Dedup(cs), cs)
    ensures DistinctKeys(Dedup(cs), Key)
    ensures forall i | 0 <= i < |cs| && FirstOfKey(cs, Key, i) :: cs[i] in Dedup(cs)
    ensures forall c | c in cs :: exists d | d in Dedup(cs) :: Key(d) == Key(c)
  {
    DedupFromSubseq(cs, Key, {});
    DedupFromDistinct(cs, Key, {});
    DedupFromKeepsFirst(cs, Key, {});
    forall c | c in cs ensures exists d | d in Dedup(cs) :: Key(d) == Key(c) {
      var i :| 0 <= i < |cs| && cs[i] == c;
      var f := FirstIndexOf(cs, Key, i);
      assert cs[f] in Dedup(cs);
    }
  }

  /** Deduplicating twice is deduplicating once. */
  lemma DedupIdempotent(cs: seq<Candidate>)
    ensures Dedup(Dedup(cs)) == Dedup(cs)
  {
    DedupFromDistinct(cs, Key, {});
    DedupFromOfDistinct(Dedup(cs), Key, {});
  }

  /** `candidates.filter(...)` with the `seen` Set it updates on every kept candidate. */
  method DeduplicateByImageUrl(cs: seq<Candidate>) returns (r: seq<Candidate>)
    ensures r == Dedup(cs)
  {
    var seen: set<Option<string>> := {};
    r := [];
    for i := 0 to |cs|
      invariant r + DedupFrom(cs[i..], Key, seen) == Dedup(cs)
    {
      assert cs[i..][1..] == cs[i + 1..];
      var url := Key(cs[i]);
      if url !in seen {
        seen := seen + {url};
        r := r + [cs[i]];
      }
    }
  }
}
