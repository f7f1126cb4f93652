/** The catalog index and `findRoughlySimilarProducts` (utils/analyzeUtils.js:224-246):
    lexical candidate generation against the catalog. */
module Catalog {
  import opened Wrappers
  import opened Errors
  import opened Seqs

  /** One catalog row: the two columns the pipeline reads (product name, image reference). */
  datatype Row = Row(prdlstNm: Option<string>, imgurl1: Option<string>)

  /** One entry of `findBestMatch(...).ratings`. */
  datatype Rating = Rating(target: string, rating: real)

  /** A rating with its catalog row attached (`{ ...match, row }`). */
  datatype Candidate = Candidate(target: string, rating: real, row: Row) {
    function AsRating(): Rating { Rating(target, rating) }
  }

  /** JavaScript truthiness of a string cell that may be absent. */
  predicate Present(cell: Option<string>) {
    cell.Some? && cell.value != ""
  }

  /** The position of the last row named `n`, if any row is (a row with an empty name
      counts as unnamed). */
  function LastNamed(data: seq<Row>, n: string): (r: Option<nat>)
    ensures r.Some? ==> r.value < |data| && data[r.value].prdlstNm == Some(n) && n != ""
    ensures r.Some? ==> forall j | r.value < j < |data| :: data[j].prdlstNm != Some(n)
    ensures r.None? ==> n == "" || forall j | 0 <= j < |data| :: data[j].prdlstNm != Some(n)
  {
    if data == [] then None
    else if n != "" && data[|data| - 1].prdlstNm == Some(n) then Some(|data| - 1)
    else LastNamed(data[..|data| - 1], n)
  }

  /** The `names` array built at lines 228-234: every present name, in catalog order,
      duplicates included. */
  function CatalogNames(data: seq<Row>): (names: seq<string>)
    ensures |names| <= |data|
    ensures forall n :: n in names <==> LastNamed(data, n).Some?
  {
    if data == [] then []
    else
      var row := data[|data| - 1];
      CatalogNames(data[..|data| - 1]) + (if Present(row.prdlstNm) then [row.prdlstNm.value] else [])
  }

  /** The names are listed in row order with duplicates: position `k` of the list holds the
      name of row `pos[k]`, the positions increase, and every named row is among them. */
  lemma {:induction false} CatalogNamesInRowOrder(data: seq<Row>) returns (pos: seq<nat>)
    ensures |pos| == |CatalogNames(data)|
    ensures forall k | 0 <= k < |pos| :: pos[k] < |data| && data[pos[k]].prdlstNm == Some(CatalogNames(data)[k])
    ensures forall k, l | 0 <= k < l < |pos| :: pos[k] < pos[l]
    ensures forall i | 0 <= i < |data| && Present(data[i].prdlstNm) :: i in pos
  {
    if data == [] {
      pos := [];
    } else {
      var init := data[..|data| - 1];
      var row := data[|data| - 1];
      var prev := CatalogNamesInRowOrder(init);
      assert forall i | 0 <= i < |init| :: init[i] == data[i];
      pos := prev + (if Present(row.prdlstNm) then [|data| - 1] else []);
      assert forall k | 0 <= k < |prev| :: pos[k] == prev[k];
    }
  }

  /** The `nameToRowMap` built at lines 228-234: later rows overwrite earlier ones, so each
      name maps to the last row that carries it. */
  function CatalogIndex(data: seq<Row>): (m: map<string, Row>)
    ensures forall n :: n in m <==> LastNamed(data, n).Some?
    ensures forall n | n in m :: m[n] == data[LastNamed(data, n).value]
  {
    if data == [] then map[]
    else
      var row := data[|data| - 1];
      var m := CatalogIndex(data[..|data| - 1]);
      if Present(row.prdlstNm) then m[row.prdlstNm.value := row] else m
  }

  /** `stringSimilarity.findBestMatch(targetName, names).ratings`: one rating per name, in
      name order; the similarity measure itself is a parameter. */
  function Ratings(q: string, names: seq<string>, sim: (string, string) -> real): (rs: seq<Rating>)
    ensures |rs| == |names|
    ensures forall i | 0 <= i < |names| :: rs[i] == Rating(names[i], sim(q, names[i]))
  {
    seq(|names|, i requires 0 <= i < |names| => Rating(names[i], sim(q, names[i])))
  }

  predicate NonIncreasing(rs: seq<Rating>) {
    forall i, j | 0 <= i < j < |rs| :: rs[i].rating >= rs[j].rating
  }

  /** The entries rated exactly `v`, in order. */
  function WithRating(rs: seq<Rating>, v: real): seq<Rating> {
    if rs == [] then []
    else (if rs[0].rating == v then [rs[0]] else []) + WithRating(rs[1..], v)
  }

  /** Place `x` in front of the first entry it is not rated below. */
  function Insert(x: Rating, s: seq<Rating>): seq<Rating> {
    if s == [] || s[0].rating <= x.rating then [x] + s
    else [s[0]] + Insert(x, s[1..])
  }

  /** Inserting into a sorted list keeps it sorted and adds exactly `x`. */
  lemma {:induction false} InsertSorted(x: Rating, s: seq<Rating>)
    requires NonIncreasing(s)
    ensures NonIncreasing(Insert(x, s))
    ensures multiset(Insert(x, s)) == multiset(s) + multiset{x}
  {
    HeadIsMax(s);
    if s == [] || s[0].rating <= x.rating {
      ConsNonIncreasing(x, s);
    } else {
      var r' := Insert(x, s[1..]);
      assert NonIncreasing(s[1..]);
      InsertSorted(x, s[1..]);
      assert s == [s[0]] + s[1..];
      forall y | y in r' ensures y.rating <= s[0].rating {
        assert y in multiset(r');
      }
      ConsNonIncreasing(s[0], r');
    }
  }

  lemma HeadIsMax(s: seq<Rating>)
    requires NonIncreasing(s)
    ensures forall y | y in s :: y.rating <= s[0].rating
  {
  }

  lemma ConsNonIncreasing(h: Rating, t: seq<Rating>)
    requires NonIncreasing(t)
    requires forall y | y in t :: y.rating <= h.rating
    ensures NonIncreasing([h] + t)
  {
    var r := [h] + t;
    forall i, j | 0 <= i < j < |r| ensures r[i].rating >= r[j].rating {
      assert r[j] == t[j - 1];
      if i > 0 {
        assert r[i] == t[i - 1];
      }
    }
  }

  /** `ratings.sort((a, b) => b.rating - a.rating)`: a stable sort, best rating first
      (ECMAScript requires `Array.prototype.sort` to be stable). */
  function SortByRating(rs: seq<Rating>): (r: seq<Rating>)
    ensures NonIncreasing(r)
    ensures multiset(r) == multiset(rs)
  {
    if rs == [] then []
    else
      var rest := SortByRating(rs[1..]);
      InsertSorted(rs[0], rest);
      MultisetCons(rs);
      Insert(rs[0], rest)
  }

  lemma WithRatingCons(h: Rating, t: seq<Rating>, v: real)
    ensures WithRating([h] + t, v) == (if h.rating == v then [h] else []) + WithRating(t, v)
  {
    assert ([h] + t)[1..] == t;
  }

  lemma {:induction false} InsertKeepsTies(x: Rating, s: seq<Rating>, v: real)
    ensures WithRating(Insert(x, s), v) == (if x.rating == v then [x] else []) + WithRating(s, v)
  {
    if s == [] || s[0].rating <= x.rating {
      WithRatingCons(x, s, v);
    } else {
      var r' := Insert(x, s[1..]);
      InsertKeepsTies(x, s[1..], v);
      WithRatingCons(s[0], r', v);
      assert s == [s[0]] + s[1..];
      WithRatingCons(s[0], s[1..], v);
    }
  }

  lemma MultisetCons(s: seq<Rating>)
    requires s != []
    ensures multiset(s) == multiset(s[1..]) + multiset{s[0]}
  {
    assert s == [s[0]] + s[1..];
  }

  /** Stability: the entries of any one rating come out of the sort in their input order. */
  lemma {:induction false} SortKeepsTies(rs: seq<Rating>, v: real)
    ensures WithRating(SortByRating(rs), v) == WithRating(rs, v)
  {
    if rs != [] {
      SortKeepsTies(rs[1..], v);
      InsertKeepsTies(rs[0], SortByRating(rs[1..]), v);
    }
  }

  function RatingsOf(cs: seq<Candidate>): (rs: seq<Rating>)
    ensures |rs| == |cs|
    ensures forall i | 0 <= i < |cs| :: rs[i] == cs[i].AsRating()
  {
    if cs == [] then [] else [cs[0].AsRating()] + RatingsOf(cs[1..])
  }

  /** The last two steps of `findRoughlySimilarProducts`: look each ranked name up in the
      name-to-row map, attach the row it finds, and keep only the entries whose row has a
      truthy image reference. */
  function AttachRows(rs: seq<Rating>, index: map<string, Row>): (cs: seq<Candidate>)
    ensures Subseq(RatingsOf(cs), rs)
    ensures forall c | c in cs :: c.target in index && c.row == index[c.target] && Present(c.row.imgurl1)
    ensures forall r | r in rs && r.target in index && Present(index[r.target].imgurl1) ::
      Candidate(r.target, r.rating, index[r.target]) in cs
  {
    if rs == [] then []
    else
      var rest := AttachRows(rs[1..], index);
      var r := rs[0];
      if r.target in index && Present(index[r.target].imgurl1) then
        var c := Candidate(r.target, r.rating, index[r.target]);
        assert RatingsOf([c] + rest)[1..] == RatingsOf(rest);
        [c] + rest
      else
        SubseqOfTail(RatingsOf(rest), rs);
        rest
  }

  /** A ranked entry whose name maps to a row with an image reference. */
  predicate Eligible(r: Rating, index: map<string, Row>) {
    r.target in index && Present(index[r.target].imgurl1)
  }

  /** Whether a ranked entry is kept. */
  function Kept(index: map<string, Row>): Rating -> bool {
    (r: Rating) => Eligible(r, index)
  }

  /** Without their rows, the kept entries are `Array.prototype.filter` of the ranked list. */
  lemma {:induction false} AttachRowsIsFilter(rs: seq<Rating>, index: map<string, Row>)
    ensures RatingsOf(AttachRows(rs, index)) == Filter(rs, Kept(index))
  {
    if rs != [] {
      AttachRowsIsFilter(rs[1..], index);
    }
  }

  /** The kept entries are exactly the eligible ones, position by position: entry `k` comes
      from ranked position `pos[k]`, the positions increase, and every eligible position is
      taken, so a name ranked twice is kept twice. */
  lemma AttachRowsInOrder(rs: seq<Rating>, index: map<string, Row>) returns (pos: seq<nat>)
    ensures |pos| == |AttachRows(rs, index)|
    ensures forall k | 0 <= k < |pos| :: (pos[k] < |rs| && Eligible(rs[pos[k]], index)
      && AttachRows(rs, index)[k] == Candidate(rs[pos[k]].target, rs[pos[k]].rating, index[rs[pos[k]].target]))
    ensures Increasing(pos)
    ensures forall i | 0 <= i < |rs| && Eligible(rs[i], index) :: i in pos
  {
    var cs := AttachRows(rs, index);
    AttachRowsIsFilter(rs, index);
    pos := FilterPositions(rs, Kept(index));
    forall k | 0 <= k < |pos|
      ensures cs[k] == Candidate(rs[pos[k]].target, rs[pos[k]].rating, index[rs[pos[k]].target])
    {
      assert cs[k].AsRating() == rs[pos[k]];
      assert cs[k] in cs;
    }
  }

  function Min(a: int, b: int): int {
    if a <= b then a else b
  }

  lemma {:induction false} NoNamesWhenUnnamed(data: seq<Row>)
    ensures CatalogNames(data) == [] <==> forall i | 0 <= i < |data| :: !Present(data[i].prdlstNm)
  {
    if data != [] {
      var init := data[..|data| - 1];
      NoNamesWhenUnnamed(init);
      assert forall i | 0 <= i < |init| :: init[i] == data[i];
    }
  }

  /** The specification of `findRoughlySimilarProducts`: it rejects exactly when no row
      has a name (the similarity library refuses an empty list of names). */
  function SimilarProducts(q: string, data: seq<Row>, topN: nat, sim: (string, string) -> real)
    : (r: Result<seq<Candidate>, Error>)
    ensures r.Failure? <==> forall i | 0 <= i < |data| :: !Present(data[i].prdlstNm)
    ensures r.Failure? ==> r.error == SimilarityBadArguments
  {
    var names := CatalogNames(data);
    NoNamesWhenUnnamed(data);
    if names == [] then
      Failure(SimilarityBadArguments)
    else
      var sorted := SortByRating(Ratings(q, names, sim));
      Success(AttachRows(sorted[..Min(topN, |sorted|)], CatalogIndex(data)))
  }

  /** Selecting a subsequence keeps the relative order of equally rated entries. */
  lemma {:induction false} SubseqWithRating(a: seq<Rating>, b: seq<Rating>, v: real)
    requires Subseq(a, b)
    ensures Subseq(WithRating(a, v), WithRating(b, v))
    decreases |b|
  {
    if a == [] {
    } else if a[0] == b[0] {
      SubseqWithRating(a[1..], b[1..], v);
      if a[0].rating == v {
        assert WithRating(a, v) == [a[0]] + WithRating(a[1..], v);
        assert WithRating(b, v) == [b[0]] + WithRating(b[1..], v);
        assert WithRating(a, v)[1..] == WithRating(a[1..], v);
        assert WithRating(b, v)[1..] == WithRating(b[1..], v);
      } else {
        assert WithRating(a, v) == WithRating(a[1..], v);
        assert WithRating(b, v) == WithRating(b[1..], v);
      }
    } else {
      SubseqWithRating(a, b[1..], v);
      if b[0].rating == v {
        assert WithRating(b, v)[1..] == WithRating(b[1..], v);
        SubseqOfTail(WithRating(a, v), WithRating(b, v));
      } else {
        assert WithRating(b, v) == WithRating(b[1..], v);
      }
    }
  }

  /** A subsequence of a sorted list is sorted. */
  lemma {:induction false} SubseqNonIncreasing(a: seq<Rating>, b: seq<Rating>)
    requires Subseq(a, b) && NonIncreasing(b)
    ensures NonIncreasing(a)
    decreases |b|
  {
    if a != [] {
      assert NonIncreasing(b[1..]);
      if a[0] == b[0] {
        SubseqNonIncreasing(a[1..], b[1..]);
        SubseqMembers(a[1..], b[1..]);
        HeadIsMax(b);
        assert a == [a[0]] + a[1..];
        ConsNonIncreasing(a[0], a[1..]);
      } else {
        SubseqNonIncreasing(a, b[1..]);
      }
    }
  }

  /** The first `n` entries of the stably sorted ratings, given rows: at most `n`, best
      first, ties in input order. */
  lemma {:induction false} TopRatedOrder(rs: seq<Rating>, n: nat, index: map<string, Row>)
    ensures var sorted := SortByRating(rs);
      var cs := AttachRows(sorted[..Min(n, |sorted|)], index);
      && |cs| <= n
      && NonIncreasing(RatingsOf(cs))
      && (forall v :: Subseq(WithRating(RatingsOf(cs), v), WithRating(rs, v)))
  {
    var sorted := SortByRating(rs);
    var top := sorted[..Min(n, |sorted|)];
    var cs := AttachRows(top, index);
    PrefixIsSubseq(sorted, Min(n, |sorted|));
    SubseqTrans(RatingsOf(cs), top, sorted);
    SubseqLength(RatingsOf(cs), top);
    SubseqNonIncreasing(RatingsOf(cs), sorted);
    forall v ensures Subseq(WithRating(RatingsOf(cs), v), WithRating(rs, v)) {
      SubseqWithRating(RatingsOf(cs), sorted, v);
      SortKeepsTies(rs, v);
    }
  }

  /** Every candidate drawn from a reordering of `rs` carries one of the ratings of `rs`. */
  lemma KeptAreInputs(cs: seq<Candidate>, sorted: seq<Rating>, rs: seq<Rating>)
    requires Subseq(RatingsOf(cs), sorted)
    requires multiset(sorted) == multiset(rs)
    ensures forall c | c in cs :: c.AsRating() in rs
  {
    SubseqMembers(RatingsOf(cs), sorted);
    forall c | c in cs ensures c.AsRating() in rs {
      var i :| 0 <= i < |cs| && cs[i] == c;
      var x := RatingsOf(cs)[i];
      assert x in sorted;
      assert x in multiset(sorted);
      assert x in multiset(rs);
    }
  }

  /** Every entry kept from the sorted ratings is one of the input ratings. */
  lemma {:induction false} TopRatedMembers(rs: seq<Rating>, n: nat, index: map<string, Row>)
    ensures var sorted := SortByRating(rs);
      forall c | c in AttachRows(sorted[..Min(n, |sorted|)], index) :: c.AsRating() in rs
  {
    var sorted := SortByRating(rs);
    var top := sorted[..Min(n, |sorted|)];
    var cs := AttachRows(top, index);
    PrefixIsSubseq(sorted, Min(n, |sorted|));
    SubseqTrans(RatingsOf(cs), top, sorted);
    KeptAreInputs(cs, sorted, rs);
  }

  /** What `findRoughlySimilarProducts` promises when it returns: at most `topN` candidates,
      best rating first, equally rated candidates in catalog order, every candidate rated by
      the similarity measure and carrying the LAST catalog row with its name, which has an
      image reference. */
  lemma SimilarProductsSpec(q: string, data: seq<Row>, topN: nat, sim: (string, string) -> real)
    requires SimilarProducts(q, data, topN, sim).Success?
    ensures var cs := SimilarProducts(q, data, topN, sim).value;
      && |cs| <= topN
      && NonIncreasing(RatingsOf(cs))
      && (forall v :: Subseq(WithRating(RatingsOf(cs), v), WithRating(Ratings(q, CatalogNames(data), sim), v)))
      && (forall c | c in cs :: c.rating == sim(q, c.target))
      && (forall c | c in cs :: Present(c.row.imgurl1) && LastNamed(data, c.target).Some?
                                 && c.row == data[LastNamed(data, c.target).value])
  {
    var names := CatalogNames(data);
    var rs := Ratings(q, names, sim);
    var sorted := SortByRating(rs);
    var cs := AttachRows(sorted[..Min(topN, |sorted|)], CatalogIndex(data));
    assert cs == SimilarProducts(q, data, topN, sim).value;
    TopRatedOrder(rs, topN, CatalogIndex(data));
    TopRatedMembers(rs, topN, CatalogIndex(data));
    forall c | c in cs ensures c.rating == sim(q, c.target) {
      var i :| 0 <= i < |rs| && rs[i] == c.AsRating();
    }
  }

  /** Position by position: candidate `k` is the entry at position `pos[k]` of the `topN`
      best-rated names, the positions increase, and every one of those entries whose name has
      a row with an image reference is kept, so a name ranked twice yields two candidates. */
  lemma SimilarProductsFromTopRated(q: string, data: seq<Row>, topN: nat, sim: (string, string) -> real)
    returns (pos: seq<nat>)
    requires SimilarProducts(q, data, topN, sim).Success?
    ensures var sorted := SortByRating(Ratings(q, CatalogNames(data), sim));
      var top := sorted[..Min(topN, |sorted|)];
      var cs := SimilarProducts(q, data, topN, sim).value;
      && |pos| == |cs|
      && Increasing(pos)
      && (forall k | 0 <= k < |pos| :: (pos[k] < |top| && Eligible(top[pos[k]], CatalogIndex(data))
                                        && cs[k].AsRating() == top[pos[k]]))
      && (forall i | 0 <= i < |top| && Eligible(top[i], CatalogIndex(data)) :: i in pos)
  {
    var sorted := SortByRating(Ratings(q, CatalogNames(data), sim));
    var top := sorted[..Min(topN, |sorted|)];
    assert SimilarProducts(q, data, topN, sim).value == AttachRows(top, CatalogIndex(data));
    pos := AttachRowsInOrder(top, CatalogIndex(data));
  }

  /** `findRoughlySimilarProducts`: the loop at lines 228-234 builds the name list and the
      name-to-row map, then the ratings are sorted, truncated, given rows and filtered. */
  method FindRoughlySimilarProducts(q: string, data: seq<Row>, topN: nat, sim: (string, string) -> real)
    returns (r: Result<seq<Candidate>, Error>)
    ensures r == SimilarProducts(q, data, topN, sim)
  {
    var index: map<string, Row> := map[];
    var names: seq<string> := [];
    for i := 0 to |data|
      invariant names == CatalogNames(data[..i])
      invariant index == CatalogIndex(data[..i])
    {
      assert data[..i + 1][..i] == data[..i];
      var name := data[i].prdlstNm;
      if Present(name) {
        names := names + [name.value];
        index := index[name.value := data[i]];
      }
    }
    assert data[..|data|] == data;
    if names == [] {
      return Failure(SimilarityBadArguments);
    }
    var ratings := Ratings(q, names, sim);
    var sorted := SortByRating(ratings);
    r := Success(AttachRows(sorted[..Min(topN, |sorted|)], index));
  }
}
