/** Keeping the first element of each key: the filter with a `seen` set that
    `deduplicateByImageUrl` (utils/analyzeUtils.js:31-39) runs, stated for any key function,
    and the positional definition it agrees with. */
module Firsts {
  import opened Seqs

  predicate DistinctKeys<T, K(==)>(xs: seq<T>, key: T -> K) {
    forall i, j | 0 <= i < j < |xs| :: key(xs[i]) != key(xs[j])
  }

  /** Position `i` holds the first element with its key. */
  predicate FirstOfKey<T, K(==)>(xs: seq<T>, key: T -> K, i: nat)
    requires i < |xs|
  {
    forall h | 0 <= h < i :: key(xs[h]) != key(xs[i])
  }

  /** The filter with its `seen` set made explicit: drop an element whose key was seen,
      otherwise keep it and remember its key. */
  function DedupFrom<T, K(==)>(xs: seq<T>, key: T -> K, seen: set<K>): seq<T> {
    if xs == [] then []
    else if key(xs[0]) in seen then DedupFrom(xs[1..], key, seen)
    else [xs[0]] + DedupFrom(xs[1..], key, seen + {key(xs[0])})
  }

  lemma {:induction false} DedupFromSubseq<T, K>(xs: seq<T>, key: T -> K, seen: set<K>)
    ensures Subseq(DedupFrom(xs, key, seen), xs)
  {
    if xs != [] {
      var k := key(xs[0]);
      if k in seen {
        DedupFromSubseq(xs[1..], key, seen);
        SubseqOfTail(DedupFrom(xs[1..], key, seen), xs);
      } else {
        DedupFromSubseq(xs[1..], key, seen + {k});
        assert DedupFrom(xs, key, seen)[1..] == DedupFrom(xs[1..], key, seen + {k});
      }
    }
  }

  lemma {:induction false} DedupFromDistinct<T, K>(xs: seq<T>, key: T -> K, seen: set<K>)
    ensures DistinctKeys(DedupFrom(xs, key, seen), key)
    ensures forall y | y in DedupFrom(xs, key, seen) :: key(y) !in seen
  {
    if xs != [] {
      var k := key(xs[0]);
      if k in seen {
        DedupFromDistinct(xs[1..], key, seen);
      } else {
        var rest := DedupFrom(xs[1..], key, seen + {k});
        DedupFromDistinct(xs[1..], key, seen + {k});
        var r := [xs[0]] + rest;
        forall i, j | 0 <= i < j < |r| ensures key(r[i]) != key(r[j]) {
          assert r[j] == rest[j - 1];
          if i > 0 {
            assert r[i] == rest[i - 1];
          }
        }
      }
    }
  }

  lemma {:induction false} DedupFromKeepsFirst<T, K>(xs: seq<T>, key: T -> K, seen: set<K>)
    ensures forall i | 0 <= i < |xs| && key(xs[i]) !in seen && FirstOfKey(xs, key, i) ::
      xs[i] in DedupFrom(xs, key, seen)
  {
    if xs != [] {
      var k := key(xs[0]);
      var seen' := if k in seen then seen else seen + {k};
      DedupFromKeepsFirst(xs[1..], key, seen');
      forall i | 0 <= i < |xs| && key(xs[i]) !in seen && FirstOfKey(xs, key, i)
        ensures xs[i] in DedupFrom(xs, key, seen)
      {
        if i > 0 {
          assert xs[i] == xs[1..][i - 1];
          assert key(xs[0]) != key(xs[i]);
          assert FirstOfKey(xs[1..], key, i - 1);
        }
      }
    }
  }

  /** The first position holding the key of position `i`. */
  lemma FirstIndexOf<T, K>(xs: seq<T>, key: T -> K, i: nat) returns (f: nat)
    requires i < |xs|
    ensures f <= i && key(xs[f]) == key(xs[i]) && FirstOfKey(xs, key, f)
  {
    f := i;
    while exists h | 0 <= h < f :: key(xs[h]) == key(xs[i])
      invariant f <= i && key(xs[f]) == key(xs[i])
      decreases f
    {
      var h :| 0 <= h < f && key(xs[h]) == key(xs[i]);
      f := h;
    }
  }

  lemma {:induction false} DedupFromOfDistinct<T, K>(xs: seq<T>, key: T -> K, seen: set<K>)
    requires DistinctKeys(xs, key)
    requires forall y | y in xs :: key(y) !in seen
    ensures DedupFrom(xs, key, seen) == xs
  {
    if xs != [] {
      var k := key(xs[0]);
      assert DistinctKeys(xs[1..], key) by {
        forall i, j | 0 <= i < j < |xs| - 1 ensures key(xs[1..][i]) != key(xs[1..][j]) {
          assert xs[1..][i] == xs[i + 1] && xs[1..][j] == xs[j + 1];
        }
      }
      forall y | y in xs[1..] ensures key(y) !in seen + {k} {
        var j :| 0 <= j < |xs| - 1 && xs[1..][j] == y;
        assert y == xs[j + 1];
      }
      DedupFromOfDistinct(xs[1..], key, seen + {k});
    }
  }

  /** The positional definition: the elements among the first `n` that are the first of
      their key, in input order. */
  function FirstOccurrences<T, K(==)>(xs: seq<T>, key: T -> K, n: nat): seq<T>
    requires n <= |xs|
  {
    if n == 0 then []
    else FirstOccurrences(xs, key, n - 1) + (if FirstOfKey(xs, key, n - 1) then [xs[n - 1]] else [])
  }

  /** The first occurrences sit at increasing positions, each the first of its key, and
      every such position among the first `n` is taken. */
  lemma {:induction false} FirstOccurrencesPositions<T, K>(xs: seq<T>, key: T -> K, n: nat) returns (pos: seq<nat>)
    requires n <= |xs|
    ensures |pos| == |FirstOccurrences(xs, key, n)|
    ensures forall k | 0 <= k < |pos| :: (pos[k] < n && FirstOfKey(xs, key, pos[k])
      && FirstOccurrences(xs, key, n)[k] == xs[pos[k]])
    ensures forall k, l | 0 <= k < l < |pos| :: pos[k] < pos[l]
    ensures forall i | 0 <= i < n && FirstOfKey(xs, key, i) :: i in pos
  {
    if n == 0 {
      pos := [];
    } else {
      var prev := FirstOccurrencesPositions(xs, key, n - 1);
      pos := prev + (if FirstOfKey(xs, key, n - 1) then [n - 1] else []);
      assert forall k | 0 <= k < |prev| :: pos[k] == prev[k];
    }
  }

  /** The keys of the first `n` elements: what `seen` holds after `n` steps. */
  function KeysBefore<T, K(==)>(xs: seq<T>, key: T -> K, n: nat): set<K>
    requires n <= |xs|
  {
    set j | 0 <= j < n :: key(xs[j])
  }

  /** After `i` steps the filter has kept exactly the first occurrences among the first `i`
      elements, and it goes on with the keys of those elements as its `seen` set. */
  lemma {:induction false} DedupFromSplit<T, K>(xs: seq<T>, key: T -> K, i: nat)
    requires i <= |xs|
    ensures DedupFrom(xs, key, {}) == FirstOccurrences(xs, key, i) + DedupFrom(xs[i..], key, KeysBefore(xs, key, i))
  {
    if i == 0 {
      assert xs[0..] == xs;
      assert KeysBefore(xs, key, 0) == {};
    } else {
      var n := i - 1;
      DedupFromSplit(xs, key, n);
      var seen := KeysBefore(xs, key, n);
      var x := xs[n];
      assert xs[n..][0] == x && xs[n..][1..] == xs[i..];
      if key(x) in seen {
        var h :| 0 <= h < n && key(xs[h]) == key(x);
        assert !FirstOfKey(xs, key, n);
        assert KeysBefore(xs, key, i) == seen;
      } else {
        assert FirstOfKey(xs, key, n);
        assert KeysBefore(xs, key, i) == seen + {key(x)};
        assert DedupFrom(xs[n..], key, seen) == [x] + DedupFrom(xs[i..], key, seen + {key(x)});
      }
    }
  }

  /** The filter with its `seen` set keeps exactly the first occurrences, in input order. */
  lemma DedupFromIsFirstOccurrences<T, K>(xs: seq<T>, key: T -> K)
    ensures DedupFrom(xs, key, {}) == FirstOccurrences(xs, key, |xs|)
  {
    DedupFromSplit(xs, key, |xs|);
    assert xs[|xs|..] == [];
  }
}
