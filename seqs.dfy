/** Order-preserving selection from a sequence: what `Array.prototype.filter` and
    `slice(0, n)` produce. */
module Seqs {
  import opened Wrappers

  /** `a` can be obtained from `b` by deleting elements, without reordering. */
  predicate Subseq<T(==)>(a: seq<T>, b: seq<T>)
    decreases |b|
  {
    if a == [] then true
    else if b == [] then false
    else if a[0] == b[0] then Subseq(a[1..], b[1..])
    else Subseq(a, b[1..])
  }

  /** Everything a subsequence holds comes from the sequence it was taken from. */
  lemma {:induction false} SubseqMembers<T>(a: seq<T>, b: seq<T>)
    requires Subseq(a, b)
    ensures forall x | x in a :: x in b
    decreases |b|
  {
    if a != [] {
      if a[0] == b[0] {
        SubseqMembers(a[1..], b[1..]);
        forall x | x in a ensures x in b {
          if x != a[0] {
            assert x in a[1..];
          }
        }
      } else {
        SubseqMembers(a, b[1..]);
      }
    }
  }

  lemma {:induction false} SubseqLength<T>(a: seq<T>, b: seq<T>)
    requires Subseq(a, b)
    ensures |a| <= |b|
    decreases |b|
  {
    if a != [] {
      if a[0] == b[0] {
        SubseqLength(a[1..], b[1..]);
      } else {
        SubseqLength(a, b[1..]);
      }
    }
  }

  /** Dropping the head of the original keeps a subsequence of the tail, unless that head was used. */
  lemma {:induction false} SubseqOfTail<T>(a: seq<T>, b: seq<T>)
    requires b != [] && Subseq(a, b[1..])
    ensures Subseq(a, b)
    decreases |a| + |b|
  {
    if a != [] && a[0] == b[0] {
      SubseqDropHead(a, b[1..]);
    }
  }

  lemma {:induction false} SubseqDropHead<T>(a: seq<T>, b: seq<T>)
    requires a != [] && Subseq(a, b)
    ensures Subseq(a[1..], b)
    decreases |a| + |b|
  {
    if a[0] == b[0] {
      SubseqOfTail(a[1..], b);
    } else {
      SubseqDropHead(a, b[1..]);
      SubseqOfTail(a[1..], b);
    }
  }

  lemma {:induction false} SubseqTrans<T>(a: seq<T>, b: seq<T>, c: seq<T>)
    requires Subseq(a, b) && Subseq(b, c)
    ensures Subseq(a, c)
    decreases |c|
  {
    if a != [] {
      assert b != [] && c != [];
      if b[0] == c[0] {
        if a[0] == b[0] {
          SubseqTrans(a[1..], b[1..], c[1..]);
        } else {
          SubseqTrans(a, b[1..], c[1..]);
        }
      } else {
        SubseqTrans(a, b, c[1..]);
        SubseqOfTail(a, c);
      }
    }
  }

  /** A prefix (`slice(0, n)`) is a subsequence. */
  lemma {:induction false} PrefixIsSubseq<T>(s: seq<T>, n: nat)
    requires n <= |s|
    ensures Subseq(s[..n], s)
  {
    if n > 0 {
      assert s[..n][1..] == s[1..][..n - 1];
      PrefixIsSubseq(s[1..], n - 1);
    }
  }

  /** `Array.prototype.find` as an index: the first position holding `x`. */
  function FirstIndex<T(==)>(xs: seq<T>, x: T): (r: Option<nat>)
    ensures r.Some? ==> r.value < |xs| && xs[r.value] == x
    ensures r.Some? ==> forall j | 0 <= j < r.value :: xs[j] != x
    ensures r.None? <==> x !in xs
  {
    if xs == [] then None
    else if xs[0] == x then Some(0)
    else match FirstIndex(xs[1..], x)
      case None => None
      case Some(i) => Some(i + 1)
  }

  /** Strictly increasing positions. */
  predicate Increasing(ps: seq<nat>) {
    forall k, l | 0 <= k < l < |ps| :: ps[k] < ps[l]
  }

  /** The positions taken from `xs` once the positions `prev` taken from `xs[1..]` are
      moved one further, with position 0 in front when the head is taken too. */
  lemma ExtendPositions(prev: seq<nat>, keep: bool, n: nat) returns (pos: seq<nat>)
    requires forall k | 0 <= k < |prev| :: prev[k] < n
    requires Increasing(prev)
    ensures keep ==> |pos| == |prev| + 1 && pos[0] == 0
    ensures keep ==> forall k | 0 <= k < |prev| :: pos[k + 1] == prev[k] + 1
    ensures !keep ==> |pos| == |prev|
    ensures !keep ==> forall k | 0 <= k < |prev| :: pos[k] == prev[k] + 1
    ensures forall k | 0 <= k < |pos| :: pos[k] < n + 1
    ensures Increasing(pos)
  {
    var shifted := seq(|prev|, k requires 0 <= k < |prev| => prev[k] + 1);
    if keep {
      pos := [0] + shifted;
      forall k, l | 0 <= k < l < |pos| ensures pos[k] < pos[l] {
        assert pos[l] == shifted[l - 1];
        if k >= 1 {
          assert pos[k] == shifted[k - 1];
        }
      }
    } else {
      pos := shifted;
    }
  }

  /** `Array.prototype.filter`: the elements satisfying `p`, in order. */
  function Filter<T>(xs: seq<T>, p: T -> bool): seq<T> {
    if xs == [] then [] else (if p(xs[0]) then [xs[0]] else []) + Filter(xs[1..], p)
  }

  /** The filter keeps exactly the positions satisfying `p`: element `k` of the result is
      the one at position `pos[k]`, the positions increase, and every position satisfying
      `p` is taken, so an element listed twice is kept twice. */
  lemma {:induction false} FilterPositions<T>(xs: seq<T>, p: T -> bool) returns (pos: seq<nat>)
    ensures |pos| == |Filter(xs, p)|
    ensures forall k | 0 <= k < |pos| :: pos[k] < |xs| && p(xs[pos[k]]) && Filter(xs, p)[k] == xs[pos[k]]
    ensures Increasing(pos)
    ensures forall i | 0 <= i < |xs| && p(xs[i]) :: i in pos
  {
    if xs == [] {
      pos := [];
    } else {
      var prev := FilterPositions(xs[1..], p);
      pos := ExtendPositions(prev, p(xs[0]), |xs| - 1);
      assert Filter(xs, p) == (if p(xs[0]) then [xs[0]] else []) + Filter(xs[1..], p);
      FilterElements(xs, p, prev, pos);
      FilterCovers(xs, p, prev, pos);
    }
  }

  /** The elements of the filter of `xs` sit at the extended positions. */
  lemma FilterElements<T>(xs: seq<T>, p: T -> bool, prev: seq<nat>, pos: seq<nat>)
    requires xs != [] && |prev| == |Filter(xs[1..], p)|
    requires forall k | 0 <= k < |prev| ::
      prev[k] < |xs| - 1 && p(xs[1..][prev[k]]) && Filter(xs[1..], p)[k] == xs[1..][prev[k]]
    requires p(xs[0]) ==> |pos| == |prev| + 1 && pos[0] == 0
    requires p(xs[0]) ==> forall k | 0 <= k < |prev| :: pos[k + 1] == prev[k] + 1
    requires !p(xs[0]) ==> |pos| == |prev| && forall k | 0 <= k < |prev| :: pos[k] == prev[k] + 1
    ensures forall k | 0 <= k < |pos| :: pos[k] < |xs| && p(xs[pos[k]]) && Filter(xs, p)[k] == xs[pos[k]]
  {
    forall k | 0 <= k < |pos| ensures pos[k] < |xs| && p(xs[pos[k]]) && Filter(xs, p)[k] == xs[pos[k]] {
      FilterAt(xs, p, prev, pos, k);
    }
  }

  /** Every position of `xs` satisfying `p` is among the extended positions. */
  lemma FilterCovers<T>(xs: seq<T>, p: T -> bool, prev: seq<nat>, pos: seq<nat>)
    requires xs != []
    requires forall i | 0 <= i < |xs| - 1 && p(xs[1..][i]) :: i in prev
    requires p(xs[0]) ==> |pos| == |prev| + 1 && pos[0] == 0
    requires p(xs[0]) ==> forall k | 0 <= k < |prev| :: pos[k + 1] == prev[k] + 1
    requires !p(xs[0]) ==> |pos| == |prev| && forall k | 0 <= k < |prev| :: pos[k] == prev[k] + 1
    ensures forall i | 0 <= i < |xs| && p(xs[i]) :: i in pos
  {
    forall i | 0 < i < |xs| && p(xs[i]) ensures i in pos {
      assert xs[1..][i - 1] == xs[i];
      ShiftCovers(prev, p(xs[0]), pos, i - 1);
    }
  }

  /** Element `k` of the filter of `xs`, given the positions `prev` of the filter of
      `xs[1..]` and their extension `pos`. */
  lemma FilterAt<T>(xs: seq<T>, p: T -> bool, prev: seq<nat>, pos: seq<nat>, k: nat)
    requires xs != [] && |prev| == |Filter(xs[1..], p)|
    requires forall k | 0 <= k < |prev| ::
      prev[k] < |xs| - 1 && p(xs[1..][prev[k]]) && Filter(xs[1..], p)[k] == xs[1..][prev[k]]
    requires p(xs[0]) ==> |pos| == |prev| + 1 && pos[0] == 0
    requires p(xs[0]) ==> forall k | 0 <= k < |prev| :: pos[k + 1] == prev[k] + 1
    requires !p(xs[0]) ==> |pos| == |prev| && forall k | 0 <= k < |prev| :: pos[k] == prev[k] + 1
    requires k < |pos|
    ensures pos[k] < |xs| && p(xs[pos[k]]) && Filter(xs, p)[k] == xs[pos[k]]
  {
    var rest := Filter(xs[1..], p);
    var out := Filter(xs, p);
    if p(xs[0]) {
      assert out == [xs[0]] + rest;
      if k >= 1 {
        assert pos[k - 1 + 1] == prev[k - 1] + 1;
        assert out[k] == rest[k - 1];
        ShiftedAt(xs, prev[k - 1], pos[k]);
      }
    } else {
      assert out == rest;
      assert pos[k] == prev[k] + 1;
      ShiftedAt(xs, prev[k], pos[k]);
    }
  }

  /** A position taken from `xs[1..]` is still taken, one further, from `xs`. */
  lemma ShiftCovers(prev: seq<nat>, keep: bool, pos: seq<nat>, j: nat)
    requires keep ==> |pos| == |prev| + 1 && forall k | 0 <= k < |prev| :: pos[k + 1] == prev[k] + 1
    requires !keep ==> |pos| == |prev| && forall k | 0 <= k < |prev| :: pos[k] == prev[k] + 1
    requires j in prev
    ensures j + 1 in pos
  {
    var k :| 0 <= k < |prev| && prev[k] == j;
    if keep {
      assert pos[k + 1] == j + 1;
    } else {
      assert pos[k] == j + 1;
    }
  }

  /** Position `p` of `xs[1..]` is position `p + 1` of `xs`. */
  lemma ShiftedAt<T>(xs: seq<T>, p: nat, q: nat)
    requires p + 1 < |xs| && q == p + 1
    ensures xs[q] == xs[1..][p]
  {
  }
}
