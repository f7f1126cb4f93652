/** The string operations of ECMAScript that the resolution pipeline relies on:
    the `\s` character class, `String.prototype.trim`, `startsWith`, `includes`,
    `replace` with a string pattern (first occurrence only) and anchored regex removal. */
module Text {
  import opened Wrappers
  import opened Seqs

  /** The `\s` class of ECMAScript regular expressions: WhiteSpace and LineTerminator.
      `String.prototype.trim` strips exactly the same characters. */
  predicate IsSpace(c: char) {
    || c == '\t' || c == '\n' || c == '\U{000B}' || c == '\U{000C}' || c == '\r'
    || c == ' ' || c == '\U{00A0}' || c == '\U{1680}'
    || ('\U{2000}' <= c <= '\U{200A}')
    || c == '\U{2028}' || c == '\U{2029}' || c == '\U{202F}' || c == '\U{205F}'
    || c == '\U{3000}' || c == '\U{FEFF}'
  }

  predicate NoSpaces(s: string) {
    forall i | 0 <= i < |s| :: !IsSpace(s[i])
  }

  /** Printable ASCII other than the space character is never whitespace. */
  lemma VisibleAsciiNoSpaces(s: string)
    requires forall i | 0 <= i < |s| :: '!' <= s[i] <= '~'
    ensures NoSpaces(s)
  {
    forall i | 0 <= i < |s| ensures !IsSpace(s[i]) {
      AsciiSpaces(s[i]);
    }
  }

  /** Within ASCII, `\s` is exactly tab, line feed, vertical tab, form feed, carriage return
      and the space character. */
  lemma AsciiSpaces(c: char)
    requires c < '\U{0080}'
    ensures IsSpace(c) <==> c in "\t\n\U{000B}\U{000C}\r "
  {
  }

  predicate AllSpaces(s: string) {
    forall i | 0 <= i < |s| :: IsSpace(s[i])
  }

  /** The first position at or after `i` that does not hold whitespace (or the end). */
  function SkipSpaces(s: string, i: nat): (j: nat)
    requires i <= |s|
    ensures i <= j <= |s|
    ensures forall k | i <= k < j :: IsSpace(s[k])
    ensures j < |s| ==> !IsSpace(s[j])
    decreases |s| - i
  {
    if i == |s| || !IsSpace(s[i]) then i else SkipSpaces(s, i + 1)
  }

  /** The end of `s[..j]` once the whitespace at its end, down to position `lo`, is removed. */
  function BackSpaces(s: string, lo: nat, j: nat): (e: nat)
    requires lo <= j <= |s|
    ensures lo <= e <= j
    ensures forall k | e <= k < j :: IsSpace(s[k])
    ensures e > lo ==> !IsSpace(s[e - 1])
    decreases j
  {
    if j == lo || !IsSpace(s[j - 1]) then j else BackSpaces(s, lo, j - 1)
  }

  /** `String.prototype.trim`: the infix of `s` left after removing whitespace from both
      ends; what is removed is whitespace and what is kept neither starts nor ends with it. */
  function Trim(s: string): (r: string)
    ensures var i := SkipSpaces(s, 0);
      && i + |r| <= |s| && r == s[i..i + |r|]
      && (forall k | 0 <= k < i :: IsSpace(s[k]))
      && (forall k | i + |r| <= k < |s| :: IsSpace(s[k]))
    ensures r == [] || (!IsSpace(r[0]) && !IsSpace(r[|r| - 1]))
  {
    var i := SkipSpaces(s, 0);
    s[i..BackSpaces(s, i, |s|)]
  }

  lemma {:induction false} SkipSpacesTo(s: string, i: nat, j: nat)
    requires i <= j <= |s|
    requires forall k | i <= k < j :: IsSpace(s[k])
    requires j < |s| ==> !IsSpace(s[j])
    ensures SkipSpaces(s, i) == j
    decreases j - i
  {
    if i < j {
      SkipSpacesTo(s, i + 1, j);
    }
  }

  lemma {:induction false} BackSpacesTo(s: string, lo: nat, e: nat, j: nat)
    requires lo <= e <= j <= |s|
    requires forall k | e <= k < j :: IsSpace(s[k])
    requires e > lo ==> !IsSpace(s[e - 1])
    ensures BackSpaces(s, lo, j) == e
    decreases j
  {
    if e < j {
      BackSpacesTo(s, lo, e, j - 1);
    }
  }

  /** A string with no whitespace is left as it is by `trim`. */
  lemma TrimNoSpaces(s: string)
    requires NoSpaces(s)
    ensures Trim(s) == s
  {
  }

  /** Whitespace around a word that neither starts nor ends with whitespace is trimmed away. */
  lemma TrimAround(ws1: string, x: string, ws2: string)
    requires AllSpaces(ws1) && AllSpaces(ws2)
    requires x != [] && !IsSpace(x[0]) && !IsSpace(x[|x| - 1])
    ensures Trim(ws1 + x + ws2) == x
  {
    var u := ws1 + x + ws2;
    var a := |ws1|;
    var b := |ws1| + |x|;
    assert forall k | 0 <= k < a :: u[k] == ws1[k];
    assert forall k | b <= k < |u| :: u[k] == ws2[k - b];
    assert u[a] == x[0] && u[b - 1] == x[|x| - 1];
    SkipSpacesTo(u, 0, a);
    BackSpacesTo(u, a, b, |u|);
    assert u[a..b] == x;
  }

  /** `s.replace(/\s+/g, "")`: every whitespace character removed. */
  function RemoveSpaces(s: string): (r: string)
    ensures NoSpaces(r)
    ensures forall c :: c in r <==> c in s && !IsSpace(c)
    ensures NoSpaces(s) ==> r == s
  {
    if s == [] then []
    else if IsSpace(s[0]) then RemoveSpaces(s[1..])
    else [s[0]] + RemoveSpaces(s[1..])
  }

  /** Removing the whitespace deletes nothing else: the result is taken from the input in
      order, and every other character keeps its multiplicity. */
  lemma {:induction false} RemoveSpacesFilters(s: string)
    ensures Subseq(RemoveSpaces(s), s)
    ensures forall c | !IsSpace(c) :: multiset(RemoveSpaces(s))[c] == multiset(s)[c]
  {
    if s != [] {
      var rest := RemoveSpaces(s[1..]);
      RemoveSpacesFilters(s[1..]);
      assert s == [s[0]] + s[1..];
      if IsSpace(s[0]) {
        SubseqOfTail(rest, s);
      } else {
        assert ([s[0]] + rest)[1..] == rest;
      }
    }
  }

  predicate StartsWith(s: string, prefix: string) {
    |prefix| <= |s| && s[..|prefix|] == prefix
  }

  /** `s.startsWith(prefix)` holds exactly when `s` is `prefix` followed by something. */
  lemma {:induction false} StartsWithConcat(s: string, prefix: string)
    ensures StartsWith(s, prefix) <==> exists t :: prefix + t == s
  {
    if StartsWith(s, prefix) {
      assert prefix + s[|prefix|..] == s;
    }
    if exists t :: prefix + t == s {
      var t :| prefix + t == s;
      assert s[..|prefix|] == (prefix + t)[..|prefix|] == prefix;
    }
  }

  predicate EndsWith(s: string, suffix: string) {
    |suffix| <= |s| && s[|s| - |suffix|..] == suffix
  }

  /** `s.replace(/^p/, "")`. */
  function DropPrefix(s: string, p: string): (r: string)
    ensures StartsWith(s, p) ==> p + r == s
    ensures !StartsWith(s, p) ==> r == s
  {
    if StartsWith(s, p) then s[|p|..] else s
  }

  /** `s.replace(/p$/, "")`. */
  function DropSuffix(s: string, p: string): (r: string)
    ensures EndsWith(s, p) ==> r + p == s
    ensures !EndsWith(s, p) ==> r == s
  {
    if EndsWith(s, p) then s[..|s| - |p|] else s
  }

  /** Removing a prefix that was put in front of `t` gives `t` back. */
  lemma {:induction false} DropPrefixOfConcat(p: string, t: string)
    ensures DropPrefix(p + t, p) == t
  {
    StartsWithConcat(p + t, p);
    assert (p + t)[|p|..] == t;
  }

  /** Removing a suffix that was put after `t` gives `t` back. */
  lemma {:induction false} DropSuffixOfConcat(t: string, p: string)
    ensures DropSuffix(t + p, p) == t
  {
    assert (t + p)[|t|..] == p;
    assert (t + p)[..|t|] == t;
  }

  predicate OccursAt(s: string, pat: string, k: nat) {
    k + |pat| <= |s| && s[k..k + |pat|] == pat
  }

  /** The index of the first occurrence of `pat` in `s`, as `String.prototype.indexOf`. */
  function IndexOf(s: string, pat: string): (r: Option<nat>)
    ensures r.Some? ==> OccursAt(s, pat, r.value)
    ensures forall k: nat | OccursAt(s, pat, k) :: r.Some? && r.value <= k
  {
    if |s| < |pat| then None
    else if s[..|pat|] == pat then Some(0)
    else
      OccursInTail(s, pat);
      match IndexOf(s[1..], pat)
      case None => None
      case Some(i) =>
        assert OccursAt(s, pat, i + 1);
        Some(i + 1)
  }

  lemma OccursInTail(s: string, pat: string)
    requires s != []
    ensures forall k: nat | 1 <= k :: OccursAt(s, pat, k) == OccursAt(s[1..], pat, k - 1)
  {
    forall k: nat | 1 <= k
      ensures OccursAt(s, pat, k) == OccursAt(s[1..], pat, k - 1)
    {
      if k + |pat| <= |s| {
        assert s[k..k + |pat|] == s[1..][k - 1..k - 1 + |pat|];
      }
    }
  }

  /** One differing character rules out an occurrence. */
  lemma Mismatch(s: string, pat: string, k: nat, d: nat)
    requires k + |pat| <= |s| && d < |pat| && s[k + d] != pat[d]
    ensures !OccursAt(s, pat, k)
  {
    assert s[k..k + |pat|][d] == s[k + d];
  }

  /** `String.prototype.includes` with a string argument. */
  predicate Contains(s: string, pat: string) {
    IndexOf(s, pat).Some?
  }

  /** `s.replace(pat, rep)` with a string pattern: only the first occurrence is rewritten. */
  function ReplaceFirst(s: string, pat: string, rep: string): (r: string)
    ensures (forall k: nat :: !OccursAt(s, pat, k)) ==> r == s
    ensures forall k: nat | OccursAt(s, pat, k) && (forall j: nat | j < k :: !OccursAt(s, pat, j)) ::
      r == s[..k] + rep + s[k + |pat|..]
    ensures |r| == |s| || |r| + |pat| == |s| + |rep|
  {
    match IndexOf(s, pat)
    case None => s
    case Some(i) => s[..i] + rep + s[i + |pat|..]
  }
}
