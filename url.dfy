/** `cleanUrl` (utils/analyzeUtils.js:16-29): the canonical form of a catalog image
    reference, used as the comparison and deduplication key. */
module Url {
  import opened Wrappers
  import opened Text

  /** The two domain typos the catalog is known to contain, and their corrections. */
  const HostTypo := "hacccp.or.kr"
  const HostFix := "haccp.or.kr"
  const TldTypo := ".krr"
  const TldFix := ".kr"

  const DefaultScheme := "https://"

  /** What `/^https?:\/\//` accepts. */
  predicate HasScheme(s: string) {
    StartsWith(s, "http://") || StartsWith(s, "https://")
  }

  /** The test `/^https?:\/\//` spelled character by character. */
  lemma SchemePattern(s: string)
    ensures HasScheme(s) <==>
      (|s| >= 7 && s[..4] == "http"
       && (s[4..7] == "://" || (|s| >= 8 && s[4..8] == "s://")))
  {
    if HasScheme(s) {
      if StartsWith(s, "http://") {
        assert s[..4] == s[..7][..4];
        assert s[4..7] == s[..7][4..7];
      } else {
        assert s[..4] == s[..8][..4];
        assert s[4..8] == s[..8][4..8];
      }
    }
    if |s| >= 7 && s[..4] == "http" && s[4..7] == "://" {
      assert s[..7] == s[..4] + s[4..7];
    }
    if |s| >= 8 && s[..4] == "http" && s[4..8] == "s://" {
      assert s[..8] == s[..4] + s[4..8];
    }
  }

  /** Each typo is corrected at its first occurrence only (`replace` with a string pattern);
      each correction shortens the string by one character, and a string holding neither
      typo is left as it is. */
  function FixTypos(s: string): (r: string)
    ensures !Contains(s, HostTypo) && !Contains(s, TldTypo) ==> r == s
    ensures |s| - 2 <= |r| <= |s|
  {
    ReplaceFirst(ReplaceFirst(s, HostTypo, HostFix), TldTypo, TldFix)
  }

  /** The chain at lines 18-22: typo fixes, whitespace removal, trim. The trim can no
      longer change anything, so the result is the typo-fixed string without its whitespace. */
  function Cleaned(s: string): (r: string)
    ensures NoSpaces(r)
    ensures r == RemoveSpaces(FixTypos(s))
  {
    TrimNoSpaces(RemoveSpaces(FixTypos(s)));
    Trim(RemoveSpaces(FixTypos(s)))
  }

  /** Absent or empty input gives null; anything else gives a whitespace-free string that
      starts with `http://` or `https://`, and `https://` is added exactly when the cleaned
      string lacked a scheme. */
  function CleanUrl(url: Option<string>): (r: Option<string>)
    ensures r.None? <==> url.None? || url.value == ""
    ensures r.Some? ==> NoSpaces(r.value) && HasScheme(r.value)
    ensures r.Some? ==> var c := Cleaned(url.value);
      && (r.value == c || r.value == DefaultScheme + c)
      && (r.value == c <==> HasScheme(c))
  {
    match url
    case None => None
    case Some(s) =>
      if s == "" then None
      else
        var c := Cleaned(s);
        if HasScheme(c) then Some(c)
        else
          WithDefaultScheme(c);
          Some(DefaultScheme + c)
  }

  lemma WithDefaultScheme(c: string)
    requires NoSpaces(c)
    ensures NoSpaces(DefaultScheme + c) && HasScheme(DefaultScheme + c)
    ensures DefaultScheme + c != c
  {
    var u := DefaultScheme + c;
    assert u[..|DefaultScheme|] == DefaultScheme;
    assert |u| != |c|;
    forall i | 0 <= i < |u| ensures !IsSpace(u[i]) {
      if i >= |DefaultScheme| {
        assert u[i] == c[i - |DefaultScheme|];
      }
    }
  }

  lemma ReplaceFirstAbsent(s: string, pat: string, rep: string)
    requires !Contains(s, pat)
    ensures ReplaceFirst(s, pat, rep) == s
  {
  }

  /** An already canonical reference (no whitespace, a scheme, neither typo) is its own
      canonical form. */
  lemma CleanUrlFixpoint(u: string)
    requires u != "" && NoSpaces(u) && HasScheme(u)
    requires !Contains(u, HostTypo) && !Contains(u, TldTypo)
    ensures CleanUrl(Some(u)) == Some(u)
  {
    ReplaceFirstAbsent(u, HostTypo, HostFix);
    ReplaceFirstAbsent(u, TldTypo, TldFix);
  }

  /** Cleaning twice equals cleaning once unless the first result still contains one of the
      two typo patterns (a correction can uncover another typo, see `CleanUrlNotIdempotent`). */
  lemma CleanUrlIdempotentUnlessTypo(url: Option<string>)
    requires CleanUrl(url).Some?
    requires !Contains(CleanUrl(url).value, HostTypo) && !Contains(CleanUrl(url).value, TldTypo)
    ensures CleanUrl(CleanUrl(url)) == CleanUrl(url)
  {
    CleanUrlFixpoint(CleanUrl(url).value);
  }

  /** The typo search finds ".krr" at index 1 of "a.krrr". */
  lemma FixTyposKrrr(s: string)
    requires s == "a.krrr"
    ensures FixTypos(s) == "a.krr"
  {
    assert IndexOf(s, HostTypo) == None;
    Mismatch(s, TldTypo, 0, 0);
    assert OccursAt(s, TldTypo, 1);
  }

  /** The typo search finds ".krr" at index 9 of "https://a.krr". */
  lemma FixTyposKrr(t: string)
    requires t == "https://a.krr"
    ensures FixTypos(t) == "https://a.kr"
  {
    forall k: nat ensures !OccursAt(t, HostTypo, k) {
      if k + |HostTypo| <= |t| {
        Mismatch(t, HostTypo, k, if k == 0 then 1 else 0);
      }
    }
    forall k: nat | k < 9 ensures !OccursAt(t, TldTypo, k) {
      if k + |TldTypo| <= |t| {
        Mismatch(t, TldTypo, k, 0);
      }
    }
    assert OccursAt(t, TldTypo, 9);
  }

  lemma CleanKrrr(s: string)
    requires FixTypos(s) == "a.krr"
    ensures CleanUrl(Some(s)) == Some("https://a.krr")
  {
    assert |s| >= |FixTypos(s)|;
    CleanedOfVisible(s, "a.krr");
    PrependSchemeKrr("a.krr");
    CleanUrlOfCleaned(s, "a.krr");
  }

  /** `cleanUrl` of a non-empty string, given what cleaning yields. */
  lemma CleanUrlOfCleaned(s: string, c: string)
    requires s != "" && Cleaned(s) == c
    ensures HasScheme(c) ==> CleanUrl(Some(s)) == Some(c)
    ensures !HasScheme(c) ==> CleanUrl(Some(s)) == Some(DefaultScheme + c)
  {
  }

  /** When the typo-fixed string is visible ASCII it is the cleaned string. */
  lemma CleanedOfVisible(s: string, c: string)
    requires FixTypos(s) == c
    requires forall i | 0 <= i < |c| :: '!' <= c[i] <= '~'
    ensures Cleaned(s) == c
  {
    VisibleAsciiNoSpaces(c);
  }

  lemma PrependSchemeKrr(c: string)
    requires c == "a.krr"
    ensures DefaultScheme + c == "https://a.krr"
    ensures !HasScheme(c)
  {
  }

  lemma SchemedKr(d: string)
    requires d == "https://a.kr"
    ensures HasScheme(d)
    ensures forall i | 0 <= i < |d| :: '!' <= d[i] <= '~'
  {
    assert d[..8] == "https://";
  }

  lemma CleanKrr(t: string)
    requires FixTypos(t) == "https://a.kr"
    ensures CleanUrl(Some(t)) == Some("https://a.kr")
  {
    SchemedKr("https://a.kr");
    assert |t| >= |FixTypos(t)|;
    CleanedOfVisible(t, "https://a.kr");
    CleanUrlOfCleaned(t, "https://a.kr");
  }

  /** Correcting the first ".krr" of ".krrr" leaves another ".krr": cleaning is not idempotent. */
  lemma CleanUrlNotIdempotent(s: string)
    requires s == "a.krrr"
    ensures CleanUrl(Some(s)) == Some("https://a.krr")
    ensures CleanUrl(CleanUrl(Some(s))) == Some("https://a.kr")
  {
    FixTyposKrrr(s);
    CleanKrrr(s);
    FixTyposKrr("https://a.krr");
    CleanKrr("https://a.krr");
  }

  /** A rewrite whose pattern does not occur inside a prefix leaves that prefix alone. */
  lemma ReplaceFirstKeepsPrefix(s: string, pat: string, rep: string, p: string)
    requires StartsWith(s, p)
    requires forall k: nat | k < |p| :: !OccursAt(s, pat, k)
    ensures StartsWith(ReplaceFirst(s, pat, rep), p)
  {
    match IndexOf(s, pat)
    case None =>
    case Some(i) =>
      assert ReplaceFirst(s, pat, rep)[..|p|] == s[..i][..|p|];
  }

  /** Removing whitespace keeps a whitespace-free prefix. */
  lemma {:induction false} RemoveSpacesKeepsPrefix(s: string, p: string)
    requires StartsWith(s, p) && NoSpaces(p)
    ensures StartsWith(RemoveSpaces(s), p)
  {
    if p != [] {
      assert s[0] == p[0];
      assert s[1..][..|p| - 1] == p[1..];
      RemoveSpacesKeepsPrefix(s[1..], p[1..]);
    }
  }

  const HttpScheme := "http://"

  /** Neither typo pattern can start inside a leading `http://`. */
  lemma NoTypoInHttp(s: string)
    requires StartsWith(s, HttpScheme)
    ensures forall k: nat | k < |HttpScheme| :: !OccursAt(s, HostTypo, k) && !OccursAt(s, TldTypo, k)
  {
    assert s[..7] == HttpScheme;
    assert s[0] == 'h' && s[1] == 't' && s[2] == 't' && s[3] == 'p' && s[4] == ':' && s[5] == '/' && s[6] == '/';
  }

  /** Neither typo correction touches a leading `http://`. */
  lemma FixTyposKeepsHttp(s: string)
    requires StartsWith(s, HttpScheme)
    ensures StartsWith(FixTypos(s), HttpScheme)
  {
    NoTypoInHttp(s);
    var s1 := ReplaceFirst(s, HostTypo, HostFix);
    ReplaceFirstKeepsPrefix(s, HostTypo, HostFix, HttpScheme);
    NoTypoInHttp(s1);
    ReplaceFirstKeepsPrefix(s1, TldTypo, TldFix, HttpScheme);
  }

  lemma HttpSchemeNoSpaces()
    ensures NoSpaces(HttpScheme)
  {
    forall i | 0 <= i < |HttpScheme| ensures !IsSpace(HttpScheme[i]) {
      AsciiSpaces(HttpScheme[i]);
    }
  }

  /** A reference that already starts with `http://` keeps that scheme: it is never
      upgraded to `https://`. */
  lemma CleanUrlKeepsHttp(s: string)
    requires StartsWith(s, HttpScheme)
    ensures CleanUrl(Some(s)).Some? && StartsWith(CleanUrl(Some(s)).value, HttpScheme)
  {
    FixTyposKeepsHttp(s);
    HttpSchemeNoSpaces();
    RemoveSpacesKeepsPrefix(FixTypos(s), HttpScheme);
    assert StartsWith(Cleaned(s), HttpScheme);
  }
}
