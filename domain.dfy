/**
 * The grouping key of a tab: its hostname with `"www."` removed
 * (`new URL(url).hostname.replace('www.', '')`). `String.prototype.replace` with a
 * string pattern removes only the FIRST occurrence, wherever it is in the hostname.
 */
module Domain {
  import opened Wrappers

  const WWW: string := "www."

  predicate OccursAt(s: string, pat: string, i: nat) {
    i + |pat| <= |s| && s[i..i + |pat|] == pat
  }

  /** The first position at or after `from` where `pat` occurs in `s`. */
  function IndexOf(s: string, pat: string, from: nat): (r: Option<nat>)
    decreases |s| - from
    ensures r.Some? ==> from <= r.value && OccursAt(s, pat, r.value)
    ensures r.Some? ==> forall i :: from <= i < r.value ==> !OccursAt(s, pat, i)
    ensures r.None? ==> forall i :: from <= i ==> !OccursAt(s, pat, i)
  {
    if from + |pat| > |s| then None
    else if s[from..from + |pat|] == pat then Some(from)
    else IndexOf(s, pat, from + 1)
  }

  /** `s.replace(pat, "")`: the first occurrence of `pat` is cut out, the rest is kept. */
  function RemoveFirst(s: string, pat: string): (r: string)
    ensures (forall i :: !OccursAt(s, pat, i)) ==> r == s
  {
    match IndexOf(s, pat, 0)
    case None => s
    case Some(i) => s[..i] + s[i + |pat|..]
  }

  /**
   * `getDomain`: `host` is what the URL parser gives for the tab's URL, `None` when
   * it throws; a URL that does not parse has the empty domain.
   */
  function GetDomain(host: Option<string>): (d: string)
    ensures host.None? ==> d == ""
    ensures host.Some? && (forall i :: !OccursAt(host.value, WWW, i)) ==> d == host.value
  {
    match host
    case None => ""
    case Some(h) => RemoveFirst(h, WWW)
  }

  /** Where `"www."` occurs, exactly its first occurrence is removed, whatever precedes it. */
  lemma GetDomainRemovesFirstWww(h: string, i: nat)
    requires OccursAt(h, WWW, i)
    requires forall j :: 0 <= j < i ==> !OccursAt(h, WWW, j)
    ensures GetDomain(Some(h)) == h[..i] + h[i + 4..]
    ensures |GetDomain(Some(h))| == |h| - 4
  {
  }
}
