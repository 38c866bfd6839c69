/**
 * The domain test of the download-naming listener in bunkr/background.js:
 * the regular expression `/\/\/[^/]*bunkr/i` searched for anywhere in the URL.
 */
module Domain {

  /** ASCII lower case; what the `i` flag of a non-Unicode regular expression folds. */
  function LowerAscii(c: char): char {
    if 'A' <= c <= 'Z' then (c as int + 32) as char else c
  }

  /** "bunkr", in any mix of ASCII cases, starts at position `j` of `u`. */
  predicate BunkrAt(u: string, j: int) {
    0 <= j && j + 5 <= |u| && forall k :: 0 <= k < 5 ==> LowerAscii(u[j + k]) == "bunkr"[k]
  }

  /** No slash at the positions `lo` .. `hi - 1` of `u`. */
  predicate NoSlash(u: string, lo: int, hi: int) {
    forall i :: 0 <= lo <= i < hi <= |u| ==> u[i] != '/'
  }

  /** `//` stands at position `i` of `u` and no slash follows it before position `k`. */
  ghost predicate HostAfter(u: string, i: int, k: int) {
    0 <= i && i + 2 <= k <= |u| && u[i] == '/' && u[i + 1] == '/' && NoSlash(u, i + 2, k)
  }

  /**
   * Position `k` of `u` follows some `//` with no slash in between: what the
   * `//[^/]*` part of the pattern can reach. This is usually the host part of
   * the URL, but a `//` in a path or query counts too.
   */
  ghost predicate InHost(u: string, k: int) {
    exists i :: HostAfter(u, i, k)
  }

  /**
   * The meaning of the regular expression: a `//`, then any number of
   * characters other than `/`, then "bunkr" in any case.
   */
  ghost predicate MatchesDomain(u: string) {
    exists i, j :: HostAfter(u, i, j) && BunkrAt(u, j)
  }

  /**
   * A left-to-right scan of `u` from position `k`; `inHost` records whether
   * a `//` with no slash after it precedes `k`.
   */
  function Scan(u: string, k: nat, inHost: bool): (b: bool)
    requires k <= |u|
    // started with the right `inHost`, the scan finds "bunkr" in a host part at or after `k`, and nothing else
    ensures inHost == InHost(u, k) ==> (b <==> exists j :: k <= j && InHost(u, j) && BunkrAt(u, j))
    decreases |u| - k
  {
    if k == |u| then false
    else if inHost && BunkrAt(u, k) then true
    else
      InHostStep(u, k);
      Scan(u, k + 1, if u[k] == '/' then k >= 1 && u[k - 1] == '/' else inHost)
  }

  /** The `isBunkr` test on a URL. */
  function IsBunkrUrl(u: string): (b: bool)
    ensures b <==> MatchesDomain(u)
  {
    assert MatchesDomain(u) ==> exists j :: 0 <= j && InHost(u, j) && BunkrAt(u, j) by {
      if MatchesDomain(u) {
        var i, j :| HostAfter(u, i, j) && BunkrAt(u, j);
        assert InHost(u, j);
      }
    }
    Scan(u, 0, false)
  }

  /** How reading the character at `k` moves the scan in or out of a host part. */
  lemma InHostStep(u: string, k: nat)
    requires k < |u|
    ensures InHost(u, k + 1) == if u[k] == '/' then k >= 1 && u[k - 1] == '/' else InHost(u, k)
  {
    if u[k] == '/' {
      if k >= 1 && u[k - 1] == '/' {
        assert HostAfter(u, k - 1, k + 1);
      }
      if InHost(u, k + 1) {
        var i :| HostAfter(u, i, k + 1);
        assert i == k - 1;
      }
    } else {
      if InHost(u, k) {
        var i :| HostAfter(u, i, k);
        assert HostAfter(u, i, k + 1);
      }
      if InHost(u, k + 1) {
        var i :| HostAfter(u, i, k + 1);
        assert HostAfter(u, i, k);
      }
    }
  }
}
