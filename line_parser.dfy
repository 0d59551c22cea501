/**
 * The line parser: `extract_srcip` searches a log line for the regular
 * expression `srcip=([\d\.]+)` and returns the captured group of the
 * leftmost match, or nothing. Here `\d` is the ASCII digits 0-9, and the
 * octets of the address are not range-checked (`999.1` is accepted).
 */
module LineParser {
  import opened Wrappers

  /** The literal key the pattern is anchored to. */
  const Key: string := "srcip="

  /** A character of the class `[\d\.]`. */
  predicate IsIpChar(c: char)
  {
    ('0' <= c <= '9') || c == '.'
  }

  /** The pattern matches at position i: the key, then at least one address character. */
  predicate MatchAt(s: string, i: int)
  {
    0 <= i && i + |Key| < |s| && s[i..i + |Key|] == Key && IsIpChar(s[i + |Key|])
  }

  /** j is the leftmost match at or after position i. */
  ghost predicate FirstMatchFrom(s: string, i: int, j: int)
  {
    i <= j && MatchAt(s, j) && forall k :: i <= k < j ==> !MatchAt(s, k)
  }

  /** ip is the longest run of address characters starting at position k (what a greedy `+` captures). */
  ghost predicate MaximalRunAt(s: string, k: int, ip: string)
  {
    && 0 <= k && k + |ip| <= |s|
    && s[k..k + |ip|] == ip
    && (forall c :: c in ip ==> IsIpChar(c))
    && (k + |ip| == |s| || !IsIpChar(s[k + |ip|]))
  }

  /** The greedy `[\d\.]+` run starting at k. */
  function RunFrom(s: string, k: nat): string
    requires k <= |s|
    decreases |s| - k
  {
    if k < |s| && IsIpChar(s[k]) then [s[k]] + RunFrom(s, k + 1) else []
  }

  /** The search of `re.search`: try position i, and move one position to the right when the pattern does not match there. */
  function ExtractFrom(s: string, i: nat): Option<string>
    requires i <= |s|
    decreases |s| - i
  {
    if i == |s| then None
    else if MatchAt(s, i) then Some(RunFrom(s, i + |Key|))
    else ExtractFrom(s, i + 1)
  }

  /** extract_srcip: the address after the leftmost `srcip=` that is followed by a digit or a dot. */
  function ExtractSrcIp(line: string): Option<string>
  {
    ExtractFrom(line, 0)
  }

  /** The run is what a greedy `+` captures: it lies in the line at k and cannot be extended. */
  lemma {:induction false} RunFromIsMaximal(s: string, k: nat)
    requires k <= |s|
    ensures MaximalRunAt(s, k, RunFrom(s, k))
    decreases |s| - k
  {
    if k < |s| && IsIpChar(s[k]) {
      RunFromIsMaximal(s, k + 1);
      var rest := RunFrom(s, k + 1);
      assert s[k..k + 1 + |rest|] == [s[k]] + s[k + 1..k + 1 + |rest|];
    }
  }

  /** The search from i finds nothing exactly when no match starts at or after i, and otherwise the run after the leftmost one. */
  lemma {:induction false} ExtractFromSpec(s: string, i: nat)
    requires i <= |s|
    ensures ExtractFrom(s, i).None? <==> forall j :: i <= j < |s| ==> !MatchAt(s, j)
    ensures ExtractFrom(s, i).Some? ==>
      exists j :: FirstMatchFrom(s, i, j) && MaximalRunAt(s, j + |Key|, ExtractFrom(s, i).value)
    decreases |s| - i
  {
    if i == |s| {
    } else if MatchAt(s, i) {
      RunFromIsMaximal(s, i + |Key|);
      assert FirstMatchFrom(s, i, i);
    } else {
      ExtractFromSpec(s, i + 1);
      var r := ExtractFrom(s, i + 1);
      if r.Some? {
        var j :| FirstMatchFrom(s, i + 1, j) && MaximalRunAt(s, j + |Key|, r.value);
        assert FirstMatchFrom(s, i, j);
      }
    }
  }

  /**
   * extract_srcip gives None exactly when no `srcip=` in the line is followed
   * by a digit or a dot; otherwise a non-empty run of digits and dots, the
   * longest one after the leftmost such key.
   */
  lemma ExtractSrcIpSpec(line: string)
    ensures ExtractSrcIp(line).None? <==> forall j :: 0 <= j < |line| ==> !MatchAt(line, j)
    ensures ExtractSrcIp(line).Some? ==>
      var ip := ExtractSrcIp(line).value;
      && |ip| > 0
      && (forall c :: c in ip ==> IsIpChar(c))
      && exists j :: FirstMatchFrom(line, 0, j) && MaximalRunAt(line, j + |Key|, ip)
  {
    ExtractFromSpec(line, 0);
  }

  /** The longest run at a position is unique. */
  lemma MaximalRunUnique(s: string, k: int, a: string, b: string)
    requires MaximalRunAt(s, k, a) && MaximalRunAt(s, k, b)
    ensures a == b
  {
  }

  /** The leftmost match is unique. */
  lemma FirstMatchUnique(s: string, i: int, j1: int, j2: int)
    requires FirstMatchFrom(s, i, j1) && FirstMatchFrom(s, i, j2)
    ensures j1 == j2
  {
  }

  /**
   * The converse of ExtractSrcIp's contract: whenever j is the leftmost match
   * and ip the longest run after its key, ExtractSrcIp returns exactly ip.
   */
  lemma ExtractSrcIpComplete(line: string, j: int, ip: string)
    requires FirstMatchFrom(line, 0, j)
    requires MaximalRunAt(line, j + |Key|, ip)
    ensures ExtractSrcIp(line) == Some(ip)
  {
    ExtractSrcIpSpec(line);
    var r := ExtractSrcIp(line);
    assert r.Some?;
    var j' :| FirstMatchFrom(line, 0, j') && MaximalRunAt(line, j' + |Key|, r.value);
    FirstMatchUnique(line, 0, j, j');
    MaximalRunUnique(line, j + |Key|, ip, r.value);
  }

  /**
   * A line of the documented shape: text without an 's', the key, an
   * address, then the end of the line or a character that ends the run.
   * The address is what the parser returns, whether or not its octets are in range.
   */
  lemma ExtractAfterPrefix(p: string, ip: string, q: string)
    requires 's' !in p
    requires |ip| > 0 && forall c :: c in ip ==> IsIpChar(c)
    requires q == [] || !IsIpChar(q[0])
    ensures ExtractSrcIp(p + Key + ip + q) == Some(ip)
  {
    var s := p + Key + ip + q;
    var j := |p|;
    assert s[j..j + |Key|] == Key;
    assert s[j + |Key|..j + |Key| + |ip|] == ip;
    assert s[j + |Key|] == ip[0];
    forall k | 0 <= k < j ensures !MatchAt(s, k) {
      assert s[k] == p[k] && p[k] in p;
      if k + |Key| < |s| {
        assert s[k..k + |Key|][0] == s[k];
      }
    }
    ExtractSrcIpComplete(s, j, ip);
  }
}
