/**
 * The candidate aggregator, `gather_normal_candidates`: one pass over the
 * log lines that builds `logs`, every line whose source address was found
 * and resolved, and `candidate_ips`, an insertion-ordered dictionary from
 * each address to the first location seen for it. The GeoIP reader is the
 * parameter `lookup`; the dictionary is a sequence of pairs with distinct keys.
 */
module Aggregator {
  import opened Wrappers
  import opened LineParser

  /** (country, subdivision, city), each a name or the literal "Unknown". */
  datatype Location = Location(country: string, region: string, city: string)

  /** One element of `logs`: the line, its source address and that address's location. */
  datatype Entry = Entry(line: string, ip: string, location: Location)

  /** One item of `candidate_ips`. */
  datatype Candidate = Candidate(ip: string, location: Location)

  /** What the loop body makes of one line: the entry it appends, or None when it skips the line. */
  function ParseEntry(line: string, lookup: string -> Option<Location>): Option<Entry>
  {
    match ExtractSrcIp(line)
    case None => None
    case Some(ip) =>
      match lookup(ip)
      case None => None
      case Some(location) => Some(Entry(line, ip, location))
  }

  /** The line gets past both `continue`s of the loop. */
  predicate Qualifies(line: string, lookup: string -> Option<Location>)
  {
    ExtractSrcIp(line).Some? && lookup(ExtractSrcIp(line).value).Some?
  }

  /** `logs` after the loop has seen `lines`. */
  function Logs(lines: seq<string>, lookup: string -> Option<Location>): seq<Entry>
  {
    if lines == [] then []
    else
      var prefix := Logs(lines[..|lines| - 1], lookup);
      match ParseEntry(lines[|lines| - 1], lookup)
      case None => prefix
      case Some(e) => prefix + [e]
  }

  /** The keys of the ordered dictionary. */
  function KeySet(c: seq<Candidate>): set<string>
  {
    set k | 0 <= k < |c| :: c[k].ip
  }

  /** The addresses occurring in `logs`. */
  function IpsOf(logs: seq<Entry>): set<string>
  {
    set k | 0 <= k < |logs| :: logs[k].ip
  }

  ghost predicate DistinctKeys(c: seq<Candidate>)
  {
    forall a, b :: 0 <= a < b < |c| ==> c[a].ip != c[b].ip
  }

  /** `candidate_ips` after the loop has appended `logs`: an address is inserted only when it is not yet a key. */
  function FirstSeen(logs: seq<Entry>): seq<Candidate>
  {
    if logs == [] then []
    else
      var c := FirstSeen(logs[..|logs| - 1]);
      var e := logs[|logs| - 1];
      if e.ip in KeySet(c) then c else c + [Candidate(e.ip, e.location)]
  }

  /** The dictionary lookup `candidate_ips[ip]`, None when ip is not a key. */
  function Get(c: seq<Candidate>, ip: string): (r: Option<Location>)
    ensures r.Some? <==> ip in KeySet(c)
    ensures r.Some? ==> Candidate(ip, r.value) in c
  {
    if c == [] then None
    else if c[0].ip == ip then Some(c[0].location)
    else
      assert KeySet(c) == {c[0].ip} + KeySet(c[1..]) by {
        forall x | x in KeySet(c) ensures x in {c[0].ip} + KeySet(c[1..]) {
          var k :| 0 <= k < |c| && c[k].ip == x;
          if k > 0 { assert c[1..][k - 1] == c[k]; }
        }
      }
      Get(c[1..], ip)
  }

  /** gather_normal_candidates, with the reader replaced by `lookup`. */
  method GatherNormalCandidates(lines: seq<string>, lookup: string -> Option<Location>)
    returns (candidates: seq<Candidate>, logs: seq<Entry>)
    ensures logs == Logs(lines, lookup)
    ensures candidates == FirstSeen(logs)
    ensures DistinctKeys(candidates) && KeySet(candidates) == IpsOf(logs)
  {
    candidates, logs := [], [];
    var seen: set<string> := {};
    for i := 0 to |lines|
      invariant logs == Logs(lines[..i], lookup)
      invariant candidates == FirstSeen(logs)
      invariant seen == KeySet(candidates)
    {
      assert lines[..i + 1][..i] == lines[..i];
      var line := lines[i];
      var srcIp := ExtractSrcIp(line);
      if srcIp.None? {
        continue;
      }
      var location := lookup(srcIp.value);
      if location.None? {
        continue;
      }
      var e := Entry(line, srcIp.value, location.value);
      assert (logs + [e])[..|logs|] == logs;
      logs := logs + [e];
      if srcIp.value !in seen {
        KeySetAppend(candidates, Candidate(srcIp.value, location.value));
        candidates := candidates + [Candidate(srcIp.value, location.value)];
        seen := seen + {srcIp.value};
      }
    }
    assert lines[..|lines|] == lines;
    FirstSeenDistinct(logs);
    FirstSeenKeys(logs);
  }

  lemma KeySetAppend(c: seq<Candidate>, x: Candidate)
    ensures KeySet(c + [x]) == KeySet(c) + {x.ip}
  {
    forall y | y in KeySet(c) ensures y in KeySet(c + [x]) {
      var k :| 0 <= k < |c| && c[k].ip == y;
      assert (c + [x])[k] == c[k];
    }
    assert (c + [x])[|c|] == x;
  }

  ghost predicate Increasing(idx: seq<nat>)
  {
    forall a, b :: 0 <= a < b < |idx| ==> idx[a] < idx[b]
  }

  /** The positions of the lines that qualify, in order. */
  ghost function QualifyingIndices(lines: seq<string>, lookup: string -> Option<Location>): seq<nat>
  {
    if lines == [] then []
    else
      var prefix := QualifyingIndices(lines[..|lines| - 1], lookup);
      if Qualifies(lines[|lines| - 1], lookup) then prefix + [|lines| - 1] else prefix
  }

  /**
   * `logs` is the subsequence of the lines that qualify, in file order, one
   * entry per qualifying line, and each entry holds its line's extracted
   * address and that address's successful lookup.
   */
  lemma {:induction false} LogsAreQualifyingLines(lines: seq<string>, lookup: string -> Option<Location>)
    ensures var logs, idx := Logs(lines, lookup), QualifyingIndices(lines, lookup);
      && |idx| == |logs|
      && Increasing(idx)
      && (forall k :: 0 <= k < |idx| ==>
            && idx[k] < |lines|
            && logs[k].line == lines[idx[k]]
            && ExtractSrcIp(logs[k].line) == Some(logs[k].ip)
            && lookup(logs[k].ip) == Some(logs[k].location))
      && (forall i :: 0 <= i < |lines| ==> (i in idx <==> Qualifies(lines[i], lookup)))
  {
    if lines != [] {
      var n := |lines| - 1;
      var init := lines[..n];
      assert lines == init + [lines[n]];
      LogsAreQualifyingLines(init, lookup);
      LogsStep(init, lines[n], lookup);
      var idx0 := QualifyingIndices(init, lookup);
      assert forall i :: 0 <= i < n ==> init[i] == lines[i];
      assert forall k :: 0 <= k < |idx0| ==> idx0[k] < n;
    }
  }

  /** Lines with no address, or whose lookup fails, leave `logs` unchanged; qualifying lines append one entry. */
  lemma LogsStep(lines: seq<string>, line: string, lookup: string -> Option<Location>)
    ensures !Qualifies(line, lookup) ==> Logs(lines + [line], lookup) == Logs(lines, lookup)
    ensures Qualifies(line, lookup) ==>
      Logs(lines + [line], lookup) == Logs(lines, lookup)
        + [Entry(line, ExtractSrcIp(line).value, lookup(ExtractSrcIp(line).value).value)]
  {
    assert (lines + [line])[..|lines|] == lines;
  }

  /** A line the loop body turns into the entry e appends e to `logs`. */
  lemma LogsAppendEntry(lines: seq<string>, line: string, e: Entry, lookup: string -> Option<Location>)
    requires ParseEntry(line, lookup) == Some(e)
    ensures Logs(lines + [line], lookup) == Logs(lines, lookup) + [e]
  {
    assert (lines + [line])[..|lines|] == lines;
  }

  /** Entry k is the first entry of `logs` with its address. */
  ghost predicate IsFirstOccurrence(logs: seq<Entry>, k: int)
  {
    0 <= k < |logs| && forall j :: 0 <= j < k ==> logs[j].ip != logs[k].ip
  }

  /** The positions in `logs` of the first entry of each address, in order. */
  ghost function FirstPositions(logs: seq<Entry>): seq<nat>
  {
    if logs == [] then []
    else
      var prefix := FirstPositions(logs[..|logs| - 1]);
      if IsFirstOccurrence(logs, |logs| - 1) then prefix + [|logs| - 1] else prefix
  }

  lemma IpsOfAppend(logs: seq<Entry>, e: Entry)
    ensures IpsOf(logs + [e]) == IpsOf(logs) + {e.ip}
  {
    forall x | x in IpsOf(logs) ensures x in IpsOf(logs + [e]) {
      var k :| 0 <= k < |logs| && logs[k].ip == x;
      assert (logs + [e])[k] == logs[k];
    }
    assert (logs + [e])[|logs|] == e;
  }

  /** The keys of `candidate_ips` are exactly the addresses in `logs`. */
  lemma {:induction false} FirstSeenKeys(logs: seq<Entry>)
    ensures KeySet(FirstSeen(logs)) == IpsOf(logs)
  {
    if logs != [] {
      var n := |logs| - 1;
      var init, e := logs[..n], logs[n];
      assert logs == init + [e];
      FirstSeenKeys(init);
      IpsOfAppend(init, e);
      if e.ip !in KeySet(FirstSeen(init)) {
        KeySetAppend(FirstSeen(init), Candidate(e.ip, e.location));
      }
    }
  }

  /** The last entry is a first occurrence exactly when its address is new. */
  lemma LastIsFirstOccurrence(logs: seq<Entry>)
    requires logs != []
    ensures IsFirstOccurrence(logs, |logs| - 1) <==> logs[|logs| - 1].ip !in IpsOf(logs[..|logs| - 1])
  {
    var n := |logs| - 1;
    if logs[n].ip in IpsOf(logs[..n]) {
      var k :| 0 <= k < n && logs[..n][k].ip == logs[n].ip;
      assert logs[k].ip == logs[n].ip;
    }
  }

  /**
   * `candidate_ips` is the subsequence of first occurrences in `logs`: its
   * items are the (address, location) of each address's first entry, in
   * first-seen order, and every address's first entry is among them.
   */
  lemma {:induction false} FirstSeenIsFirstOccurrences(logs: seq<Entry>)
    ensures var c, pos := FirstSeen(logs), FirstPositions(logs);
      && |pos| == |c|
      && Increasing(pos)
      && (forall a :: 0 <= a < |pos| ==>
            && IsFirstOccurrence(logs, pos[a])
            && c[a] == Candidate(logs[pos[a]].ip, logs[pos[a]].location))
      && (forall k :: IsFirstOccurrence(logs, k) ==> k in pos)
  {
    if logs != [] {
      var n := |logs| - 1;
      var init := logs[..n];
      FirstSeenIsFirstOccurrences(init);
      FirstSeenKeys(init);
      LastIsFirstOccurrence(logs);
      var pos0 := FirstPositions(init);
      assert forall k :: 0 <= k < n ==> init[k] == logs[k];
      assert forall k :: 0 <= k < n ==> (IsFirstOccurrence(init, k) <==> IsFirstOccurrence(logs, k));
      assert forall a :: 0 <= a < |pos0| ==> pos0[a] < n;
    }
  }

  /** Each address is a key of `candidate_ips` at most once. */
  lemma FirstSeenDistinct(logs: seq<Entry>)
    ensures DistinctKeys(FirstSeen(logs))
  {
    FirstSeenIsFirstOccurrences(logs);
    var c, pos := FirstSeen(logs), FirstPositions(logs);
    forall a, b | 0 <= a < b < |c| ensures c[a].ip != c[b].ip {
      assert pos[a] < pos[b];
      assert IsFirstOccurrence(logs, pos[b]);
    }
  }

  /** In a dictionary with distinct keys, an item's key looks up its own value. */
  lemma GetItem(c: seq<Candidate>, k: int)
    requires DistinctKeys(c) && 0 <= k < |c|
    ensures Get(c, c[k].ip) == Some(c[k].location)
  {
    var r := Get(c, c[k].ip);
    assert c[k].ip in KeySet(c);
    var k' :| 0 <= k' < |c| && c[k'] == Candidate(c[k].ip, r.value);
    assert k' == k;
  }

  /**
   * The stored location of an address is that of its first entry in `logs`:
   * later entries with the same address and another location do not update it.
   */
  lemma FirstSeenKeepsFirstLocation(logs: seq<Entry>, k: int, m: int)
    requires IsFirstOccurrence(logs, k)
    requires k <= m < |logs| && logs[m].ip == logs[k].ip
    ensures Get(FirstSeen(logs), logs[m].ip) == Some(logs[k].location)
  {
    FirstSeenIsFirstOccurrences(logs);
    FirstSeenDistinct(logs);
    var c, pos := FirstSeen(logs), FirstPositions(logs);
    var a :| 0 <= a < |pos| && pos[a] == k;
    GetItem(c, a);
  }
}
