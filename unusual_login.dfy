/**
 * The check `unusual_login_check` once the log file has been read: gather
 * the candidates, apply the operator's reply, and classify `logs` against
 * the chosen baseline. Reading the file, the GeoIP reader's lifetime and the
 * printed report are outside the model.
 */
module UnusualLogin {
  import opened Wrappers
  import opened LineParser
  import opened Aggregator
  import opened BaselineSelector
  import opened AnomalyClassifier

  /** How the check ends for one reply: fatal exit, re-prompt, or the anomaly list to report. */
  datatype Outcome =
    | NoCandidatesFatal
    | SelectionRejected
    | Report(normalIp: string, normalLocation: Location, anomalies: seq<Entry>)

  method UnusualLoginCheck(lines: seq<string>, lookup: string -> Option<Location>, reply: Option<int>)
    returns (r: Outcome)
    ensures r.NoCandidatesFatal? <==> forall i :: 0 <= i < |lines| ==> !Qualifies(lines[i], lookup)
    ensures r.SelectionRejected? <==> ConfirmNormalIp(FirstSeen(Logs(lines, lookup)), reply).Rejected?
    ensures r.Report? ==>
      && ConfirmNormalIp(FirstSeen(Logs(lines, lookup)), reply) == Chosen(Candidate(r.normalIp, r.normalLocation))
      && lookup(r.normalIp) == Some(r.normalLocation)
      && r.anomalies == Anomalies(Logs(lines, lookup), r.normalIp, r.normalLocation)
  {
    var candidates, logs := GatherNormalCandidates(lines, lookup);
    NoCandidatesIffNoQualifyingLine(lines, lookup);
    var selection := ConfirmNormalIp(candidates, reply);
    match selection
    case NoCandidates =>
      r := NoCandidatesFatal;
    case Rejected =>
      r := SelectionRejected;
    case Chosen(baseline) =>
      BaselineLocationResolves(lines, lookup, reply);
      var anomalies := FindAnomalies(logs, baseline.ip, baseline.location);
      r := Report(baseline.ip, baseline.location, anomalies);
  }

  /** The fatal "no candidates" exit happens exactly when no line has an address whose lookup succeeds. */
  lemma NoCandidatesIffNoQualifyingLine(lines: seq<string>, lookup: string -> Option<Location>)
    ensures FirstSeen(Logs(lines, lookup)) == [] <==> forall i :: 0 <= i < |lines| ==> !Qualifies(lines[i], lookup)
  {
    var logs := Logs(lines, lookup);
    LogsAreQualifyingLines(lines, lookup);
    FirstSeenKeys(logs);
    var idx := QualifyingIndices(lines, lookup);
    if logs != [] {
      assert logs[0].ip in IpsOf(logs);
      assert FirstSeen(logs) != [] by {
        assert logs[0].ip in KeySet(FirstSeen(logs));
      }
      assert idx[0] < |lines| && Qualifies(lines[idx[0]], lookup);
    } else {
      assert FirstSeen(logs) == [];
      forall i | 0 <= i < |lines| ensures !Qualifies(lines[i], lookup) {
        assert i !in idx;
      }
    }
  }

  /**
   * The chosen baseline came from a successful lookup of its own address,
   * so the re-lookup in fls.py when the baseline location is None cannot be reached.
   */
  lemma BaselineLocationResolves(lines: seq<string>, lookup: string -> Option<Location>, reply: Option<int>)
    requires ConfirmNormalIp(FirstSeen(Logs(lines, lookup)), reply).Chosen?
    ensures var b := ConfirmNormalIp(FirstSeen(Logs(lines, lookup)), reply).baseline;
      lookup(b.ip) == Some(b.location)
  {
    var logs := Logs(lines, lookup);
    var c := FirstSeen(logs);
    var b := ConfirmNormalIp(c, reply).baseline;
    LogsAreQualifyingLines(lines, lookup);
    FirstSeenIsFirstOccurrences(logs);
    var pos := FirstPositions(logs);
    var a :| 0 <= a < |c| && c[a] == b;
    assert pos[a] < |logs|;
    assert logs[pos[a]].ip == b.ip && logs[pos[a]].location == b.location;
  }

  /** A list keeps fewer elements than `logs` when some entry of `logs` is not anomalous. */
  lemma {:induction false} AnomaliesShorter(logs: seq<Entry>, k: int, normalIp: string, normalLocation: Location)
    requires 0 <= k < |logs| && !IsAnomalous(logs[k], normalIp, normalLocation)
    ensures |Anomalies(logs, normalIp, normalLocation)| < |logs|
  {
    var n := |logs| - 1;
    var init := logs[..n];
    AnomaliesNoLonger(init, normalIp, normalLocation);
    if k < n {
      assert init[k] == logs[k];
      AnomaliesShorter(init, k, normalIp, normalLocation);
    }
  }

  lemma {:induction false} AnomaliesNoLonger(logs: seq<Entry>, normalIp: string, normalLocation: Location)
    ensures |Anomalies(logs, normalIp, normalLocation)| <= |logs|
  {
    if logs != [] {
      AnomaliesNoLonger(logs[..|logs| - 1], normalIp, normalLocation);
    }
  }

  /**
   * With a baseline chosen from `candidate_ips`, the first entry of `logs`
   * with the baseline address is never reported, so the report never holds
   * every entry.
   */
  lemma FirstBaselineEntryNotAnomalous(lines: seq<string>, lookup: string -> Option<Location>, reply: Option<int>)
    requires ConfirmNormalIp(FirstSeen(Logs(lines, lookup)), reply).Chosen?
    ensures var logs := Logs(lines, lookup);
      var b := ConfirmNormalIp(FirstSeen(logs), reply).baseline;
      var anomalies := Anomalies(logs, b.ip, b.location);
      && (exists k :: IsFirstOccurrence(logs, k) && logs[k].ip == b.ip && logs[k] !in anomalies)
      && |anomalies| < |logs|
  {
    var logs := Logs(lines, lookup);
    var c := FirstSeen(logs);
    var b := ConfirmNormalIp(c, reply).baseline;
    var anomalies := Anomalies(logs, b.ip, b.location);
    FirstSeenIsFirstOccurrences(logs);
    var pos := FirstPositions(logs);
    var a :| 0 <= a < |c| && c[a] == b;
    var k := pos[a];
    assert logs[k].ip == b.ip && logs[k].location == b.location;
    AnomaliesOnlyAnomalous(logs, b.ip, b.location);
    assert logs[k] !in anomalies;
    AnomaliesShorter(logs, k, b.ip, b.location);
  }

  /**
   * Within one run the resolver answers the same address the same way, so
   * every entry with the baseline address carries the baseline location:
   * the report is exactly the entries with another address, in order, and
   * the location half of the anomaly condition never decides.
   */
  lemma BaselineReportIsOtherAddresses(lines: seq<string>, lookup: string -> Option<Location>, reply: Option<int>)
    requires ConfirmNormalIp(FirstSeen(Logs(lines, lookup)), reply).Chosen?
    ensures var logs := Logs(lines, lookup);
      var b := ConfirmNormalIp(FirstSeen(logs), reply).baseline;
      var out, idx := Anomalies(logs, b.ip, b.location), AnomalousIndices(logs, b.ip, b.location);
      && (forall k :: 0 <= k < |logs| && logs[k].ip == b.ip ==> logs[k].location == b.location)
      && |idx| == |out|
      && Increasing(idx)
      && (forall k :: 0 <= k < |idx| ==> idx[k] < |logs| && out[k] == logs[idx[k]])
      && (forall i :: 0 <= i < |logs| ==> (i in idx <==> logs[i].ip != b.ip))
  {
    var logs := Logs(lines, lookup);
    var b := ConfirmNormalIp(FirstSeen(logs), reply).baseline;
    LogsAreQualifyingLines(lines, lookup);
    BaselineLocationResolves(lines, lookup, reply);
    AnomaliesAreAnomalousEntries(logs, b.ip, b.location);
  }

  const LosAngeles := Location("US", "CA", "LA")
  const Paris := Location("FR", "IDF", "Paris")

  /** A resolver that knows two addresses. */
  function ScenarioLookup(ip: string): Option<Location>
  {
    if ip == "1.1.1.1" then Some(LosAngeles)
    else if ip == "2.2.2.2" then Some(Paris)
    else None
  }

  /** A login line: a timestamp field, the key, the address, the rest of the line. */
  function LoginLine(stamp: string, ip: string, rest: string): string
  {
    stamp + Key + ip + rest
  }

  /** Each line of the scenario yields its address, and the resolver knows it. */
  lemma ScenarioLineParses(stamp: string, ip: string, rest: string)
    requires 's' !in stamp
    requires rest == [] || !IsIpChar(rest[0])
    requires ip == "1.1.1.1" || ip == "2.2.2.2"
    ensures ParseEntry(LoginLine(stamp, ip, rest), ScenarioLookup) == Some(Entry(LoginLine(stamp, ip, rest), ip, ScenarioLookup(ip).value))
  {
    assert forall c :: c in ip ==> IsIpChar(c);
    ExtractAfterPrefix(stamp, ip, rest);
  }

  /** Three lines that all qualify give three entries. */
  lemma LogsOfThree(line1: string, line2: string, line3: string, e1: Entry, e2: Entry, e3: Entry, lookup: string -> Option<Location>)
    requires ParseEntry(line1, lookup) == Some(e1)
    requires ParseEntry(line2, lookup) == Some(e2)
    requires ParseEntry(line3, lookup) == Some(e3)
    ensures Logs([line1, line2, line3], lookup) == [e1, e2, e3]
  {
    LogsAppendEntry([], line1, e1, lookup);
    LogsAppendEntry([line1], line2, e2, lookup);
    LogsAppendEntry([line1, line2], line3, e3, lookup);
    assert [] + [line1] == [line1];
    assert [line1] + [line2] == [line1, line2];
    assert [line1, line2] + [line3] == [line1, line2, line3];
  }

  lemma ScenarioLogs(stamp1: string, stamp2: string, stamp3: string, rest: string)
    requires 's' !in stamp1 && 's' !in stamp2 && 's' !in stamp3
    requires rest == [] || !IsIpChar(rest[0])
    ensures var line1, line2, line3 := LoginLine(stamp1, "1.1.1.1", rest), LoginLine(stamp2, "2.2.2.2", rest), LoginLine(stamp3, "1.1.1.1", rest);
      Logs([line1, line2, line3], ScenarioLookup)
        == [Entry(line1, "1.1.1.1", LosAngeles), Entry(line2, "2.2.2.2", Paris), Entry(line3, "1.1.1.1", LosAngeles)]
  {
    var line1, line2, line3 := LoginLine(stamp1, "1.1.1.1", rest), LoginLine(stamp2, "2.2.2.2", rest), LoginLine(stamp3, "1.1.1.1", rest);
    var e1, e2, e3 := Entry(line1, "1.1.1.1", LosAngeles), Entry(line2, "2.2.2.2", Paris), Entry(line3, "1.1.1.1", LosAngeles);
    ScenarioLineParses(stamp1, "1.1.1.1", rest);
    ScenarioLineParses(stamp2, "2.2.2.2", rest);
    ScenarioLineParses(stamp3, "1.1.1.1", rest);
    LogsOfThree(line1, line2, line3, e1, e2, e3, ScenarioLookup);
  }

  /**
   * Two entries with one address and location around an entry with another
   * address: both addresses become candidates, first-seen first, and against
   * the first one only the middle entry is anomalous.
   */
  lemma FirstSeenAndAnomaliesOfThree(e1: Entry, e2: Entry, e3: Entry)
    requires e1.ip == e3.ip && e1.location == e3.location && e2.ip != e1.ip
    ensures FirstSeen([e1, e2, e3]) == [Candidate(e1.ip, e1.location), Candidate(e2.ip, e2.location)]
    ensures Anomalies([e1, e2, e3], e1.ip, e1.location) == [e2]
  {
    var logs := [e1, e2, e3];
    assert logs[..2] == [e1, e2] && [e1, e2][..1] == [e1] && [e1][..0] == [];
    var c1 := [Candidate(e1.ip, e1.location)];
    assert FirstSeen([e1]) == c1;
    assert e2.ip !in KeySet(c1);
    var c2 := c1 + [Candidate(e2.ip, e2.location)];
    assert FirstSeen([e1, e2]) == c2;
    assert c2[0].ip == e1.ip;
    assert e3.ip in KeySet(c2);
    assert Anomalies([e1], e1.ip, e1.location) == [];
    assert Anomalies([e1, e2], e1.ip, e1.location) == [e2];
  }

  /**
   * Three logins, the first and last from 1.1.1.1 (Los Angeles), the middle
   * one from 2.2.2.2 (Paris), for instance with the stamps
   * "2024-01-01T10:00:00+00:00 " ... and the rest " action=login":
   * candidate_ips holds both addresses in that order, and choosing number 1
   * reports only the middle line.
   */
  lemma ThreeLoginScenario(stamp1: string, stamp2: string, stamp3: string, rest: string)
    requires 's' !in stamp1 && 's' !in stamp2 && 's' !in stamp3
    requires rest == [] || !IsIpChar(rest[0])
    ensures var line1, line2, line3 := LoginLine(stamp1, "1.1.1.1", rest), LoginLine(stamp2, "2.2.2.2", rest), LoginLine(stamp3, "1.1.1.1", rest);
      var logs := Logs([line1, line2, line3], ScenarioLookup);
      && FirstSeen(logs) == [Candidate("1.1.1.1", LosAngeles), Candidate("2.2.2.2", Paris)]
      && ConfirmNormalIp(FirstSeen(logs), Some(1)) == Chosen(Candidate("1.1.1.1", LosAngeles))
      && Anomalies(logs, "1.1.1.1", LosAngeles) == [Entry(line2, "2.2.2.2", Paris)]
  {
    ScenarioLogs(stamp1, stamp2, stamp3, rest);
    var line1, line2, line3 := LoginLine(stamp1, "1.1.1.1", rest), LoginLine(stamp2, "2.2.2.2", rest), LoginLine(stamp3, "1.1.1.1", rest);
    FirstSeenAndAnomaliesOfThree(Entry(line1, "1.1.1.1", LosAngeles), Entry(line2, "2.2.2.2", Paris), Entry(line3, "1.1.1.1", LosAngeles));
  }
}
