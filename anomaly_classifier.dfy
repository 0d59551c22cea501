/**
 * The anomaly loop of `unusual_login_check`: entries of `logs` are kept,
 * in order, when their address is not the baseline address or their
 * location is not the baseline location.
 */
module AnomalyClassifier {
  import opened Aggregator

  /** The loop's condition, as written in fls.py. */
  predicate IsAnomalous(e: Entry, normalIp: string, normalLocation: Location)
    ensures IsAnomalous(e, normalIp, normalLocation) <==> (e.ip != normalIp || e.location != normalLocation)
  {
    e.ip != normalIp || (e.ip == normalIp && e.location != normalLocation)
  }

  /** `anomalies` once the loop has seen `logs`. */
  function Anomalies(logs: seq<Entry>, normalIp: string, normalLocation: Location): seq<Entry>
  {
    if logs == [] then []
    else
      var prefix := Anomalies(logs[..|logs| - 1], normalIp, normalLocation);
      var e := logs[|logs| - 1];
      if IsAnomalous(e, normalIp, normalLocation) then prefix + [e] else prefix
  }

  /** The loop at the end of unusual_login_check. */
  method FindAnomalies(logs: seq<Entry>, normalIp: string, normalLocation: Location)
    returns (anomalies: seq<Entry>)
    ensures anomalies == Anomalies(logs, normalIp, normalLocation)
    ensures forall e :: e in anomalies ==> e in logs && (e.ip != normalIp || e.location != normalLocation)
    ensures forall e :: e in logs && (e.ip != normalIp || e.location != normalLocation) ==> e in anomalies
  {
    anomalies := [];
    for i := 0 to |logs|
      invariant anomalies == Anomalies(logs[..i], normalIp, normalLocation)
    {
      assert logs[..i + 1][..i] == logs[..i];
      var e := logs[i];
      if e.ip != normalIp || (e.ip == normalIp && e.location != normalLocation) {
        anomalies := anomalies + [e];
      }
    }
    assert logs[..|logs|] == logs;
    AnomaliesAreAnomalousEntries(logs, normalIp, normalLocation);
  }

  /** The positions in `logs` of the anomalous entries, in order. */
  ghost function AnomalousIndices(logs: seq<Entry>, normalIp: string, normalLocation: Location): seq<nat>
  {
    if logs == [] then []
    else
      var prefix := AnomalousIndices(logs[..|logs| - 1], normalIp, normalLocation);
      if IsAnomalous(logs[|logs| - 1], normalIp, normalLocation) then prefix + [|logs| - 1] else prefix
  }

  /**
   * The anomaly list is the order-preserving subsequence of `logs` made of
   * exactly the entries whose address or location differs from the baseline.
   */
  lemma {:induction false} AnomaliesAreAnomalousEntries(logs: seq<Entry>, normalIp: string, normalLocation: Location)
    ensures var out, idx := Anomalies(logs, normalIp, normalLocation), AnomalousIndices(logs, normalIp, normalLocation);
      && |idx| == |out|
      && Increasing(idx)
      && (forall k :: 0 <= k < |idx| ==> idx[k] < |logs| && out[k] == logs[idx[k]])
      && (forall i :: 0 <= i < |logs| ==>
            (i in idx <==> logs[i].ip != normalIp || logs[i].location != normalLocation))
  {
    if logs != [] {
      var n := |logs| - 1;
      var init := logs[..n];
      AnomaliesAreAnomalousEntries(init, normalIp, normalLocation);
      var idx0 := AnomalousIndices(init, normalIp, normalLocation);
      assert forall i :: 0 <= i < n ==> init[i] == logs[i];
      assert forall k :: 0 <= k < |idx0| ==> idx0[k] < n;
    }
  }

  /** Every reported entry is an entry of `logs` that differs from the baseline. */
  lemma {:induction false} AnomaliesOnlyAnomalous(logs: seq<Entry>, normalIp: string, normalLocation: Location)
    ensures forall e :: e in Anomalies(logs, normalIp, normalLocation) ==> e in logs && IsAnomalous(e, normalIp, normalLocation)
  {
    if logs != [] {
      var n := |logs| - 1;
      AnomaliesOnlyAnomalous(logs[..n], normalIp, normalLocation);
      assert forall e :: e in logs[..n] ==> e in logs;
    }
  }
}
