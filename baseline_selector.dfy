/**
 * The selection rule of `confirm_normal_ip`: with no candidates the run
 * ends fatally; otherwise one reply of the operator is accepted only when
 * it is a number n with 1 <= n <= the number of candidates, and then the
 * baseline is the n-th item of the dictionary in insertion order.
 */
module BaselineSelector {
  import opened Wrappers
  import opened Aggregator

  /** What one reply leads to: the fatal exit, a re-prompt, or the chosen baseline. */
  datatype Selection = NoCandidates | Rejected | Chosen(baseline: Candidate)

  /** `reply` is the parsed answer: None when `int(...)` raises ValueError. */
  function ConfirmNormalIp(candidates: seq<Candidate>, reply: Option<int>): (r: Selection)
    ensures r.NoCandidates? <==> candidates == []
    ensures r.Rejected? <==> candidates != [] && (reply.None? || reply.value < 1 || |candidates| < reply.value)
    ensures r.Chosen? ==> r.baseline in candidates
    ensures r.Chosen? ==>
      reply.Some? && 1 <= reply.value <= |candidates| && r.baseline == candidates[reply.value - 1]
  {
    if candidates == [] then NoCandidates
    else match reply
      case None => Rejected
      case Some(n) =>
        if 1 <= n <= |candidates| then Chosen(candidates[n - 1]) else Rejected
  }

  /** Every candidate can be chosen, by its 1-based position in the list. */
  lemma EveryCandidateSelectable(candidates: seq<Candidate>, k: int)
    requires 0 <= k < |candidates|
    ensures ConfirmNormalIp(candidates, Some(k + 1)) == Chosen(candidates[k])
  {
  }

  /**
   * A chosen baseline is an item of `candidate_ips`: looking its address up
   * gives back its location, and different numbers choose different addresses.
   */
  lemma ChosenIsCandidate(candidates: seq<Candidate>, n: int, m: int)
    requires DistinctKeys(candidates)
    requires ConfirmNormalIp(candidates, Some(n)).Chosen?
    ensures var b := ConfirmNormalIp(candidates, Some(n)).baseline;
      Get(candidates, b.ip) == Some(b.location)
    ensures ConfirmNormalIp(candidates, Some(m)).Chosen? && m != n ==>
      ConfirmNormalIp(candidates, Some(m)).baseline.ip != ConfirmNormalIp(candidates, Some(n)).baseline.ip
  {
    GetItem(candidates, n - 1);
  }
}
