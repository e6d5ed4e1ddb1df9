/** Reading a trace backwards: the part of it since the last action of some sort. */
module AddressTrace {
  import opened AutoAddress
  import opened AddressRun

  datatype Mark = AtCandidate | AtDhcp | AtClaim | AtDhcpProbe

  predicate Marks(m: Mark, o: Observation) {
    o.Acted? &&
    match m
    case AtCandidate => o.action.Candidate?
    case AtDhcp => o.action.Dhcp?
    case AtClaim => o.action.Claim?
    case AtDhcpProbe => o.action.DhcpProbe?
  }

  /** The trace from its last mark on, or all of it if there is no mark. */
  function Since(t: seq<Observation>, m: Mark): seq<Observation> {
    if t == [] then []
    else
      var last := t[|t| - 1];
      if Marks(m, last) then [last] else Since(t[..|t| - 1], m) + [last]
  }

  /** How one more observation changes that part. */
  function NextPart(part: seq<Observation>, m: Mark, o: Observation): seq<Observation> {
    if Marks(m, o) then [o] else part + [o]
  }

  lemma SinceAppend(t: seq<Observation>, m: Mark, o: Observation)
    ensures Since(t + [o], m) == NextPart(Since(t, m), m, o)
  {
    assert (t + [o])[..|t|] == t;
  }

  lemma {:induction false} SinceIsSuffix(t: seq<Observation>, m: Mark)
    ensures |Since(t, m)| <= |t| && t[|t| - |Since(t, m)|..] == Since(t, m)
  {
    if t != [] && !Marks(m, t[|t| - 1]) {
      SinceIsSuffix(t[..|t| - 1], m);
    }
  }

  /** The times at which frames were transmitted. */
  function SendTimes(t: seq<Observation>): seq<nat> {
    if t == [] then []
    else
      var last := t[|t| - 1];
      SendTimes(t[..|t| - 1]) + if last.Sent? then [last.now] else []
  }

  lemma SendTimesAppend(t: seq<Observation>, o: Observation)
    ensures SendTimes(t + [o]) == SendTimes(t) + if o.Sent? then [o.now] else []
  {
    assert (t + [o])[..|t|] == t;
  }
}
