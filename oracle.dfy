/** The road-distance oracle (an OSRM request in the source). The network is
    replaced by a fixed answer function; every call is recorded so that the
    solvers can promise how many queries they make and which ones. */
module DistanceOracle {
  import opened Base

  /** Every query in `qs` gets an answer. */
  ghost predicate Answered<P>(answer: (P, P) -> Option<nat>, qs: seq<(P, P)>) {
    forall q :: q in qs ==> answer(q.0, q.1).Some?
  }

  lemma EveryQueryAnswered<P>(answer: (P, P) -> Option<nat>, qs: seq<(P, P)>)
    requires forall a, b :: answer(a, b).Some?
    ensures Answered(answer, qs)
  {
  }

  class Oracle<P> {
    /** What the routing service answers for a pair of points; `None` when the
        request fails or the reply holds no route. */
    const answer: (P, P) -> Option<nat>
    /** Every query made so far, in order. */
    var log: seq<(P, P)>

    constructor (answer: (P, P) -> Option<nat>)
      ensures this.answer == answer && log == []
    {
      this.answer := answer;
      log := [];
    }

    /** One request to the routing service. */
    method Query(a: P, b: P) returns (d: Option<nat>)
      modifies this
      ensures d == answer(a, b)
      ensures log == old(log) + [(a, b)]
    {
      d := answer(a, b);
      log := log + [(a, b)];
    }
  }
}
