/** The exact solver, `calculateOptimalRouteWithChains`: assemble the point
    list, fill the distance matrix, generate every ordering of the free points
    and keep the first one whose route total is smallest. */
module RouteOptimizer {
  import opened Base
  import opened DistanceOracle
  import opened Permutations
  import opened DistanceMatrix

  // ---------------------------------------------------------------------------
  // Assembling the point list

  /** The branch lists of the selected chains, one after the other. */
  function Flatten<P>(chains: seq<seq<P>>): seq<P> {
    if chains == [] then [] else Flatten(chains[..|chains| - 1]) + chains[|chains| - 1]
  }

  /** `allLocations`: the start, the intermediate stops, the branches of every
      chain in selection order, then the end. The branch lists are those the
      points-of-interest lookup returned for each chain. */
  function Locations<P>(start: P, end: P, intermediates: seq<P>, chainBranches: seq<seq<P>>): (locs: seq<P>)
    ensures |locs| >= 2 && locs[0] == start && locs[|locs| - 1] == end
    ensures locs[1..|locs| - 1] == intermediates + Flatten(chainBranches)
  {
    var locs := [start] + intermediates + Flatten(chainBranches) + [end];
    assert locs[1..|locs| - 1] == intermediates + Flatten(chainBranches);
    locs
  }

  /** The loop that builds `allLocations` by spreading each chain's branches. */
  method AssembleLocations<P>(start: P, end: P, intermediates: seq<P>, chainBranches: seq<seq<P>>)
    returns (all: seq<P>)
    ensures all == Locations(start, end, intermediates, chainBranches)
  {
    all := [start] + intermediates;
    for c := 0 to |chainBranches|
      invariant all == [start] + intermediates + Flatten(chainBranches[..c])
    {
      assert chainBranches[..c + 1][..c] == chainBranches[..c];
      all := all + chainBranches[c];
    }
    assert chainBranches[..|chainBranches|] == chainBranches;
    all := all + [end];
  }

  // ---------------------------------------------------------------------------
  // Route totals

  /** `Array.prototype.indexOf`: the first position holding `x`, or -1. Points
      are compared by identity, so a point present twice is always found at its
      first position. */
  function IndexOf<P(==)>(s: seq<P>, x: P): (k: int)
    ensures -1 <= k < |s|
    ensures k == -1 <==> x !in s
    ensures 0 <= k ==> s[k] == x && x !in s[..k]
  {
    if s == [] then -1
    else if s[0] == x then 0
    else
      var k := IndexOf(s[1..], x);
      assert 0 <= k ==> s[..k + 1] == [s[0]] + s[1..][..k];
      if k == -1 then -1 else k + 1
  }

  predicate Within<P(==)>(route: seq<P>, locs: seq<P>) {
    forall x :: x in route ==> x in locs
  }

  /** The matrix entry the scan reads for the leg from `a` to `b`. */
  function Leg<P(==)>(locs: seq<P>, g: seq<seq<Ext>>, a: P, b: P): Ext
    requires Square(g, |locs|) && a in locs && b in locs
  {
    g[IndexOf(locs, a)][IndexOf(locs, b)]
  }

  /** The value `totalDistance` reaches for `route`: the sum of the legs
      between consecutive points, accumulated from the front. */
  function Total<P(==)>(locs: seq<P>, g: seq<seq<Ext>>, route: seq<P>): Ext
    requires Square(g, |locs|) && Within(route, locs)
    decreases |route|
  {
    if |route| < 2 then Fin(0)
    else
      var init := route[..|route| - 1];
      assert forall x :: x in init ==> x in route;
      Add(Total(locs, g, init), Leg(locs, g, route[|route| - 2], route[|route| - 1]))
  }

  /** The route through an ordering of the free points, framed by start and end. */
  function Candidate<P>(start: P, end: P, perm: seq<P>): seq<P> {
    [start] + perm + [end]
  }

  /** Every candidate route built from `perms` stays inside `locs`. */
  predicate CandidatesWithin<P(==)>(locs: seq<P>, start: P, end: P, perms: seq<seq<P>>) {
    start in locs && end in locs && forall k, x :: 0 <= k < |perms| && x in perms[k] ==> x in locs
  }

  lemma CandidateWithin<P>(locs: seq<P>, start: P, end: P, perms: seq<seq<P>>, k: nat)
    requires CandidatesWithin(locs, start, end, perms) && k < |perms|
    ensures Within(Candidate(start, end, perms[k]), locs)
  {
  }

  /** The total of each candidate route, in generation order. */
  function Totals<P(==)>(locs: seq<P>, g: seq<seq<Ext>>, start: P, end: P, perms: seq<seq<P>>): (ts: seq<Ext>)
    requires Square(g, |locs|) && CandidatesWithin(locs, start, end, perms)
    ensures |ts| == |perms|
  {
    seq(|perms|, k requires 0 <= k < |perms| =>
      CandidateWithin(locs, start, end, perms, k);
      Total(locs, g, Candidate(start, end, perms[k])))
  }

  lemma TotalsAt<P>(locs: seq<P>, g: seq<seq<Ext>>, start: P, end: P, perms: seq<seq<P>>, k: nat)
    requires Square(g, |locs|) && CandidatesWithin(locs, start, end, perms) && k < |perms|
    ensures Within(Candidate(start, end, perms[k]), locs)
    ensures Totals(locs, g, start, end, perms)[k] == Total(locs, g, Candidate(start, end, perms[k]))
  {
  }

  /** Scanning one more candidate appends its total. */
  lemma TotalsSnoc<P>(locs: seq<P>, g: seq<seq<Ext>>, start: P, end: P, perms: seq<seq<P>>, k: nat)
    requires Square(g, |locs|) && CandidatesWithin(locs, start, end, perms) && k < |perms|
    ensures CandidatesWithin(locs, start, end, perms[..k]) && CandidatesWithin(locs, start, end, perms[..k + 1])
    ensures Within(Candidate(start, end, perms[k]), locs)
    ensures Totals(locs, g, start, end, perms[..k + 1])
      == Totals(locs, g, start, end, perms[..k]) + [Total(locs, g, Candidate(start, end, perms[k]))]
  {
    var before, after := Totals(locs, g, start, end, perms[..k]), Totals(locs, g, start, end, perms[..k + 1]);
    forall j | 0 <= j < k
      ensures after[j] == before[j]
    {
      TotalsAt(locs, g, start, end, perms[..k + 1], j);
      TotalsAt(locs, g, start, end, perms[..k], j);
    }
    TotalsAt(locs, g, start, end, perms[..k + 1], k);
  }

  // ---------------------------------------------------------------------------
  // The running minimum

  /** The value `shortestDistance` holds once the positions of `w` are scanned. */
  function BestValue(ts: seq<Ext>, w: Option<nat>): Ext
    requires w.Some? ==> w.value < |ts|
  {
    if w.Some? then ts[w.value] else Inf
  }

  /** The position whose route the scan keeps: starting from `Infinity`, a total
      replaces the best so far only when it is strictly smaller. */
  function Winner(ts: seq<Ext>): (w: Option<nat>)
    ensures w.Some? ==> w.value < |ts|
    decreases |ts|
  {
    if ts == [] then None
    else
      var w := Winner(ts[..|ts| - 1]);
      if Less(ts[|ts| - 1], BestValue(ts[..|ts| - 1], w)) then Some(|ts| - 1) else w
  }

  /** The scan keeps `None` exactly when every total is `Infinity`; otherwise it
      keeps the first position of the smallest total. */
  lemma {:induction false} WinnerIsFirstMinimum(ts: seq<Ext>)
    ensures Winner(ts).None? <==> forall j :: 0 <= j < |ts| ==> ts[j] == Inf
    ensures Winner(ts).Some? ==>
      var k := Winner(ts).value;
      && ts[k].Fin?
      && (forall j :: 0 <= j < |ts| ==> Le(ts[k], ts[j]))
      && (forall j :: 0 <= j < k ==> Less(ts[k], ts[j]))
    decreases |ts|
  {
    if ts != [] {
      var init := ts[..|ts| - 1];
      WinnerIsFirstMinimum(init);
      assert forall j :: 0 <= j < |init| ==> init[j] == ts[j];
    }
  }

  /** One more step of the scan: a new total replaces the best so far only when
      it is strictly smaller. */
  lemma WinnerSnoc(ts: seq<Ext>, t: Ext)
    ensures var w, w' := Winner(ts), Winner(ts + [t]);
      && w' == (if Less(t, BestValue(ts, w)) then Some(|ts|) else w)
      && BestValue(ts + [t], w') == (if Less(t, BestValue(ts, w)) then t else BestValue(ts, w))
  {
    assert (ts + [t])[..|ts|] == ts;
  }

  lemma WinnerOfOne(ts: seq<Ext>)
    requires |ts| == 1
    ensures Winner(ts) == if ts[0].Fin? then Some(0) else None
  {
    assert ts[..0] == [];
  }

  function RouteOf<P>(start: P, end: P, perms: seq<seq<P>>, w: Option<nat>): Option<seq<P>>
    requires w.Some? ==> w.value < |perms|
  {
    if w.Some? then Some(Candidate(start, end, perms[w.value])) else None
  }

  /** The inner loop: `totalDistance` for one route, reading the matrix at the
      first positions of consecutive points. */
  method RouteTotal<P(==)>(locs: seq<P>, m: array2<Ext>, route: seq<P>) returns (total: Ext)
    requires m.Length0 == |locs| && m.Length1 == |locs|
    requires |route| >= 2 && Within(route, locs)
    ensures total == Total(locs, Snap(m), route)
  {
    ghost var g := Snap(m);
    total := Fin(0);
    var i := 0;
    while i < |route| - 1
      invariant 0 <= i <= |route| - 1
      invariant Within(route[..i + 1], locs)
      invariant total == Total(locs, g, route[..i + 1])
    {
      var from := IndexOf(locs, route[i]);
      var to := IndexOf(locs, route[i + 1]);
      ghost var next := route[..i + 2];
      assert next[..i + 1] == route[..i + 1] && next[i] == route[i] && next[i + 1] == route[i + 1];
      total := Add(total, m[from, to]);
      i := i + 1;
    }
    assert route[..|route|] == route;
  }

  /** After the first `k` candidates the scan holds the winner so far and its total. */
  ghost predicate Scanned<P>(locs: seq<P>, g: seq<seq<Ext>>, start: P, end: P, perms: seq<seq<P>>, k: nat,
                                 dist: Ext, best: Option<seq<P>>)
    requires Square(g, |locs|) && CandidatesWithin(locs, start, end, perms) && k <= |perms|
  {
    && CandidatesWithin(locs, start, end, perms[..k])
    && var ts := Totals(locs, g, start, end, perms[..k]);
    && var w := Winner(ts);
    && dist == BestValue(ts, w)
    && best == RouteOf(start, end, perms[..k], w)
  }

  lemma ScannedStep<P>(locs: seq<P>, g: seq<seq<Ext>>, start: P, end: P, perms: seq<seq<P>>, k: nat,
                       dist: Ext, best: Option<seq<P>>)
    requires Square(g, |locs|) && CandidatesWithin(locs, start, end, perms) && k < |perms|
    requires Scanned(locs, g, start, end, perms, k, dist, best)
    ensures Within(Candidate(start, end, perms[k]), locs)
    ensures var t := Total(locs, g, Candidate(start, end, perms[k]));
      Scanned(locs, g, start, end, perms, k + 1,
              if Less(t, dist) then t else dist,
              if Less(t, dist) then Some(Candidate(start, end, perms[k])) else best)
  {
    var before := Totals(locs, g, start, end, perms[..k]);
    TotalsSnoc(locs, g, start, end, perms, k);
    WinnerSnoc(before, Total(locs, g, Candidate(start, end, perms[k])));
    assert perms[..k + 1][..k] == perms[..k] && perms[..k + 1][k] == perms[k];
  }

  /** The outer scan over the permutations with `shortestDistance` and
      `shortestRoute`. */
  method ShortestCandidate<P(==)>(locs: seq<P>, m: array2<Ext>, start: P, end: P, perms: seq<seq<P>>)
    returns (best: Option<seq<P>>)
    requires m.Length0 == |locs| && m.Length1 == |locs|
    requires CandidatesWithin(locs, start, end, perms)
    ensures best == RouteOf(start, end, perms, Winner(Totals(locs, Snap(m), start, end, perms)))
  {
    ghost var g := Snap(m);
    var shortestDistance := Inf;
    best := None;
    assert perms[..0] == [];
    for k := 0 to |perms|
      invariant Scanned(locs, g, start, end, perms, k, shortestDistance, best)
    {
      var route := Candidate(start, end, perms[k]);
      CandidateWithin(locs, start, end, perms, k);
      var totalDistance := RouteTotal(locs, m, route);
      ScannedStep(locs, g, start, end, perms, k, shortestDistance, best);
      if Less(totalDistance, shortestDistance) {
        shortestDistance := totalDistance;
        best := Some(route);
      }
    }
    assert perms[..|perms|] == perms;
  }

  // ---------------------------------------------------------------------------
  // The whole solver

  function Interior<P>(locs: seq<P>): seq<P>
    requires |locs| >= 2
  {
    locs[1..|locs| - 1]
  }

  /** `allLocations` starts with the start point and ends with the end point. */
  predicate Framed<P(==)>(locs: seq<P>, start: P, end: P) {
    |locs| >= 2 && locs[0] == start && locs[|locs| - 1] == end
  }

  lemma PermsWithin<P>(locs: seq<P>, start: P, end: P)
    requires Framed(locs, start, end)
    ensures CandidatesWithin(locs, start, end, Perms(Interior(locs)))
  {
    var perms := Perms(Interior(locs));
    forall k, x | 0 <= k < |perms| && x in perms[k]
      ensures x in locs
    {
      PermIsRearrangement(Interior(locs), perms[k]);
      assert x in multiset(perms[k]);
    }
  }

  /** The total of every candidate route over the completed matrix, in the
      order `getPermutations` generates the orderings of the free points. */
  function ExactTotals<P(==)>(locs: seq<P>, start: P, end: P, answer: (P, P) -> Option<nat>): (ts: seq<Ext>)
    requires Framed(locs, start, end)
    ensures |ts| == |Perms(Interior(locs))|
  {
    PermsWithin(locs, start, end);
    Totals(locs, Filled(locs, answer), start, end, Perms(Interior(locs)))
  }

  /** What the solver returns on a completed build: the first candidate of
      smallest total among all orderings of the free points, or `None` (`null`)
      when every total is `Infinity`. */
  function ExactRoute<P(==)>(locs: seq<P>, start: P, end: P, answer: (P, P) -> Option<nat>): Option<seq<P>>
    requires Framed(locs, start, end)
  {
    RouteOf(start, end, Perms(Interior(locs)), Winner(ExactTotals(locs, start, end, answer)))
  }

  /** `calculateOptimalRouteWithChains`, with the chain lookups already resolved
      into `chainBranches`. A failed distance query aborts the whole build. */
  method CalculateOptimalRouteWithChains<P(==)>(start: P, end: P, intermediates: seq<P>,
                                                chainBranches: seq<seq<P>>, oracle: Oracle<P>)
    returns (r: Outcome<Option<seq<P>>>)
    modifies oracle
    ensures var locs := Locations(start, end, intermediates, chainBranches);
      && (r.Ok? <==> AllAnswered(locs, oracle.answer))
      && (r.Ok? ==> r.value == ExactRoute(locs, start, end, oracle.answer))
      && (r.Ok? ==> oracle.log == old(oracle.log) + Queries(locs, FillOrder(|locs|)))
      && (!r.Ok? ==> exists k :: StoppedAt(locs, oracle.answer, old(oracle.log), oracle.log, k))
  {
    var all := AssembleLocations(start, end, intermediates, chainBranches);
    var filled := FillDistances(all, oracle);
    if filled.None? {
      return OracleFailed;
    }
    var m := filled.value;
    SnapFilled(m, all, oracle.answer);
    var perms := Perms(all[1..|all| - 1]);
    PermsWithin(all, start, end);
    var best := ShortestCandidate(all, m, start, end, perms);
    r := Ok(best);
  }

  // ---------------------------------------------------------------------------
  // What the exact solver promises

  /** The `j`-th exact total is the total of the `j`-th candidate route. */
  lemma ExactTotalsAt<P>(locs: seq<P>, start: P, end: P, answer: (P, P) -> Option<nat>, j: nat)
    requires Framed(locs, start, end) && j < |Perms(Interior(locs))|
    ensures Within(Candidate(start, end, Perms(Interior(locs))[j]), locs)
    ensures ExactTotals(locs, start, end, answer)[j]
         == Total(locs, Filled(locs, answer), Candidate(start, end, Perms(Interior(locs))[j]))
  {
    PermsWithin(locs, start, end);
    TotalsAt(locs, Filled(locs, answer), start, end, Perms(Interior(locs)), j);
  }

  /** Any rearrangement of the free points, framed by start and end, stays
      inside `allLocations`. */
  lemma RearrangementWithin<P>(locs: seq<P>, start: P, end: P, q: seq<P>)
    requires Framed(locs, start, end) && multiset(q) == multiset(Interior(locs))
    ensures Within(Candidate(start, end, q), locs)
  {
    forall x | x in Candidate(start, end, q)
      ensures x in locs
    {
      if x in q {
        assert x in multiset(Interior(locs));
      }
    }
  }

  /** The route starts with the start point, ends with the end point, and
      visits in between every free point exactly as often as it was given. */
  lemma ExactRouteShape<P>(locs: seq<P>, start: P, end: P, answer: (P, P) -> Option<nat>)
    requires Framed(locs, start, end)
    ensures var r := ExactRoute(locs, start, end, answer);
      r.Some? ==>
        && |r.value| == |locs| && r.value[0] == start && r.value[|r.value| - 1] == end
        && multiset(r.value[1..|r.value| - 1]) == multiset(Interior(locs))
  {
    var w := Winner(ExactTotals(locs, start, end, answer));
    if w.Some? {
      var p := Perms(Interior(locs))[w.value];
      PermIsRearrangement(Interior(locs), p);
      assert Candidate(start, end, p)[1..|p| + 1] == p;
    }
  }

  /** No rearrangement of the free points gives a shorter route than the one
      returned, and the one returned has a finite total. */
  lemma ExactRouteOptimal<P>(locs: seq<P>, start: P, end: P, answer: (P, P) -> Option<nat>, q: seq<P>)
    requires Framed(locs, start, end) && multiset(q) == multiset(Interior(locs))
    requires ExactRoute(locs, start, end, answer).Some?
    ensures Within(ExactRoute(locs, start, end, answer).value, locs)
    ensures Within(Candidate(start, end, q), locs)
    ensures var g := Filled(locs, answer);
      var best := Total(locs, g, ExactRoute(locs, start, end, answer).value);
      best.Fin? && Le(best, Total(locs, g, Candidate(start, end, q)))
  {
    var perms := Perms(Interior(locs));
    var ts := ExactTotals(locs, start, end, answer);
    WinnerIsFirstMinimum(ts);
    var k := Winner(ts).value;
    ExactTotalsAt(locs, start, end, answer, k);
    RearrangementWithin(locs, start, end, q);
    PermsComplete(Interior(locs), q);
    var j :| 0 <= j < |perms| && perms[j] == q;
    ExactTotalsAt(locs, start, end, answer, j);
  }

  /** Ties go to the ordering generated first: the returned route is candidate
      `k`, and every earlier candidate is strictly longer. No route at all is
      returned exactly when every candidate total is `Infinity`. */
  lemma ExactRouteFirstMinimum<P>(locs: seq<P>, start: P, end: P, answer: (P, P) -> Option<nat>)
    returns (k: nat)
    requires Framed(locs, start, end)
    ensures var ts := ExactTotals(locs, start, end, answer);
      ExactRoute(locs, start, end, answer).None? <==> forall j :: 0 <= j < |ts| ==> ts[j] == Inf
    ensures var ts := ExactTotals(locs, start, end, answer);
      ExactRoute(locs, start, end, answer).Some? ==>
        && k < |ts|
        && ExactRoute(locs, start, end, answer).value == Candidate(start, end, Perms(Interior(locs))[k])
        && (forall j :: 0 <= j < |ts| ==> Le(ts[k], ts[j]))
        && (forall j :: 0 <= j < k ==> Less(ts[k], ts[j]))
  {
    var ts := ExactTotals(locs, start, end, answer);
    WinnerIsFirstMinimum(ts);
    k := if Winner(ts).Some? then Winner(ts).value else 0;
  }

  /** A route none of whose legs stays on one point has a finite total once
      every pair of points has been answered. */
  lemma {:induction false} TotalFinite<P>(locs: seq<P>, answer: (P, P) -> Option<nat>, route: seq<P>)
    requires Within(route, locs) && AllAnswered(locs, answer)
    requires forall i :: 0 <= i < |route| - 1 ==> route[i] != route[i + 1]
    ensures Total(locs, Filled(locs, answer), route).Fin?
    decreases |route|
  {
    if |route| >= 2 {
      var init := route[..|route| - 1];
      assert forall x :: x in init ==> x in route;
      assert forall i :: 0 <= i < |init| ==> init[i] == route[i];
      TotalFinite(locs, answer, init);
      var a := IndexOf(locs, route[|route| - 2]);
      var b := IndexOf(locs, route[|route| - 1]);
      assert a != b;
    }
  }

  /** The first candidate is `allLocations` itself, in the order given. */
  lemma FirstCandidateIsInput<P>(locs: seq<P>, start: P, end: P, answer: (P, P) -> Option<nat>)
    requires Framed(locs, start, end)
    ensures Within(locs, locs)
    ensures |Perms(Interior(locs))| > 0 && Candidate(start, end, Perms(Interior(locs))[0]) == locs
    ensures ExactTotals(locs, start, end, answer)[0] == Total(locs, Filled(locs, answer), locs)
  {
    var n := |locs|;
    assert Candidate(start, end, Interior(locs)) == locs by {
      assert locs == [locs[0]] + locs[1..n - 1] + [locs[n - 1]];
    }
    PermsStartWithInput(Interior(locs));
    ExactTotalsAt(locs, start, end, answer, 0);
  }

  /** With distinct points and every distance known, a route is always found:
      the first candidate, `allLocations` itself, already has a finite total. */
  lemma ExactRouteFound<P>(locs: seq<P>, start: P, end: P, answer: (P, P) -> Option<nat>)
    requires Framed(locs, start, end) && NoDup(locs) && AllAnswered(locs, answer)
    ensures ExactRoute(locs, start, end, answer).Some?
  {
    FirstCandidateIsInput(locs, start, end, answer);
    forall i | 0 <= i < |locs| - 1
      ensures locs[i] != locs[i + 1]
    {
    }
    TotalFinite(locs, answer, locs);
    WinnerIsFirstMinimum(ExactTotals(locs, start, end, answer));
  }

  /** With at most one free point there is a single candidate, `allLocations`
      itself, and it is returned exactly when its total is finite. */
  lemma ExactRouteSingleOrdering<P>(locs: seq<P>, start: P, end: P, answer: (P, P) -> Option<nat>)
    requires Framed(locs, start, end) && |locs| <= 3
    ensures Within(locs, locs)
    ensures ExactRoute(locs, start, end, answer)
         == if Total(locs, Filled(locs, answer), locs).Fin? then Some(locs) else None
  {
    FirstCandidateIsInput(locs, start, end, answer);
    PermsStartWithInput(Interior(locs));
    WinnerOfOne(ExactTotals(locs, start, end, answer));
  }

  /** Start and end alone: the route `[start, end]` when they are different
      points, otherwise `null`, since a point's distance to itself is left at
      `Infinity`. (An unanswered query aborts the build during the fill and never
      reaches this scan; the case is listed here only because the function is
      defined for it.) */
  lemma ExactRouteNoFreePoints<P>(start: P, end: P, answer: (P, P) -> Option<nat>)
    ensures Framed([start, end], start, end)
    ensures ExactRoute([start, end], start, end, answer)
         == if start != end && answer(start, end).Some? then Some([start, end]) else None
  {
    var locs := [start, end];
    ExactRouteSingleOrdering(locs, start, end, answer);
    var g := Filled(locs, answer);
    assert Total(locs, g, locs) == Add(Total(locs, g, [start]), Leg(locs, g, start, end));
    if start == end {
      assert IndexOf(locs, end) == 0;
    }
  }
}
