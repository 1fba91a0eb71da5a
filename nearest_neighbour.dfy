/** The greedy solver, `calculateShortestRoute`: starting at the first location,
    repeatedly append the unvisited location nearest to the last one appended.
    Distances are asked of the routing service from the last route point to
    every unvisited location, in index order, on every step. */
module NearestNeighbour {
  import opened Base
  import opened DistanceOracle

  /** The positions visited so far, in visiting order: position 0 first, no
      position twice, every position in range. */
  predicate ValidOrder(order: seq<nat>, n: nat) {
    && 1 <= |order| <= n && order[0] == 0 && NoDup(order)
    && forall k :: 0 <= k < |order| ==> order[k] < n
  }

  /** The point appended last to the route. */
  function Last<P>(locs: seq<P>, order: seq<nat>): P
    requires ValidOrder(order, |locs|)
  {
    locs[order[|order| - 1]]
  }

  /** `nextIndex` and `minDistance` during the inner loop; `next` is `None`
      while `nextIndex` is still `undefined`. */
  datatype Scan = Scan(next: Option<nat>, min: Ext)

  /** The inner loop after positions `0..j-1`: each unvisited position is
      measured from the last route point and becomes `nextIndex` when strictly
      nearer than `minDistance`. `None` when a request failed, which aborts the
      whole build. */
  function ScanTo<P>(locs: seq<P>, answer: (P, P) -> Option<nat>, order: seq<nat>, j: nat): (r: Option<Scan>)
    requires ValidOrder(order, |locs|) && j <= |locs|
    ensures r.Some? && r.value.next.Some? ==>
      var k := r.value.next.value;
      k < j && k !in order && r.value.min == Known(answer(Last(locs, order), locs[k]))
              && answer(Last(locs, order), locs[k]).Some?
    ensures r.Some? && r.value.next.None? ==> r.value.min == Inf
    decreases j
  {
    if j == 0 then Some(Scan(None, Inf))
    else
      var prev := ScanTo(locs, answer, order, j - 1);
      if prev.None? || j - 1 in order then prev
      else
        var d := answer(Last(locs, order), locs[j - 1]);
        if d.None? then None
        else if Less(Fin(d.value), prev.value.min) then Some(Scan(Some(j - 1), Fin(d.value)))
        else prev
  }

  /** The requests the inner loop makes over positions `0..j-1`: one per
      unvisited position, up to and including the first that fails. */
  function ScanLog<P>(locs: seq<P>, answer: (P, P) -> Option<nat>, order: seq<nat>, j: nat): seq<(P, P)>
    requires ValidOrder(order, |locs|) && j <= |locs|
    decreases j
  {
    if j == 0 then []
    else if ScanTo(locs, answer, order, j - 1).None? || j - 1 in order then ScanLog(locs, answer, order, j - 1)
    else ScanLog(locs, answer, order, j - 1) + [(Last(locs, order), locs[j - 1])]
  }

  /** The number of positions below `j` not yet visited. */
  function CountMissing(order: seq<nat>, j: nat): nat {
    if j == 0 then 0 else CountMissing(order, j - 1) + (if j - 1 in order then 0 else 1)
  }

  lemma {:induction false} CountMissingNone(j: nat)
    ensures CountMissing([], j) == j
  {
    if j > 0 {
      CountMissingNone(j - 1);
    }
  }

  /** Visiting one more position `x` removes it from the unvisited count below `j`. */
  lemma {:induction false} CountMissingVisit(order: seq<nat>, x: nat, j: nat)
    requires x !in order
    ensures CountMissing(order + [x], j) + (if x < j then 1 else 0) == CountMissing(order, j)
  {
    if j > 0 {
      CountMissingVisit(order, x, j - 1);
      assert j - 1 in order + [x] <==> j - 1 in order || j - 1 == x;
    }
  }

  /** Visited and unvisited positions below `n` add up to `n`; in particular a
      visiting order is never longer than the number of locations. */
  lemma {:induction false} CountMissingAll(order: seq<nat>, n: nat)
    requires NoDup(order) && forall k :: 0 <= k < |order| ==> order[k] < n
    ensures CountMissing(order, n) + |order| == n
    decreases |order|
  {
    if order == [] {
      CountMissingNone(n);
    } else {
      var init, x := order[..|order| - 1], order[|order| - 1];
      assert order == init + [x];
      assert x !in init by {
        forall k | 0 <= k < |init|
          ensures init[k] != x
        {
          assert init[k] == order[k];
        }
      }
      assert NoDup(init) && forall k :: 0 <= k < |init| ==> init[k] < n by {
        forall k | 0 <= k < |init|
          ensures init[k] == order[k]
        {
        }
      }
      CountMissingAll(init, n);
      CountMissingVisit(init, x, n);
    }
  }

  /** A completed inner loop over `0..j-1` has chosen a position exactly when
      some position below `j` is unvisited. */
  lemma {:induction false} ScanChooses<P>(locs: seq<P>, answer: (P, P) -> Option<nat>, order: seq<nat>, j: nat)
    requires ValidOrder(order, |locs|) && j <= |locs| && ScanTo(locs, answer, order, j).Some?
    ensures ScanTo(locs, answer, order, j).value.next.Some? <==> CountMissing(order, j) > 0
    decreases j
  {
    if j > 0 {
      ScanChooses(locs, answer, order, j - 1);
    }
  }

  /** The requests of a completed inner loop number exactly the unvisited
      positions. */
  lemma {:induction false} ScanLogCount<P>(locs: seq<P>, answer: (P, P) -> Option<nat>, order: seq<nat>, j: nat)
    requires ValidOrder(order, |locs|) && j <= |locs| && ScanTo(locs, answer, order, j).Some?
    ensures |ScanLog(locs, answer, order, j)| == CountMissing(order, j)
    decreases j
  {
    if j > 0 {
      ScanLogCount(locs, answer, order, j - 1);
    }
  }

  /** A completed inner loop asks for one distance per unvisited location:
      `n - i` requests on outer step `i`, when `i` locations are visited. */
  lemma StepQueryCount<P>(locs: seq<P>, answer: (P, P) -> Option<nat>, order: seq<nat>)
    requires ValidOrder(order, |locs|) && ScanTo(locs, answer, order, |locs|).Some?
    ensures |ScanLog(locs, answer, order, |locs|)| == |locs| - |order|
  {
    ScanLogCount(locs, answer, order, |locs|);
    CountMissingAll(order, |locs|);
  }

  /** Once a request has failed, the inner loop makes no further requests. */
  lemma {:induction false} ScanStopsAfterFailure<P>(locs: seq<P>, answer: (P, P) -> Option<nat>, order: seq<nat>, j: nat, j': nat)
    requires ValidOrder(order, |locs|) && j <= j' <= |locs| && ScanTo(locs, answer, order, j).None?
    ensures ScanTo(locs, answer, order, j').None?
    ensures ScanLog(locs, answer, order, j') == ScanLog(locs, answer, order, j)
    decreases j' - j
  {
    if j < j' {
      ScanStopsAfterFailure(locs, answer, order, j, j' - 1);
    }
  }

  /** The inner loop over positions `0..j-1` completes exactly when every
      request it makes is answered. */
  lemma {:induction false} ScanSucceeds<P>(locs: seq<P>, answer: (P, P) -> Option<nat>, order: seq<nat>, j: nat)
    requires ValidOrder(order, |locs|) && j <= |locs|
    ensures ScanTo(locs, answer, order, j).Some? <==> Answered(answer, ScanLog(locs, answer, order, j))
    decreases j
  {
    if j > 0 {
      ScanSucceeds(locs, answer, order, j - 1);
      var log := ScanLog(locs, answer, order, j - 1);
      if ScanTo(locs, answer, order, j - 1).Some? && j - 1 !in order {
        var q := (Last(locs, order), locs[j - 1]);
        assert ScanLog(locs, answer, order, j) == log + [q];
        assert Answered(answer, log + [q]) <==> Answered(answer, log) && answer(q.0, q.1).Some?;
      }
    }
  }

  /** The chosen position is nearest to the last route point among the
      unvisited positions below `j`, and strictly nearer than every unvisited
      position before it: ties go to the lowest index. */
  lemma {:induction false} ScanNearest<P>(locs: seq<P>, answer: (P, P) -> Option<nat>, order: seq<nat>, j: nat)
    requires ValidOrder(order, |locs|) && j <= |locs| && ScanTo(locs, answer, order, j).Some?
    ensures var s := ScanTo(locs, answer, order, j).value;
      forall x :: 0 <= x < j && x !in order ==>
        && answer(Last(locs, order), locs[x]).Some?
        && Le(s.min, Fin(answer(Last(locs, order), locs[x]).value))
        && (s.next.Some? && x < s.next.value ==> Less(s.min, Fin(answer(Last(locs, order), locs[x]).value)))
    decreases j
  {
    if j > 0 {
      ScanNearest(locs, answer, order, j - 1);
    }
  }

  // ---------------------------------------------------------------------------
  // The outer loop

  /** The visiting order the outer loop completes from a partial `order`, or
      `OracleFailed` when a request fails on the way. */
  function GreedyFrom<P>(locs: seq<P>, answer: (P, P) -> Option<nat>, order: seq<nat>): (r: Outcome<seq<nat>>)
    requires ValidOrder(order, |locs|)
    ensures r.Ok? ==> ValidOrder(r.value, |locs|) && |r.value| == |locs| && r.value[..|order|] == order
    decreases |locs| - |order|
  {
    if |order| == |locs| then Ok(order)
    else
      var s := ScanTo(locs, answer, order, |locs|);
      if s.None? then OracleFailed
      else
        CountMissingAll(order, |locs|);
        ScanChooses(locs, answer, order, |locs|);
        var k := s.value.next.value;
        var r := GreedyFrom(locs, answer, order + [k]);
        assert r.Ok? ==> r.value[..|order|] == (order + [k])[..|order|];
        r
  }

  /** The requests the outer loop makes from a partial `order` on. */
  function GreedyLog<P>(locs: seq<P>, answer: (P, P) -> Option<nat>, order: seq<nat>): seq<(P, P)>
    requires ValidOrder(order, |locs|)
    decreases |locs| - |order|
  {
    if |order| == |locs| then []
    else
      var s := ScanTo(locs, answer, order, |locs|);
      ScanLog(locs, answer, order, |locs|)
        + if s.Some? && s.value.next.Some? then GreedyLog(locs, answer, order + [s.value.next.value]) else []
  }

  /** `calculateShortestRoute`'s visiting order, as positions in `locations`:
      it starts at position 0 and holds every position exactly once. */
  function GreedyOrder<P>(locs: seq<P>, answer: (P, P) -> Option<nat>): (r: Outcome<seq<nat>>)
    requires |locs| >= 1
    ensures r.Ok? ==> |r.value| == |locs| && r.value[0] == 0 && NoDup(r.value)
                      && forall k :: 0 <= k < |r.value| ==> r.value[k] < |locs|
  {
    GreedyFrom(locs, answer, [0])
  }

  /** The points at the positions of `order`. */
  function Points<P>(locs: seq<P>, order: seq<nat>): (ps: seq<P>)
    requires forall k :: 0 <= k < |order| ==> order[k] < |locs|
    ensures |ps| == |order| && forall k :: 0 <= k < |order| ==> ps[k] == locs[order[k]]
  {
    seq(|order|, k requires 0 <= k < |order| => locs[order[k]])
  }

  lemma PointsAppend<P>(locs: seq<P>, order: seq<nat>, k: nat)
    requires (forall i :: 0 <= i < |order| ==> order[i] < |locs|) && k < |locs|
    ensures forall i :: 0 <= i < |order + [k]| ==> (order + [k])[i] < |locs|
    ensures Points(locs, order + [k]) == Points(locs, order) + [locs[k]]
  {
  }

  function RouteOf<P>(locs: seq<P>, o: Outcome<seq<nat>>): Outcome<seq<P>>
    requires o.Ok? ==> forall k :: 0 <= k < |o.value| ==> o.value[k] < |locs|
  {
    if o.Ok? then Ok(Points(locs, o.value)) else OracleFailed
  }

  /** `nextIndex` is the nearest unvisited position to `from`, with ties going
      to the lowest index. */
  ghost predicate Nearest<P>(locs: seq<P>, answer: (P, P) -> Option<nat>, from: P, visited: seq<nat>, k: nat) {
    && k < |locs| && k !in visited && answer(from, locs[k]).Some?
    && forall x :: 0 <= x < |locs| && x !in visited ==>
      && answer(from, locs[x]).Some?
      && answer(from, locs[k]).value <= answer(from, locs[x]).value
      && (x < k ==> answer(from, locs[k]).value < answer(from, locs[x]).value)
  }

  lemma {:induction false} GreedyFromNearest<P>(locs: seq<P>, answer: (P, P) -> Option<nat>, order: seq<nat>)
    requires ValidOrder(order, |locs|) && GreedyFrom(locs, answer, order).Ok?
    ensures var r := GreedyFrom(locs, answer, order).value;
      forall i :: |order| <= i < |locs| ==> Nearest(locs, answer, locs[r[i - 1]], r[..i], r[i])
    decreases |locs| - |order|
  {
    if |order| < |locs| {
      var n := |locs|;
      var r := GreedyFrom(locs, answer, order).value;
      var s := ScanTo(locs, answer, order, n);
      CountMissingAll(order, n);
      ScanChooses(locs, answer, order, n);
      var k := s.value.next.value;
      GreedyFromNearest(locs, answer, order + [k]);
      assert r == GreedyFrom(locs, answer, order + [k]).value;
      assert r[..|order|] == order && r[|order|] == k by {
        assert r[..|order| + 1] == order + [k];
      }
      ScanNearest(locs, answer, order, n);
      assert r[|order| - 1] == order[|order| - 1];
    }
  }

  /** Every appended point is the unvisited location nearest to the point
      appended before it, ties going to the lowest index. */
  lemma GreedyOrderNearest<P>(locs: seq<P>, answer: (P, P) -> Option<nat>)
    requires |locs| >= 1 && GreedyOrder(locs, answer).Ok?
    ensures var r := GreedyOrder(locs, answer).value;
      forall i :: 1 <= i < |locs| ==> Nearest(locs, answer, locs[r[i - 1]], r[..i], r[i])
  {
    GreedyFromNearest(locs, answer, [0]);
  }

  /** A completed outer loop from `order` makes `m + (m-1) + ... + 1`
      requests, where `m` positions remain unvisited. */
  lemma {:induction false} GreedyLogCount<P>(locs: seq<P>, answer: (P, P) -> Option<nat>, order: seq<nat>)
    requires ValidOrder(order, |locs|) && GreedyFrom(locs, answer, order).Ok?
    ensures var m := |locs| - |order|;
      2 * |GreedyLog(locs, answer, order)| == m * (m + 1)
    decreases |locs| - |order|
  {
    if |order| < |locs| {
      var n := |locs|;
      var m := n - |order|;
      var k := GreedyStep(locs, answer, order);
      StepQueryCount(locs, answer, order);
      GreedyLogCount(locs, answer, order + [k]);
      var rest := |GreedyLog(locs, answer, order + [k])|;
      assert |GreedyLog(locs, answer, order)| == m + rest;
      Triangle(m, rest);
    }
  }

  lemma Triangle(m: nat, rest: nat)
    requires m >= 1 && 2 * rest == (m - 1) * m
    ensures 2 * (m + rest) == m * (m + 1)
  {
    assert (m - 1) * m == m * m - m;
  }

  /** A completed build makes `n(n-1)/2` requests: `n - i` on outer step `i`. */
  lemma GreedyOrderQueryCount<P>(locs: seq<P>, answer: (P, P) -> Option<nat>)
    requires |locs| >= 1 && GreedyOrder(locs, answer).Ok?
    ensures |GreedyLog(locs, answer, [0])| == |locs| * (|locs| - 1) / 2
  {
    GreedyLogCount(locs, answer, [0]);
    var n := |locs|;
    var p := n * (n - 1);
    assert (n - 1) * (n - 1 + 1) == p;
    assert 2 * |GreedyLog(locs, answer, [0])| == p;
  }

  // ---------------------------------------------------------------------------
  // The method

  /** An inner loop that hits a failed request ends the whole build. */
  lemma GreedyAborts<P>(locs: seq<P>, answer: (P, P) -> Option<nat>, order: seq<nat>, j: nat)
    requires ValidOrder(order, |locs|) && |order| < |locs| && j < |locs| && j !in order
    requires ScanTo(locs, answer, order, j).Some? && answer(Last(locs, order), locs[j]).None?
    ensures GreedyFrom(locs, answer, order) == OracleFailed
    ensures GreedyLog(locs, answer, order) == ScanLog(locs, answer, order, j) + [(Last(locs, order), locs[j])]
  {
    assert ScanTo(locs, answer, order, j + 1).None?;
    assert ScanLog(locs, answer, order, j + 1) == ScanLog(locs, answer, order, j) + [(Last(locs, order), locs[j])];
    ScanStopsAfterFailure(locs, answer, order, j + 1, |locs|);
  }

  /** The outer loop completes exactly when every request it makes is answered. */
  lemma {:induction false} GreedyFromSucceeds<P>(locs: seq<P>, answer: (P, P) -> Option<nat>, order: seq<nat>)
    requires ValidOrder(order, |locs|)
    ensures GreedyFrom(locs, answer, order).Ok? <==> Answered(answer, GreedyLog(locs, answer, order))
    decreases |locs| - |order|
  {
    if |order| < |locs| {
      var n := |locs|;
      ScanSucceeds(locs, answer, order, n);
      if ScanTo(locs, answer, order, n).Some? {
        var k := GreedyStep(locs, answer, order);
        GreedyFromSucceeds(locs, answer, order + [k]);
        var scan, rest := ScanLog(locs, answer, order, n), GreedyLog(locs, answer, order + [k]);
        assert Answered(answer, scan + rest) <==> Answered(answer, scan) && Answered(answer, rest);
      } else {
        assert GreedyLog(locs, answer, order) == ScanLog(locs, answer, order, n) + [];
      }
    }
  }

  /** `calculateShortestRoute` completes exactly when every request it makes is
      answered; in particular it always completes when the routing service
      answers every pair. */
  lemma GreedyOrderSucceeds<P>(locs: seq<P>, answer: (P, P) -> Option<nat>)
    requires |locs| >= 1
    ensures GreedyOrder(locs, answer).Ok? <==> Answered(answer, GreedyLog(locs, answer, [0]))
    ensures (forall a, b :: answer(a, b).Some?) ==> GreedyOrder(locs, answer).Ok?
  {
    GreedyFromSucceeds(locs, answer, [0]);
    if forall a, b :: answer(a, b).Some? {
      EveryQueryAnswered(answer, GreedyLog(locs, answer, [0]));
    }
  }

  /** The outer loop's step: the inner loop's choice extends the order by one. */
  lemma GreedyStep<P>(locs: seq<P>, answer: (P, P) -> Option<nat>, order: seq<nat>) returns (k: nat)
    requires ValidOrder(order, |locs|) && |order| < |locs| && ScanTo(locs, answer, order, |locs|).Some?
    ensures ScanTo(locs, answer, order, |locs|).value.next == Some(k)
    ensures ValidOrder(order + [k], |locs|)
    ensures GreedyFrom(locs, answer, order) == GreedyFrom(locs, answer, order + [k])
    ensures GreedyLog(locs, answer, order) == ScanLog(locs, answer, order, |locs|) + GreedyLog(locs, answer, order + [k])
  {
    CountMissingAll(order, |locs|);
    ScanChooses(locs, answer, order, |locs|);
    k := ScanTo(locs, answer, order, |locs|).value.next.value;
  }

  /** The queries still to come after a step are the rest of the whole run's. */
  lemma LogCarries<T>(log0: seq<T>, log: seq<T>, step: seq<T>, rest: seq<T>, all: seq<T>)
    requires log == log0 + step && all == step + rest
    ensures log + rest == log0 + all
  {
  }

  /** `visited[j]` holds exactly for the positions already on the route. */
  ghost predicate Marks(visited: array<bool>, order: seq<nat>)
    reads visited
  {
    forall j :: 0 <= j < visited.Length ==> (visited[j] <==> j in order)
  }

  /** Marks the chosen position as visited. */
  method MarkVisited(visited: array<bool>, k: nat, ghost order: seq<nat>)
    requires k < visited.Length && Marks(visited, order)
    modifies visited
    ensures Marks(visited, order + [k])
  {
    visited[k] := true;
    forall j | 0 <= j < visited.Length
      ensures visited[j] <==> j in order + [k]
    {
      assert j in order + [k] <==> j in order || j == k;
    }
  }

  /** The inner loop of one outer step: measure every unvisited location from
      `from`, the last route point, and keep the first nearest. `ok` is false
      when request `failedAt` failed; the loop then stops there. */
  method NearestUnvisited<P>(locations: seq<P>, oracle: Oracle<P>, visited: array<bool>, from: P,
                             ghost order: seq<nat>)
    returns (ok: bool, nextIndex: Option<nat>, ghost failedAt: nat)
    requires ValidOrder(order, |locations|) && from == Last(locations, order)
    requires visited.Length == |locations| && Marks(visited, order)
    modifies oracle
    ensures ok ==>
      && ScanTo(locations, oracle.answer, order, |locations|).Some?
      && ScanTo(locations, oracle.answer, order, |locations|).value.next == nextIndex
      && oracle.log == old(oracle.log) + ScanLog(locations, oracle.answer, order, |locations|)
    ensures !ok ==>
      && failedAt < |locations| && failedAt !in order
      && ScanTo(locations, oracle.answer, order, failedAt).Some?
      && oracle.answer(from, locations[failedAt]).None?
      && oracle.log == old(oracle.log) + ScanLog(locations, oracle.answer, order, failedAt) + [(from, locations[failedAt])]
  {
    var n := |locations|;
    ghost var answer := oracle.answer;
    nextIndex := None;
    failedAt := 0;
    var minDistance := Inf;
    for j := 0 to n
      invariant ScanTo(locations, answer, order, j) == Some(Scan(nextIndex, minDistance))
      invariant oracle.log == old(oracle.log) + ScanLog(locations, answer, order, j)
    {
      if !visited[j] {
        var distance := oracle.Query(from, locations[j]);
        if distance.None? {
          return false, nextIndex, j;
        }
        if Less(Fin(distance.value), minDistance) {
          minDistance := Fin(distance.value);
          nextIndex := Some(j);
        }
      }
    }
    ok := true;
  }

  /** One outer step: find the nearest unvisited location, mark it visited
      and push it onto the route. `ok` is false when a request failed. */
  method AppendNearest<P>(locations: seq<P>, oracle: Oracle<P>, visited: array<bool>, route: seq<P>,
                          ghost order: seq<nat>)
    returns (ok: bool, route': seq<P>, ghost order': seq<nat>)
    requires ValidOrder(order, |locations|) && |order| < |locations|
    requires visited.Length == |locations| && Marks(visited, order)
    requires route == Points(locations, order)
    modifies oracle, visited
    ensures ok ==>
      && |order'| == |order| + 1 && ValidOrder(order', |locations|)
      && Marks(visited, order')
      && route' == Points(locations, order')
      && GreedyFrom(locations, oracle.answer, order') == GreedyFrom(locations, oracle.answer, order)
      && oracle.log + GreedyLog(locations, oracle.answer, order')
         == old(oracle.log) + GreedyLog(locations, oracle.answer, order)
    ensures !ok ==>
      && GreedyFrom(locations, oracle.answer, order) == OracleFailed
      && oracle.log == old(oracle.log) + GreedyLog(locations, oracle.answer, order)
  {
    ghost var answer := oracle.answer;
    assert route[|route| - 1] == Last(locations, order);
    var nextIndex;
    ghost var failedAt;
    ok, nextIndex, failedAt := NearestUnvisited(locations, oracle, visited, route[|route| - 1], order);
    if !ok {
      GreedyAborts(locations, answer, order, failedAt);
      return false, route, order;
    }
    ghost var chosen := GreedyStep(locations, answer, order);
    var k := nextIndex.value;
    assert k == chosen;
    LogCarries(old(oracle.log), oracle.log, ScanLog(locations, answer, order, |locations|),
               GreedyLog(locations, answer, order + [k]), GreedyLog(locations, answer, order));
    PointsAppend(locations, order, k);
    route' := route + [locations[k]];
    MarkVisited(visited, k, order);
    order' := order + [k];
  }

  /** `calculateShortestRoute` for `n >= 1` locations. */
  method CalculateShortestRoute<P>(locations: seq<P>, oracle: Oracle<P>) returns (r: Outcome<seq<P>>)
    requires |locations| >= 1
    modifies oracle
    ensures r == RouteOf(locations, GreedyOrder(locations, oracle.answer))
    ensures oracle.log == old(oracle.log) + GreedyLog(locations, oracle.answer, [0])
  {
    var n := |locations|;
    ghost var answer := oracle.answer;
    var visited := new bool[n](_ => false);
    var route := [locations[0]];
    visited[0] := true;
    ghost var order: seq<nat> := [0];
    for i := 1 to n
      invariant |order| == i && ValidOrder(order, n)
      invariant Marks(visited, order)
      invariant route == Points(locations, order)
      invariant GreedyFrom(locations, answer, [0]) == GreedyFrom(locations, answer, order)
      invariant oracle.log + GreedyLog(locations, answer, order)
             == old(oracle.log) + GreedyLog(locations, answer, [0])
    {
      var ok;
      ok, route, order := AppendNearest(locations, oracle, visited, route, order);
      if !ok {
        return OracleFailed;
      }
    }
    assert GreedyLog(locations, answer, order) == [];
    assert oracle.log == oracle.log + GreedyLog(locations, answer, order);
    r := Ok(route);
  }
}
