/** The distance-matrix fill of `calculateOptimalRouteWithChains`: one oracle
    query per unordered pair `i < j`, stored in both `[i][j]` and `[j][i]`;
    the diagonal keeps its initial `Infinity`. */
module DistanceMatrix {
  import opened Base
  import opened DistanceOracle

  // ---------------------------------------------------------------------------
  // Query order

  /** The pairs visited by row `i` of the nested loop: `(i, i+1), ..., (i, n-1)`. */
  function Row(i: nat, n: nat): (r: seq<(nat, nat)>)
    requires i < n
    ensures |r| == n - i - 1
    ensures forall k :: 0 <= k < |r| ==> r[k] == (i, i + 1 + k)
  {
    seq(n - i - 1, k requires 0 <= k < n - i - 1 => (i, i + 1 + k))
  }

  /** The pairs visited by rows `0 .. i-1`, in loop order. */
  function RowsBefore(i: nat, n: nat): (r: seq<(nat, nat)>)
    requires i <= n
    ensures InRange(r, n)
  {
    if i == 0 then [] else RowsBefore(i - 1, n) + Row(i - 1, n)
  }

  /** Every pair the fill loop queries, in the order it queries them. */
  function FillOrder(n: nat): (r: seq<(nat, nat)>)
    ensures InRange(r, n)
  {
    RowsBefore(n, n)
  }

  predicate InRange(ps: seq<(nat, nat)>, n: nat) {
    forall p :: p in ps ==> p.0 < n && p.1 < n
  }

  /** The oracle calls that querying the pairs `ps` of positions of `locs` makes. */
  function Queries<P>(locs: seq<P>, ps: seq<(nat, nat)>): (q: seq<(P, P)>)
    requires InRange(ps, |locs|)
    ensures |q| == |ps|
    ensures forall k :: 0 <= k < |ps| ==> q[k] == (locs[ps[k].0], locs[ps[k].1])
  {
    seq(|ps|, k requires 0 <= k < |ps| => (locs[ps[k].0], locs[ps[k].1]))
  }

  /** The pairs the first `i` rows query are exactly the pairs `a < b < n` with `a < i`. */
  lemma {:induction false} RowsBeforeMembers(i: nat, n: nat)
    requires i <= n
    ensures forall a: nat, b: nat :: (a, b) in RowsBefore(i, n) <==> a < b < n && a < i
  {
    if i > 0 {
      RowsBeforeMembers(i - 1, n);
      var row := Row(i - 1, n);
      forall a: nat, b: nat
        ensures (a, b) in RowsBefore(i, n) <==> a < b < n && a < i
      {
        if a == i - 1 && a < b < n {
          assert row[b - i] == (a, b);
        }
      }
    }
  }

  /** No pair is queried twice. */
  lemma {:induction false} RowsBeforeNoDup(i: nat, n: nat)
    requires i <= n
    ensures NoDup(RowsBefore(i, n))
  {
    if i > 0 {
      RowsBeforeNoDup(i - 1, n);
      RowsBeforeMembers(i - 1, n);
      var prev, row := RowsBefore(i - 1, n), Row(i - 1, n);
      var all := prev + row;
      forall x, y | 0 <= x < y < |all|
        ensures all[x] != all[y]
      {
        if y < |prev| {
          assert all[x] == prev[x] && all[y] == prev[y];
        } else if x >= |prev| {
          assert all[x] == row[x - |prev|] && all[y] == row[y - |prev|];
        } else {
          assert all[x] in prev && all[y] == row[y - |prev|];
        }
      }
    }
  }

  lemma {:induction false} RowsBeforeCount(i: nat, n: nat)
    requires i <= n
    ensures 2 * |RowsBefore(i, n)| == i * (2 * n - i - 1)
  {
    if i > 0 {
      RowsBeforeCount(i - 1, n);
      assert 2 * |RowsBefore(i, n)| == (i - 1) * (2 * n - i) + 2 * (n - i);
    }
  }

  /** The fill queries exactly the pairs `i < j < n`, each once: n(n-1)/2 calls,
      none of them on the diagonal. */
  lemma FillOrderQueriesEachPairOnce(n: nat)
    ensures |FillOrder(n)| == n * (n - 1) / 2
    ensures NoDup(FillOrder(n))
    ensures forall i: nat, j: nat :: (i, j) in FillOrder(n) <==> i < j < n
  {
    RowsBeforeCount(n, n);
    RowsBeforeNoDup(n, n);
    RowsBeforeMembers(n, n);
  }

  lemma {:induction false} RowsBeforePrefix(i: nat, i': nat, n: nat)
    requires i <= i' <= n
    ensures RowsBefore(i, n) <= RowsBefore(i', n)
    decreases i' - i
  {
    if i < i' {
      RowsBeforePrefix(i, i' - 1, n);
    }
  }

  lemma QueriesAppend<P>(locs: seq<P>, ps: seq<(nat, nat)>, p: (nat, nat))
    requires InRange(ps, |locs|) && p.0 < |locs| && p.1 < |locs|
    ensures InRange(ps + [p], |locs|)
    ensures Queries(locs, ps + [p]) == Queries(locs, ps) + [(locs[p.0], locs[p.1])]
  {
    assert InRange(ps + [p], |locs|);
  }

  // ---------------------------------------------------------------------------
  // Matrix contents

  /** Every query of the fill succeeds. */
  ghost predicate AllAnswered<P>(locs: seq<P>, answer: (P, P) -> Option<nat>) {
    forall i, j :: 0 <= i < j < |locs| ==> answer(locs[i], locs[j]).Some?
  }

  /** What the fill stores at `[i][j]`: the answer for the pair in loop order
      (lower position first) off the diagonal, the initial `Infinity` on it. */
  function Cell<P>(locs: seq<P>, answer: (P, P) -> Option<nat>, i: nat, j: nat): Ext
    requires i < |locs| && j < |locs|
  {
    if i == j then Inf
    else if i < j then Known(answer(locs[i], locs[j]))
    else Known(answer(locs[j], locs[i]))
  }

  predicate Square<T>(g: seq<seq<T>>, n: nat) {
    |g| == n && forall i :: 0 <= i < n ==> |g[i]| == n
  }

  /** The completed distance matrix: symmetric even when the routing service is
      not, `Infinity` on the diagonal, finite everywhere else once every query
      has been answered. */
  function Filled<P>(locs: seq<P>, answer: (P, P) -> Option<nat>): (g: seq<seq<Ext>>)
    ensures Square(g, |locs|)
    ensures forall i, j :: 0 <= i < |locs| && 0 <= j < |locs| ==> g[i][j] == g[j][i]
    ensures forall i :: 0 <= i < |locs| ==> g[i][i] == Inf
    ensures forall i, j :: 0 <= i < j < |locs| ==> g[i][j] == Known(answer(locs[i], locs[j]))
    ensures AllAnswered(locs, answer) ==>
      forall i, j :: 0 <= i < |locs| && 0 <= j < |locs| && i != j ==> g[i][j].Fin?
  {
    seq(|locs|, i requires 0 <= i < |locs| =>
      seq(|locs|, j requires 0 <= j < |locs| => Cell(locs, answer, i, j)))
  }

  /** The contents of a two-dimensional array as nested sequences. */
  ghost function Snap(m: array2<Ext>): (g: seq<seq<Ext>>)
    reads m
    ensures |g| == m.Length0 && forall i :: 0 <= i < m.Length0 ==> |g[i]| == m.Length1
    ensures forall i, j :: 0 <= i < m.Length0 && 0 <= j < m.Length1 ==> g[i][j] == m[i, j]
  {
    seq(m.Length0, i requires 0 <= i < m.Length0 reads m =>
      seq(m.Length1, j requires 0 <= j < m.Length1 reads m => m[i, j]))
  }

  lemma QueriesConcat<P>(locs: seq<P>, a: seq<(nat, nat)>, b: seq<(nat, nat)>)
    requires InRange(a, |locs|) && InRange(b, |locs|)
    ensures InRange(a + b, |locs|)
    ensures Queries(locs, a + b) == Queries(locs, a) + Queries(locs, b)
  {
    assert InRange(a + b, |locs|);
  }

  /** Where query `t` of row `i` sits in the whole fill order. */
  lemma PrefixOfConcat<T>(a: seq<T>, b: seq<T>, c: seq<T>, t: nat)
    requires |a| + |b| <= |c| && c[..|a| + |b|] == a + b && t < |b|
    ensures c[..|a| + t + 1] == a + b[..t + 1]
    ensures c[|a| + t] == b[t]
  {
    assert c[..|a| + t + 1] == (a + b)[..|a| + t + 1];
    assert c[|a| + t] == (a + b)[|a| + t];
  }

  lemma FillOrderAt(i: nat, t: nat, n: nat)
    requires i < n && t < n - i - 1
    ensures |RowsBefore(i, n)| + t < |FillOrder(n)|
    ensures FillOrder(n)[..|RowsBefore(i, n)| + t + 1] == RowsBefore(i, n) + Row(i, n)[..t + 1]
    ensures FillOrder(n)[|RowsBefore(i, n)| + t] == (i, i + 1 + t)
  {
    var before, row := RowsBefore(i, n), Row(i, n);
    RowsBeforePrefix(i + 1, n, n);
    assert RowsBefore(i + 1, n) == before + row;
    PrefixOfConcat(before, row, FillOrder(n), t);
    assert row[t] == (i, i + 1 + t);
  }

  /** The log grew by the fill order up to and including query `k`, every
      query before `k` was answered, and query `k` failed. */
  ghost predicate StoppedAt<P>(locs: seq<P>, answer: (P, P) -> Option<nat>, log0: seq<(P, P)>,
                               log: seq<(P, P)>, k: nat) {
    && k < |FillOrder(|locs|)|
    && InRange(FillOrder(|locs|)[..k + 1], |locs|)
    && log == log0 + Queries(locs, FillOrder(|locs|)[..k + 1])
    && (forall k' :: 0 <= k' < k ==>
          answer(locs[FillOrder(|locs|)[k'].0], locs[FillOrder(|locs|)[k'].1]).Some?)
    && answer(locs[FillOrder(|locs|)[k].0], locs[FillOrder(|locs|)[k].1]).None?
  }

  /** Before query `t` of row `i`, every query of the fill order was answered. */
  lemma AnsweredUpTo<P>(locs: seq<P>, answer: (P, P) -> Option<nat>, i: nat, t: nat)
    requires i < |locs| && t < |locs| - i - 1
    requires AnsweredBefore(locs, answer, i)
    requires forall b :: i < b < i + 1 + t ==> answer(locs[i], locs[b]).Some?
    ensures |RowsBefore(i, |locs|)| + t < |FillOrder(|locs|)|
    ensures forall k' :: 0 <= k' < |RowsBefore(i, |locs|)| + t ==>
      answer(locs[FillOrder(|locs|)[k'].0], locs[FillOrder(|locs|)[k'].1]).Some?
  {
    var n := |locs|;
    var before, part := RowsBefore(i, n), Row(i, n)[..t + 1];
    FillOrderAt(i, t, n);
    RowsBeforeMembers(i, n);
    forall k' | 0 <= k' < |before| + t
      ensures answer(locs[FillOrder(n)[k'].0], locs[FillOrder(n)[k'].1]).Some?
    {
      var q := FillOrder(n)[k'];
      assert q == FillOrder(n)[..|before| + t + 1][k'] == (before + part)[k'];
      if k' < |before| {
        assert q in before;
      } else {
        assert q == (i, i + 1 + (k' - |before|));
      }
    }
  }

  /** A failure at query `t` of row `i`, after every earlier query was
      answered, leaves a log that is a prefix of the fill order ending with that
      query. */
  lemma FailureIsLogged<P>(locs: seq<P>, answer: (P, P) -> Option<nat>, log0: seq<(P, P)>,
                           logBefore: seq<(P, P)>, log: seq<(P, P)>, i: nat, t: nat) returns (k: nat)
    requires i < |locs| && t < |locs| - i - 1
    requires InRange(RowsBefore(i, |locs|), |locs|) && InRange(Row(i, |locs|)[..t + 1], |locs|)
    requires logBefore == log0 + Queries(locs, RowsBefore(i, |locs|))
    requires log == logBefore + Queries(locs, Row(i, |locs|)[..t + 1])
    requires AnsweredBefore(locs, answer, i)
    requires forall b :: i < b < i + 1 + t ==> answer(locs[i], locs[b]).Some?
    requires answer(locs[i], locs[i + 1 + t]).None?
    ensures StoppedAt(locs, answer, log0, log, k)
    ensures !AllAnswered(locs, answer)
  {
    var n := |locs|;
    var before, part := RowsBefore(i, n), Row(i, n)[..t + 1];
    k := |before| + t;
    FillOrderAt(i, t, n);
    LogExtends(locs, log0, logBefore, log, before, part);
    AnsweredUpTo(locs, answer, i, t);
    assert FillOrder(n)[..k + 1] == before + part;
  }

  /** Querying `a` and then `b` logs the queries of `a + b`. */
  lemma LogExtends<P>(locs: seq<P>, log0: seq<(P, P)>, logBefore: seq<(P, P)>, log: seq<(P, P)>,
                      a: seq<(nat, nat)>, b: seq<(nat, nat)>)
    requires InRange(a, |locs|) && InRange(b, |locs|)
    requires logBefore == log0 + Queries(locs, a) && log == logBefore + Queries(locs, b)
    ensures InRange(a + b, |locs|) && log == log0 + Queries(locs, a + b)
  {
    QueriesConcat(locs, a, b);
    var qa, qb := Queries(locs, a), Queries(locs, b);
    assert (log0 + qa) + qb == log0 + (qa + qb);
  }

  /** Every query of the first `i` rows succeeded. */
  ghost predicate AnsweredBefore<P>(locs: seq<P>, answer: (P, P) -> Option<nat>, i: nat) {
    forall a, b :: 0 <= a < b < |locs| && a < i ==> answer(locs[a], locs[b]).Some?
  }

  lemma RowAnswered<P>(locs: seq<P>, answer: (P, P) -> Option<nat>, i: nat)
    requires i < |locs| && AnsweredBefore(locs, answer, i)
    requires forall b :: i < b < |locs| ==> answer(locs[i], locs[b]).Some?
    ensures AnsweredBefore(locs, answer, i + 1)
  {
  }

  /** A completed row extends the log by that row's queries. */
  lemma RowLogged<P>(locs: seq<P>, log0: seq<(P, P)>, logBefore: seq<(P, P)>, log: seq<(P, P)>, i: nat)
    requires i < |locs|
    requires logBefore == log0 + Queries(locs, RowsBefore(i, |locs|))
    requires log == logBefore + Queries(locs, Row(i, |locs|))
    ensures log == log0 + Queries(locs, RowsBefore(i + 1, |locs|))
  {
    LogExtends(locs, log0, logBefore, log, RowsBefore(i, |locs|), Row(i, |locs|));
    assert RowsBefore(i + 1, |locs|) == RowsBefore(i, |locs|) + Row(i, |locs|);
  }

  /** The first `i` rows and, of row `i`, the columns before `j` are written. */
  predicate Written(a: nat, b: nat, i: nat, j: nat) {
    var lo, hi := if a < b then a else b, if a < b then b else a;
    lo < hi && (lo < i || (lo == i && hi < j))
  }

  /** The matrix holds the fill's value at the written cells and `Infinity` elsewhere. */
  ghost predicate FilledUpTo<P>(m: array2<Ext>, locs: seq<P>, answer: (P, P) -> Option<nat>, i: nat, j: nat)
    reads m
    requires m.Length0 == |locs| && m.Length1 == |locs|
  {
    forall a, b :: 0 <= a < |locs| && 0 <= b < |locs| ==>
      m[a, b] == if Written(a, b, i, j) then Cell(locs, answer, a, b) else Inf
  }

  /** Every cell of `m` holds what the fill stores there. */
  ghost predicate HoldsFill<P>(m: array2<Ext>, locs: seq<P>, answer: (P, P) -> Option<nat>)
    reads m
    requires m.Length0 == |locs| && m.Length1 == |locs|
  {
    FilledUpTo(m, locs, answer, |locs|, 0)
  }

  /** A completely filled array is the matrix `Filled` describes. */
  lemma SnapFilled<P>(m: array2<Ext>, locs: seq<P>, answer: (P, P) -> Option<nat>)
    requires m.Length0 == |locs| && m.Length1 == |locs|
    requires HoldsFill(m, locs, answer)
    ensures Snap(m) == Filled(locs, answer)
  {
    var n, g := |locs|, Filled(locs, answer);
    forall a | 0 <= a < n
      ensures Snap(m)[a] == g[a]
    {
      forall b | 0 <= b < n
        ensures Snap(m)[a][b] == g[a][b]
      {
        assert a != b ==> Written(a, b, n, 0);
      }
    }
  }

  /** Stores one answer in both symmetric cells of the matrix. */
  method StorePair<P>(m: array2<Ext>, locs: seq<P>, answer: (P, P) -> Option<nat>, i: nat, j: nat, d: nat)
    requires i < j < |locs| && m.Length0 == |locs| && m.Length1 == |locs|
    requires FilledUpTo(m, locs, answer, i, j) && answer(locs[i], locs[j]) == Some(d)
    modifies m
    ensures FilledUpTo(m, locs, answer, i, j + 1)
  {
    m[i, j] := Fin(d);
    m[j, i] := Fin(d);
    forall a, b | 0 <= a < |locs| && 0 <= b < |locs|
      ensures m[a, b] == if Written(a, b, i, j + 1) then Cell(locs, answer, a, b) else Inf
    {
      if !((a == i && b == j) || (a == j && b == i)) {
        assert Written(a, b, i, j + 1) == Written(a, b, i, j);
      }
    }
  }

  /** The inner loop for row `i`: queries `(i, j)` for every `j > i` and stores
      each answer at `[i][j]` and `[j][i]`; stops at the first failing query. */
  method FillRow<P>(locs: seq<P>, oracle: Oracle<P>, m: array2<Ext>, i: nat) returns (ok: bool, ghost t: nat)
    requires i < |locs| && m.Length0 == |locs| && m.Length1 == |locs|
    requires FilledUpTo(m, locs, oracle.answer, i, 0)
    modifies oracle, m
    ensures ok ==> FilledUpTo(m, locs, oracle.answer, i + 1, 0)
    ensures ok ==> oracle.log == old(oracle.log) + Queries(locs, Row(i, |locs|))
    ensures ok ==> forall b :: i < b < |locs| ==> oracle.answer(locs[i], locs[b]).Some?
    ensures !ok ==>
      && t < |locs| - i - 1
      && InRange(Row(i, |locs|)[..t + 1], |locs|)
      && oracle.log == old(oracle.log) + Queries(locs, Row(i, |locs|)[..t + 1])
      && (forall b :: i < b < i + 1 + t ==> oracle.answer(locs[i], locs[b]).Some?)
      && oracle.answer(locs[i], locs[i + 1 + t]).None?
  {
    var n := |locs|;
    ghost var row := Row(i, n);
    for j := i + 1 to n
      invariant InRange(row[..j - i - 1], n)
      invariant oracle.log == old(oracle.log) + Queries(locs, row[..j - i - 1])
      invariant FilledUpTo(m, locs, oracle.answer, i, j)
      invariant forall b :: i < b < j ==> oracle.answer(locs[i], locs[b]).Some?
    {
      var d := oracle.Query(locs[i], locs[j]);
      assert row[..j - i] == row[..j - i - 1] + [(i, j)];
      QueriesAppend(locs, row[..j - i - 1], (i, j));
      if d.None? {
        return false, j - i - 1;
      }
      StorePair(m, locs, oracle.answer, i, j, d.value);
    }
    assert row[..n - i - 1] == row;
    ok, t := true, 0;
  }

  /** The nested fill loop. `None` when a query fails: the build is abandoned and
      no matrix is produced; the log then ends with the first failing query. */
  method FillDistances<P>(locs: seq<P>, oracle: Oracle<P>) returns (r: Option<array2<Ext>>)
    modifies oracle
    ensures r.Some? <==> AllAnswered(locs, oracle.answer)
    ensures r.Some? ==>
      && fresh(r.value)
      && r.value.Length0 == |locs| && r.value.Length1 == |locs|
      && HoldsFill(r.value, locs, oracle.answer)
      && oracle.log == old(oracle.log) + Queries(locs, FillOrder(|locs|))
    ensures r.None? ==> exists k :: StoppedAt(locs, oracle.answer, old(oracle.log), oracle.log, k)
  {
    var n := |locs|;
    var m := new Ext[n, n]((_, _) => Inf);
    for i := 0 to n
      invariant oracle.log == old(oracle.log) + Queries(locs, RowsBefore(i, n))
      invariant FilledUpTo(m, locs, oracle.answer, i, 0)
      invariant AnsweredBefore(locs, oracle.answer, i)
    {
      ghost var logBefore := oracle.log;
      var ok, t := FillRow(locs, oracle, m, i);
      if !ok {
        ghost var k := FailureIsLogged(locs, oracle.answer, old(oracle.log), logBefore, oracle.log, i, t);
        return None;
      }
      RowLogged(locs, old(oracle.log), logBefore, oracle.log, i);
      RowAnswered(locs, oracle.answer, i);
    }
    r := Some(m);
  }
}
