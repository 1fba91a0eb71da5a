/** The recursive permutation generator of the exact solver (`getPermutations`). */
module Permutations {
  import opened Base

  function Factorial(n: nat): nat {
    if n == 0 then 1 else n * Factorial(n - 1)
  }

  /** `[...s.slice(0, i), ...s.slice(i + 1)]`: the sequence without position `i`. */
  function RemoveAt<T>(s: seq<T>, i: nat): (r: seq<T>)
    requires i < |s|
    ensures |r| == |s| - 1
  {
    s[..i] + s[i + 1..]
  }

  /** Puts `x` in front of every sequence of `ps`. */
  function Prepend<T>(x: T, ps: seq<seq<T>>): (r: seq<seq<T>>)
    ensures |r| == |ps|
    ensures forall k :: 0 <= k < |r| ==> r[k] == [x] + ps[k]
  {
    seq(|ps|, k requires 0 <= k < |ps| => [x] + ps[k])
  }

  /** All orderings of `s`, in the order the source generates them: inputs of
      length at most 2 are answered directly; longer inputs fix each position in
      turn as the head and recurse on the rest. */
  function Perms<T>(s: seq<T>): seq<seq<T>>
    decreases |s|, 1
  {
    if |s| <= 2 then
      (if |s| == 2 then [s, [s[1], s[0]]] else [s])
    else
      PermsFrom(s, 0)
  }

  /** The `reduce` over positions `i..|s|-1`: the permutations headed by `s[i]`,
      then those headed by each later position. */
  function PermsFrom<T>(s: seq<T>, i: nat): seq<seq<T>>
    requires i <= |s|
    decreases |s|, 0, |s| - i
  {
    if i == |s| then [] else Prepend(s[i], Perms(RemoveAt(s, i))) + PermsFrom(s, i + 1)
  }

  // ---------------------------------------------------------------------------
  // Counting

  /** `getPermutations` returns exactly n! sequences. */
  lemma {:induction false} PermsCount<T>(s: seq<T>)
    ensures |Perms(s)| == Factorial(|s|)
    decreases |s|, 1
  {
    if |s| > 2 {
      PermsFromCount(s, 0);
    } else if |s| == 2 {
      assert Factorial(2) == 2;
    }
  }

  lemma {:induction false} PermsFromCount<T>(s: seq<T>, i: nat)
    requires 0 < |s| && i <= |s|
    ensures |PermsFrom(s, i)| == (|s| - i) * Factorial(|s| - 1)
    decreases |s|, 0, |s| - i
  {
    if i < |s| {
      PermsCount(RemoveAt(s, i));
      PermsFromCount(s, i + 1);
      assert |PermsFrom(s, i)| == Factorial(|s| - 1) + (|s| - i - 1) * Factorial(|s| - 1);
    }
  }

  // ---------------------------------------------------------------------------
  // Every result is a rearrangement of the input

  lemma MultisetRemoveAt<T>(s: seq<T>, k: nat)
    requires k < |s|
    ensures multiset(s) == multiset{s[k]} + multiset(RemoveAt(s, k))
  {
    assert s == s[..k] + [s[k]] + s[k + 1..];
  }

  /** A member of `PermsFrom(s, i)` is some later position's element followed by
      a permutation of the rest. */
  lemma {:induction false} PermsFromMember<T>(s: seq<T>, i: nat, p: seq<T>) returns (k: nat)
    requires i <= |s| && p in PermsFrom(s, i)
    ensures i <= k < |s| && |p| > 0 && p[0] == s[k] && p[1..] in Perms(RemoveAt(s, k))
    decreases |s| - i
  {
    var head := Prepend(s[i], Perms(RemoveAt(s, i)));
    if p in head {
      var j :| 0 <= j < |head| && head[j] == p;
      assert p[1..] == Perms(RemoveAt(s, i))[j];
      k := i;
    } else {
      k := PermsFromMember(s, i + 1, p);
    }
  }

  lemma SwapRearranges<T>(s: seq<T>)
    requires |s| == 2
    ensures multiset([s[1], s[0]]) == multiset(s)
  {
    calc {
      multiset([s[1], s[0]]);
      multiset([s[1]] + [s[0]]);
      multiset([s[1]]) + multiset([s[0]]);
      multiset([s[0]]) + multiset([s[1]]);
      multiset([s[0]] + [s[1]]);
      { assert [s[0]] + [s[1]] == s; }
      multiset(s);
    }
  }

  lemma ConsRearranges<T>(s: seq<T>, k: nat, p: seq<T>)
    requires k < |s| && |p| > 0 && p[0] == s[k] && multiset(p[1..]) == multiset(RemoveAt(s, k))
    ensures multiset(p) == multiset(s)
  {
    MultisetRemoveAt(s, k);
    calc {
      multiset(p);
      { assert p == [p[0]] + p[1..]; }
      multiset([p[0]] + p[1..]);
      multiset([p[0]]) + multiset(p[1..]);
    }
  }

  /** Every sequence `getPermutations` returns has the input's length and multiset. */
  lemma {:induction false} PermIsRearrangement<T>(s: seq<T>, p: seq<T>)
    requires p in Perms(s)
    ensures multiset(p) == multiset(s) && |p| == |s|
    decreases |s|
  {
    if |s| <= 2 {
      if p != s {
        assert |s| == 2 && p == [s[1], s[0]];
        SwapRearranges(s);
      }
    } else {
      var k := PermsFromMember(s, 0, p);
      PermIsRearrangement(RemoveAt(s, k), p[1..]);
      ConsRearranges(s, k, p);
    }
  }

  // ---------------------------------------------------------------------------
  // Every rearrangement is generated

  lemma {:induction false} PermsFromContains<T>(s: seq<T>, i: nat, k: nat, q: seq<T>)
    requires i <= k < |s| && q in Perms(RemoveAt(s, k))
    ensures [s[k]] + q in PermsFrom(s, i)
    decreases k - i
  {
    var head := Prepend(s[i], Perms(RemoveAt(s, i)));
    if k == i {
      var j :| 0 <= j < |Perms(RemoveAt(s, i))| && Perms(RemoveAt(s, i))[j] == q;
      assert head[j] == [s[k]] + q;
    } else {
      PermsFromContains(s, i + 1, k, q);
    }
  }

  lemma HeadOccurs<T>(s: seq<T>, q: seq<T>)
    requires |s| > 0 && multiset(q) == multiset(s)
    ensures |q| == |s| && q[0] in s
  {
    assert |q| == |multiset(q)| == |s|;
    assert q[0] in multiset(q);
  }

  /** A rearrangement of a non-empty `s` starts with some position `k` of `s`
      and continues with a rearrangement of the rest. */
  lemma SplitHead<T>(s: seq<T>, q: seq<T>) returns (k: nat)
    requires |s| > 0 && multiset(q) == multiset(s)
    ensures k < |s| && |q| == |s| && q == [s[k]] + q[1..]
    ensures multiset(q[1..]) == multiset(RemoveAt(s, k))
  {
    HeadOccurs(s, q);
    k :| 0 <= k < |s| && s[k] == q[0];
    MultisetRemoveAt(s, k);
    MultisetRemoveAt(q, 0);
    assert RemoveAt(q, 0) == q[1..];
    assert multiset(q[1..]) == multiset(q) - multiset{q[0]};
    assert multiset(RemoveAt(s, k)) == multiset(s) - multiset{s[k]};
  }

  /** Every rearrangement of the input appears among the generated sequences. */
  lemma {:induction false} PermsComplete<T>(s: seq<T>, q: seq<T>)
    requires multiset(q) == multiset(s)
    ensures q in Perms(s)
    decreases |s|
  {
    if |s| == 0 {
      assert |q| == |multiset(q)| == 0;
    } else {
      var k := SplitHead(s, q);
      var rest := RemoveAt(s, k);
      if |s| == 1 {
        assert q == s;
      } else if |s| == 2 {
        var k' := SplitHead(rest, q[1..]);
        assert q[1..] == rest;
        if k == 0 {
          assert q == [s[0], s[1]] == s;
        } else {
          assert q == [s[1], s[0]];
        }
      } else {
        PermsComplete(rest, q[1..]);
        PermsFromContains(s, 0, k, q[1..]);
      }
    }
  }

  // ---------------------------------------------------------------------------
  // Distinct inputs give pairwise-distinct results

  lemma NoDupRemoveAt<T>(s: seq<T>, k: nat)
    requires k < |s| && NoDup(s)
    ensures NoDup(RemoveAt(s, k))
  {
    var r := RemoveAt(s, k);
    forall a, b | 0 <= a < b < |r|
      ensures r[a] != r[b]
    {
      var a' := if a < k then a else a + 1;
      var b' := if b < k then b else b + 1;
      assert r[a] == s[a'] && r[b] == s[b'] && a' < b';
    }
  }

  lemma NoDupPrepend<T>(x: T, ps: seq<seq<T>>)
    requires NoDup(ps)
    ensures NoDup(Prepend(x, ps))
  {
    var r := Prepend(x, ps);
    forall a, b | 0 <= a < b < |r|
      ensures r[a] != r[b]
    {
      assert r[a][1..] == ps[a] && r[b][1..] == ps[b];
    }
  }

  lemma NoDupConcat<T>(a: seq<T>, b: seq<T>)
    requires NoDup(a) && NoDup(b)
    requires forall x, y :: x in a && y in b ==> x != y
    ensures NoDup(a + b)
  {
    var c := a + b;
    forall i, j | 0 <= i < j < |c|
      ensures c[i] != c[j]
    {
      if j < |a| {
        assert c[i] == a[i] && c[j] == a[j];
      } else if i >= |a| {
        assert c[i] == b[i - |a|] && c[j] == b[j - |a|];
      } else {
        assert c[i] in a && c[j] in b;
      }
    }
  }

  lemma {:induction false} PermsFromNoDup<T>(s: seq<T>, i: nat)
    requires i <= |s| && NoDup(s)
    ensures NoDup(PermsFrom(s, i))
    decreases |s|, 0, |s| - i
  {
    if i < |s| {
      var head := Prepend(s[i], Perms(RemoveAt(s, i)));
      NoDupRemoveAt(s, i);
      PermsNoDup(RemoveAt(s, i));
      NoDupPrepend(s[i], Perms(RemoveAt(s, i)));
      var tail := PermsFrom(s, i + 1);
      PermsFromNoDup(s, i + 1);
      forall x, y | x in head && y in tail
        ensures x != y
      {
        var k := PermsFromMember(s, i + 1, y);
        var j :| 0 <= j < |head| && head[j] == x;
        assert x[0] == s[i] && y[0] == s[k];
      }
      NoDupConcat(head, tail);
    }
  }

  /** On an input of distinct elements the generated sequences are pairwise distinct. */
  lemma {:induction false} PermsNoDup<T>(s: seq<T>)
    requires NoDup(s)
    ensures NoDup(Perms(s))
    decreases |s|, 1
  {
    if |s| == 2 {
      assert [s[1], s[0]][0] != s[0];
    } else if |s| > 2 {
      PermsFromNoDup(s, 0);
    }
  }

  // ---------------------------------------------------------------------------
  // Generation order

  /** The first sequence generated is the input itself, and inputs of length 0
      or 1 yield nothing else. */
  lemma {:induction false} PermsStartWithInput<T>(s: seq<T>)
    ensures |Perms(s)| > 0 && Perms(s)[0] == s
    ensures |s| <= 1 ==> Perms(s) == [s]
    decreases |s|
  {
    if |s| > 2 {
      var rest := RemoveAt(s, 0);
      PermsStartWithInput(rest);
      assert Prepend(s[0], Perms(rest))[0] == [s[0]] + rest;
      assert [s[0]] + rest == s;
    }
  }
}
