/** Small value types shared by both route solvers. */
module Base {

  datatype Option<T> = None | Some(value: T)

  /** Outcome of a build that queries the routing service: an oracle failure
      (a failed request, or a reply without a route) aborts the whole build. */
  datatype Outcome<T> = Ok(value: T) | OracleFailed

  /** Distances extended with JavaScript's `Infinity`, which the source uses as
      the initial value of matrix cells and of running minima. */
  datatype Ext = Fin(n: nat) | Inf

  /** An answer from the routing service as a distance; no answer reads as `Infinity`. */
  function Known(d: Option<nat>): Ext {
    if d.Some? then Fin(d.value) else Inf
  }

  /** `a + b` on numbers where `Infinity` absorbs everything. */
  function Add(a: Ext, b: Ext): Ext {
    if a.Fin? && b.Fin? then Fin(a.n + b.n) else Inf
  }

  /** `a < b`: a finite number is below `Infinity`, and `Infinity < Infinity` is false. */
  predicate Less(a: Ext, b: Ext) {
    a.Fin? && (b.Inf? || a.n < b.n)
  }

  /** `a <= b`, the reflexive closure of `Less`. */
  predicate Le(a: Ext, b: Ext) {
    b.Inf? || (a.Fin? && a.n <= b.n)
  }

  /** No element occurs twice. */
  predicate NoDup<T(==)>(s: seq<T>) {
    forall i, j :: 0 <= i < j < |s| ==> s[i] != s[j]
  }
}
