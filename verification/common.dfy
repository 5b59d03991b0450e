/** Shared vocabulary of the quiz back-end model: identifiers, optional values,
    the error kinds the services throw, and two generic helpers over the
    in-memory tables (filtering a row list, and a first-match search by id). */
module Common {

  /** Primary keys are database auto-increment integers. */
  type Id = nat

  /** A point in time; the services only ever stamp "now". */
  type Timestamp = nat

  datatype Option<T> = None | Some(value: T)

  /** The exception classes the services raise, by HTTP category. A plain
      `Error` thrown inside a request handler surfaces as InternalServerError. */
  datatype ErrorKind = NotFound | BadRequest | Conflict | InternalServerError

  datatype Result<T> = Ok(value: T) | Err(error: ErrorKind)

  /** JavaScript truthiness of an optional string field: absent and "" are falsy. */
  predicate TruthyText(o: Option<string>) {
    o.Some? && o.value != ""
  }

  /** JavaScript truthiness of an optional numeric id: absent and 0 are falsy. */
  predicate TruthyId(o: Option<Id>) {
    o.Some? && o.value != 0
  }

  /** The rows of `xs` satisfying `p`, in their original order (a `find` with a `where`). */
  function Filter<T(==,!new)>(xs: seq<T>, p: T -> bool): (r: seq<T>)
    ensures |r| <= |xs|
    ensures forall x :: x in r <==> x in xs && p(x)
  {
    if |xs| == 0 then []
    else if p(xs[0]) then [xs[0]] + Filter(xs[1..], p)
    else Filter(xs[1..], p)
  }

  /** The least key in [lo, hi) whose row satisfies `p`: the row a `findOne`
      returns when the table is scanned in primary-key order. */
  function LeastKey<T>(m: map<Id, T>, p: T -> bool, lo: nat, hi: nat): (r: Option<Id>)
    decreases hi - lo
    ensures r.Some? ==> lo <= r.value < hi && r.value in m && p(m[r.value])
    ensures r.Some? ==> forall k :: lo <= k < r.value && k in m ==> !p(m[k])
    ensures r.None? ==> forall k :: lo <= k < hi && k in m ==> !p(m[k])
  {
    if lo >= hi then None
    else if lo in m && p(m[lo]) then Some(lo)
    else LeastKey(m, p, lo + 1, hi)
  }
}
