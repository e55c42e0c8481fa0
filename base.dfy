/** Vectors, the L2 distance and the error outcomes shared by the whole index. */
module Base {

  /** A point of the index: a fixed-dimensional vector of scalars. */
  type Vector = seq<real>

  /** The failures the index raises as exceptions. */
  datatype Error =
    | DimensionMismatch   // two vectors of different length were compared
    | UnknownSelectMode   // the neighbour-selection mode is neither "simple" nor "heuristic"

  datatype Option<T> = None | Some(value: T)

  datatype Result<T> = Ok(value: T) | Err(error: Error)

  datatype Outcome = Pass | Fail(error: Error)

  function Min(a: int, b: int): (r: int)
  {
    if a <= b then a else b
  }

  function Max(a: int, b: int): (r: int)
  {
    if a >= b then a else b
  }

  /** No element occurs twice. */
  ghost predicate NoRepeats(s: seq<nat>)
  {
    forall x :: multiset(s)[x] <= 1
  }

  /**
   * Squared Euclidean distance. The square root the index applies on top is
   * monotone, so every comparison between two distances comes out the same.
   * Defined on vectors of any length (over the common prefix); callers only
   * use it on vectors of equal length.
   */
  function SqDist(u: Vector, v: Vector): (d: real)
  {
    if u == [] || v == [] then 0.0
    else (u[0] - v[0]) * (u[0] - v[0]) + SqDist(u[1..], v[1..])
  }

  /** A distance is never negative. */
  lemma {:induction false} SqDistNonNegative(u: Vector, v: Vector)
    ensures SqDist(u, v) >= 0.0
  {
    if u != [] && v != [] {
      SqDistNonNegative(u[1..], v[1..]);
      assert (u[0] - v[0]) * (u[0] - v[0]) >= 0.0;
    }
  }

  /** In a list without repeats, no element occurs before its own position. */
  lemma FirstOccurrence(s: seq<nat>, t: nat)
    requires NoRepeats(s) && t < |s|
    ensures s[t] !in s[..t]
  {
    assert s == s[..t] + s[t..];
    assert multiset(s) == multiset(s[..t]) + multiset(s[t..]);
    assert s[t] in multiset(s[t..]) && multiset(s)[s[t]] <= 1;
    assert multiset(s[..t])[s[t]] == 0;
  }

  /** A prefix one longer is the shorter prefix and the next element. */
  lemma PrefixSnoc<T>(s: seq<T>, k: nat)
    requires k < |s|
    ensures s[..k + 1] == s[..k] + [s[k]]
  {
  }

  /** The prefix as long as the sequence is the sequence. */
  lemma PrefixFull<T>(s: seq<T>)
    ensures s[..|s|] == s
  {
  }

  /** A vector is at distance zero from itself. */
  lemma {:induction false} SqDistSelf(u: Vector)
    ensures SqDist(u, u) == 0.0
  {
    if u != [] {
      SqDistSelf(u[1..]);
    }
  }
}
