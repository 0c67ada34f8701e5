/** Identifiers, Option and Result: the plain values used throughout the model. */
module Common {

  /** Identifiers (`Guid`) are opaque; integers stand for them. */
  type Guid = int

  /** A value that may be absent: C#'s `T?` and `null`. */
  datatype Option<+T> = None | Some(value: T) {
    /** `x ?? d` */
    function GetOr(d: T): T {
      match this
      case Some(v) => v
      case None => d
    }
  }

  /** The outcome of an operation that may throw: `Failure` carries the exception message. */
  datatype Result<+T> = Success(value: T) | Failure(error: string)

  function Max(a: int, b: int): int { if a >= b then a else b }

  function Min(a: int, b: int): int { if a <= b then a else b }

  /** LINQ's `Take(n)`: the first `n` elements, all of them when there are fewer, none when `n <= 0`. */
  function Take<T>(xs: seq<T>, n: int): (r: seq<T>)
    ensures |r| == Min(Max(n, 0), |xs|) && r == xs[..|r|]
  {
    if n <= 0 then [] else if |xs| <= n then xs else xs[..n]
  }

  /** LINQ's `Where(keep)`: the items satisfying `keep`, in order. */
  function Filter<T>(xs: seq<T>, keep: T -> bool): (r: seq<T>)
    ensures |r| <= |xs|
    ensures forall x :: x in r ==> x in xs && keep(x)
    ensures forall x :: x in xs && keep(x) ==> x in r
  {
    if xs == [] then [] else (if keep(xs[0]) then [xs[0]] else []) + Filter(xs[1..], keep)
  }

  /** Filtering works item by item, left to right, so it keeps the order and the repetitions. */
  lemma {:induction false} FilterAppend<T>(a: seq<T>, b: seq<T>, keep: T -> bool)
    ensures Filter(a + b, keep) == Filter(a, keep) + Filter(b, keep)
  {
    if a != [] {
      assert (a + b)[1..] == a[1..] + b;
      FilterAppend(a[1..], b, keep);
    } else {
      assert a + b == b;
    }
  }

  /** One item is kept exactly when it satisfies the predicate. */
  lemma FilterSingleton<T>(x: T, keep: T -> bool)
    ensures Filter([x], keep) == if keep(x) then [x] else []
  {
    assert [x][1..] == [];
  }

  /** A non-empty set of integers has an element to pick. */
  lemma NonEmptyHasElement(s: set<int>)
    requires s != {}
    ensures exists x :: x in s
  {
    if forall x :: x !in s {
      assert false;
    }
  }

  /** A quotient by a positive number lies between the bounds its dividend lies between, scaled. */
  lemma QuotientBounds(s: real, n: real, a: real, b: real)
    requires n > 0.0 && a * n <= s <= b * n
    ensures a <= s / n <= b
  {
    var q := s / n;
    assert q * n == s;
  }
}
