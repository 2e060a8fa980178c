/** Failure-carrying datatypes and a few facts about sequences that every other module uses. */
module Common {

  /** A value that may be absent: Python's `None`, or a missing JSON key. */
  datatype Option<+T> = None | Some(value: T) {
    function GetOr(default: T): T {
      match this
      case Some(v) => v
      case None => default
    }
  }

  /** The result of an operation that can raise: `Err` carries what was raised. */
  datatype Result<+T, +E> = Ok(value: T) | Err(error: E)

  /** No element occurs twice. */
  predicate Distinct<T(==)>(xs: seq<T>) {
    forall i, j :: 0 <= i < j < |xs| ==> xs[i] != xs[j]
  }

  /** `xs` lists every element of `s` exactly once, in some order: one possible iteration order of a
      Python `set`, or the rows of a query whose order the store does not specify. */
  predicate Enumerates<T(==)>(xs: seq<T>, s: set<T>) {
    && Distinct(xs)
    && (forall i :: 0 <= i < |xs| ==> xs[i] in s)
    && (forall x :: x in s ==> x in xs)
  }

  /** Concatenation of a sequence of sequences. */
  function Flatten<T>(xss: seq<seq<T>>): seq<T> {
    if |xss| == 0 then [] else xss[0] + Flatten(xss[1..])
  }

  lemma {:induction false} FlattenSnoc<T>(xss: seq<seq<T>>, last: seq<T>)
    ensures Flatten(xss + [last]) == Flatten(xss) + last
    decreases |xss|
  {
    if |xss| == 0 {
      assert xss + [last] == [last];
    } else {
      assert (xss + [last])[1..] == xss[1..] + [last];
      FlattenSnoc(xss[1..], last);
    }
  }

  /** Concatenation is associative; stated on its own so that callers need not prove it over a
      particular element type. */
  lemma ConcatAssoc<T>(x: seq<T>, y: seq<T>, z: seq<T>)
    ensures x + (y + z) == (x + y) + z
  {
  }

  lemma SliceJoin<T>(s: seq<T>, n: nat)
    requires n <= |s|
    ensures s[..n] + s[n..] == s
  {
  }

  lemma DropConcat<T>(x: seq<T>, y: seq<T>, n: nat)
    requires n <= |x|
    ensures (x + y)[n..] == x[n..] + y
  {
  }

  /** The three parts of a concatenation are its slices at the parts' boundaries. */
  lemma ConcatSlices<T>(a: seq<T>, b: seq<T>, c: seq<T>)
    ensures (a + b + c)[..|a|] == a
    ensures (a + b + c)[|a|..|a| + |b|] == b
    ensures (a + b + c)[|a| + |b|..] == c
  {
  }

  /** Iterates a set the way Python iterates one: every element once, in an order the caller cannot
      choose. The order actually taken is returned. */
  method Enumerate<T(==)>(s: set<T>) returns (xs: seq<T>)
    ensures Enumerates(xs, s)
    ensures |xs| == |s|
  {
    xs := [];
    var remaining := s;
    while remaining != {}
      invariant Distinct(xs)
      invariant forall i :: 0 <= i < |xs| ==> xs[i] in s && xs[i] !in remaining
      invariant remaining <= s
      invariant forall x :: x in s ==> x in xs || x in remaining
      invariant |xs| + |remaining| == |s|
      decreases remaining
    {
      var x :| x in remaining;
      xs := xs + [x];
      remaining := remaining - {x};
    }
  }

  /** Listing two disjoint sets one after the other lists their union. */
  lemma EnumeratesConcat<T>(xs: seq<T>, s: set<T>, ys: seq<T>, u: set<T>)
    requires Enumerates(xs, s) && Enumerates(ys, u) && s !! u
    ensures Enumerates(xs + ys, s + u)
  {
    var zs := xs + ys;
    forall i, j | 0 <= i < j < |zs|
      ensures zs[i] != zs[j]
    {
      if j < |xs| {
      } else if i >= |xs| {
        assert zs[i] == ys[i - |xs|] && zs[j] == ys[j - |xs|];
      } else {
        assert zs[i] in s && zs[j] == ys[j - |xs|] && zs[j] in u;
      }
    }
    forall x | x in s + u
      ensures x in zs
    {
      if x in s {
        var i :| 0 <= i < |xs| && xs[i] == x;
        assert zs[i] == x;
      } else {
        var i :| 0 <= i < |ys| && ys[i] == x;
        assert zs[|xs| + i] == x;
      }
    }
  }
}
