/** Definitions shared by the models. */
module Common {

  /** A value that may be absent: the source's NULL pointers. */
  datatype Option<+T> = None | Some(value: T)

  /** No element occurs at two positions. */
  ghost predicate Distinct<T>(s: seq<T>) {
    forall i, j :: 0 <= i < j < |s| ==> s[i] != s[j]
  }

  lemma DistinctFrom<T>(s: seq<T>, k: nat)
    requires Distinct(s) && k < |s|
    ensures forall i :: 0 <= i < |s| && i != k ==> s[i] != s[k]
  {
  }

  /** The elements `x` of `s` with `p(x) == b`, in their order. */
  ghost function Filter<T>(s: seq<T>, p: T -> bool, b: bool): (r: seq<T>)
    ensures |r| <= |s|
  {
    if s == [] then [] else (if p(s[0]) == b then [s[0]] else []) + Filter(s[1..], p, b)
  }

  lemma {:induction false} FilterConcat<T>(s: seq<T>, t: seq<T>, p: T -> bool, b: bool)
    ensures Filter(s + t, p, b) == Filter(s, p, b) + Filter(t, p, b)
  {
    if s == [] {
      assert s + t == t;
    } else {
      var h := if p(s[0]) == b then [s[0]] else [];
      var x, y := Filter(s[1..], p, b), Filter(t, p, b);
      assert Filter(s + t, p, b) == h + (x + y) by {
        assert (s + t)[1..] == s[1..] + t;
        FilterConcat(s[1..], t, p, b);
      }
      assert h + (x + y) == (h + x) + y;
    }
  }

  /** A filter keeps everything when every element passes, and nothing when none does. */
  lemma {:induction false} FilterAllOrNone<T>(s: seq<T>, p: T -> bool, b: bool)
    ensures (forall i :: 0 <= i < |s| ==> p(s[i]) == b) ==> Filter(s, p, b) == s
    ensures (forall i :: 0 <= i < |s| ==> p(s[i]) != b) ==> Filter(s, p, b) == []
  {
    if s != [] {
      FilterAllOrNone(s[1..], p, b);
      assert s == [s[0]] + s[1..];
    }
  }

  /** `x` passes the filter exactly when it occurs and satisfies the predicate. */
  lemma {:induction false} FilterMember<T>(s: seq<T>, p: T -> bool, b: bool, x: T)
    ensures x in Filter(s, p, b) <==> x in s && p(x) == b
  {
    if s != [] {
      FilterMember(s[1..], p, b, x);
      assert x in s <==> x == s[0] || x in s[1..];
    }
  }

  /** Predicates that agree on the elements filter alike. */
  lemma {:induction false} FilterAlike<T>(s: seq<T>, p: T -> bool, q: T -> bool)
    requires forall x :: x in s ==> p(x) == q(x)
    ensures Filter(s, p, true) == Filter(s, q, true)
  {
    if s != [] {
      FilterAlike(s[1..], p, q);
    }
  }

  /** Filtering twice is filtering by both. */
  lemma {:induction false} FilterTwice<T>(s: seq<T>, p: T -> bool, q: T -> bool, r: T -> bool)
    requires forall x :: x in s ==> (r(x) <==> p(x) && q(x))
    ensures Filter(Filter(s, p, true), q, true) == Filter(s, r, true)
  {
    if s != [] {
      var rest := Filter(s[1..], p, true);
      FilterTwice(s[1..], p, q, r);
      if p(s[0]) {
        assert ([s[0]] + rest)[1..] == rest;
      } else {
        assert [] + rest == rest;
      }
    }
  }

  /** The sequence without the element at `k`; unchanged when there is no such position. */
  ghost function Without<T>(s: seq<T>, k: nat): seq<T> {
    if k < |s| then s[..k] + s[k + 1..] else s
  }

  /** `x` placed at position `k`. */
  ghost function Placed<T>(s: seq<T>, k: nat, x: T): seq<T>
    requires k <= |s|
  {
    s[..k] + [x] + s[k..]
  }

  lemma WithoutAt<T>(s: seq<T>, k: nat)
    requires k < |s|
    ensures |Without(s, k)| == |s| - 1
    ensures forall i {:trigger Without(s, k)[i]} :: 0 <= i < |s| - 1 ==>
              Without(s, k)[i] == s[if i < k then i else i + 1]
    ensures Distinct(s) ==> Distinct(Without(s, k))
    ensures forall x :: x in Without(s, k) ==> x in s
  {
  }

  /** Where an element comes from. */
  lemma WithoutIndex<T>(s: seq<T>, k: nat, i: nat)
    requires k < |s| && i < |Without(s, k)|
    ensures |Without(s, k)| == |s| - 1 && Without(s, k)[i] == s[if i < k then i else i + 1]
  {
  }

  lemma WithoutDistinct<T>(s: seq<T>, k: nat)
    requires k < |s| && Distinct(s)
    ensures s[k] !in Without(s, k) && Distinct(Without(s, k))
    ensures forall x :: x in Without(s, k) ==> x in s
  {
    WithoutAt(s, k);
    DistinctFrom(s, k);
    hide Without, Distinct;
  }

  lemma NothingInFront<T>(s: seq<T>)
    ensures [] + s == s
  {
  }

  lemma PlacedAt<T>(s: seq<T>, k: nat, x: T)
    requires k <= |s|
    ensures |Placed(s, k, x)| == |s| + 1
    ensures Distinct(s) && x !in s ==> Distinct(Placed(s, k, x))
    ensures forall i {:trigger Placed(s, k, x)[i]} :: 0 <= i <= |s| ==>
              Placed(s, k, x)[i] == if i < k then s[i] else if i == k then x else s[i - 1]
  {
  }

  lemma PlacedMembers<T>(s: seq<T>, k: nat, x: T)
    requires k <= |s|
    ensures forall y :: y in Placed(s, k, x) <==> y == x || y in s
  {
    assert s == s[..k] + s[k..];
  }

  lemma WithoutMembers<T>(s: seq<T>, k: nat)
    requires k < |s| && Distinct(s)
    ensures forall y :: y in Without(s, k) <==> y in s && y != s[k]
  {
    assert s == s[..k] + [s[k]] + s[k + 1..];
  }
}
