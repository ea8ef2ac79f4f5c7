/** Counting the elements of a sequence that satisfy a predicate: the flag counter,
    the number of bombs on the grid and the number of buttons still to press are all
    such counts. */
module Counting {

  /** The number of elements of `s` that satisfy `p`. */
  function Count<T>(s: seq<T>, p: T -> bool): (n: nat)
    ensures n <= |s|
  {
    if s == [] then 0 else Count(s[..|s| - 1], p) + (if p(s[|s| - 1]) then 1 else 0)
  }

  /** Sequences of equal length that agree pointwise under `p` and `q` have equal counts. */
  lemma {:induction false} CountPointwise<T, U>(s: seq<T>, p: T -> bool, t: seq<U>, q: U -> bool)
    requires |s| == |t|
    requires forall i :: 0 <= i < |s| ==> p(s[i]) == q(t[i])
    ensures Count(s, p) == Count(t, q)
  {
    if s != [] {
      CountPointwise(s[..|s| - 1], p, t[..|t| - 1], q);
    }
  }

  /** Replacing one element changes the count by what that element contributed. */
  lemma {:induction false} CountUpdate<T>(s: seq<T>, i: nat, v: T, p: T -> bool)
    requires i < |s|
    ensures Count(s[i := v], p) == Count(s, p) - (if p(s[i]) then 1 else 0) + (if p(v) then 1 else 0)
  {
    var n := |s| - 1;
    if i == n {
      assert s[i := v][..n] == s[..n];
    } else {
      assert s[i := v][..n] == s[..n][i := v];
      CountUpdate(s[..n], i, v, p);
    }
  }

  /** No element satisfies `p`: the count is zero. */
  lemma {:induction false} CountNone<T>(s: seq<T>, p: T -> bool)
    requires forall i :: 0 <= i < |s| ==> !p(s[i])
    ensures Count(s, p) == 0
  {
    if s != [] {
      CountNone(s[..|s| - 1], p);
    }
  }

  /** Every element satisfies `p`: the count is the length. */
  lemma {:induction false} CountAll<T>(s: seq<T>, p: T -> bool)
    requires forall i :: 0 <= i < |s| ==> p(s[i])
    ensures Count(s, p) == |s|
  {
    if s != [] {
      CountAll(s[..|s| - 1], p);
    }
  }

  /** A count below the length leaves an element that does not satisfy `p`. */
  lemma {:induction false} CountShort<T>(s: seq<T>, p: T -> bool)
    requires Count(s, p) < |s|
    ensures exists i :: 0 <= i < |s| && !p(s[i])
  {
    var n := |s| - 1;
    if p(s[n]) {
      CountShort(s[..n], p);
      var i :| 0 <= i < n && !p(s[..n][i]);
      assert !p(s[i]);
    }
  }

  /** A count below the length minus one leaves an element, other than the
      excluded position `e`, that does not satisfy `p`. */
  lemma {:induction false} CountShortExcept<T>(s: seq<T>, p: T -> bool, e: nat)
    requires e < |s| && !p(s[e])
    requires Count(s, p) < |s| - 1
    ensures exists i :: 0 <= i < |s| && i != e && !p(s[i])
  {
    var n := |s| - 1;
    if e == n {
      CountShort(s[..n], p);
      var i :| 0 <= i < n && !p(s[..n][i]);
      assert !p(s[i]);
    } else if p(s[n]) {
      CountShortExcept(s[..n], p, e);
      var i :| 0 <= i < n && i != e && !p(s[..n][i]);
      assert !p(s[i]);
    }
  }

  /** The elements that satisfy `p` and those that do not make up the whole sequence. */
  lemma {:induction false} CountComplement<T>(s: seq<T>, p: T -> bool, q: T -> bool)
    requires forall v :: q(v) == !p(v)
    ensures Count(s, p) + Count(s, q) == |s|
  {
    if s != [] {
      CountComplement(s[..|s| - 1], p, q);
    }
  }

  /** The counting loop: scans `s` once and returns how many elements satisfy `p`. */
  method CountMatching<T>(s: seq<T>, p: T -> bool) returns (n: nat)
    ensures n == Count(s, p)
  {
    n := 0;
    var i := 0;
    while i < |s|
      invariant 0 <= i <= |s|
      invariant n == Count(s[..i], p)
    {
      assert s[..i + 1][..i] == s[..i];
      if p(s[i]) {
        n := n + 1;
      }
      i := i + 1;
    }
    assert s[..i] == s;
  }
}
