/** Aggregation of results under any lawful update function. */
module Aggregation {

  datatype Result = NotRun | Passed | Failed | NeedsReview | NotApplicable | Unknown

  /** Marks the values at which the laws are applied. */
  predicate At(a: Result, b: Result, c: Result) {
    true
  }

  /** What is assumed of the library's update function: associative, commutative, NotRun neutral. */
  ghost predicate Lawful(u: (Result, Result) -> Result) {
    forall a, b, c {:trigger At(a, b, c)} :: At(a, b, c) ==>
      u(u(a, b), c) == u(a, u(b, c)) && u(a, b) == u(b, a) && u(NotRun, a) == a
  }

  function Rank(r: Result): nat {
    match r
    case NotRun => 0
    case NotApplicable => 1
    case Passed => 2
    case NeedsReview => 3
    case Unknown => 4
    case Failed => 5
  }

  /** The laws can be met: taking the more severe result is one such function. */
  lemma SomeLawfulUpdate() returns (u: (Result, Result) -> Result)
    ensures Lawful(u) && Selective(u)
  {
    u := (a, b) => if Rank(a) >= Rank(b) then a else b;
  }

  function Fold(u: (Result, Result) -> Result, rs: seq<Result>): Result {
    if rs == [] then NotRun else u(Fold(u, rs[..|rs| - 1]), rs[|rs| - 1])
  }

  lemma {:induction false} FoldConcat(u: (Result, Result) -> Result, a: seq<Result>, b: seq<Result>)
    requires Lawful(u)
    ensures Fold(u, a + b) == u(Fold(u, a), Fold(u, b))
  {
    if b == [] {
      assert a + b == a;
      assert At(Fold(u, a), NotRun, NotRun);
    } else {
      var front, last := b[..|b| - 1], b[|b| - 1];
      assert (a + b)[..|a + b| - 1] == a + front;
      FoldConcat(u, a, front);
      assert At(Fold(u, a), Fold(u, front), last);
    }
  }

  lemma FoldAppend(u: (Result, Result) -> Result, rs: seq<Result>, r: Result)
    ensures Fold(u, rs + [r]) == u(Fold(u, rs), r)
  {
    assert (rs + [r])[..|rs|] == rs;
  }

  /** The update gives one of the two results, as a choice of the more severe one does. */
  ghost predicate Selective(u: (Result, Result) -> Result) {
    forall a, b :: u(a, b) == a || u(a, b) == b
  }

  /** A fold over some results is one of them. */
  lemma {:induction false} FoldIsSelected(u: (Result, Result) -> Result, rs: seq<Result>)
    requires Lawful(u) && Selective(u) && rs != []
    ensures Fold(u, rs) in rs
  {
    var front, last := rs[..|rs| - 1], rs[|rs| - 1];
    assert rs == front + [last];
    if front == [] {
      assert At(last, last, last);
    } else {
      FoldIsSelected(u, front);
    }
  }

  /** Updating one element updates the fold. */
  lemma {:induction false} FoldUpdate(u: (Result, Result) -> Result, rs: seq<Result>, i: nat, r: Result)
    requires Lawful(u) && i < |rs|
    ensures Fold(u, rs[i := u(rs[i], r)]) == u(Fold(u, rs), r)
  {
    var front, last, changed := rs[..|rs| - 1], rs[|rs| - 1], rs[i := u(rs[i], r)];
    if i == |rs| - 1 {
      assert changed[..|rs| - 1] == front;
      assert At(Fold(u, front), last, r);
    } else {
      assert changed[..|rs| - 1] == front[i := u(rs[i], r)] && changed[|rs| - 1] == last;
      FoldUpdate(u, front, i, r);
      var f := Fold(u, front);
      assert At(f, r, last) && At(r, last, f) && At(f, last, r);
    }
  }

  lemma WithoutOne<T>(s: seq<T>, i: nat)
    requires i < |s|
    ensures multiset(s) == multiset(s[..i] + s[i + 1..]) + multiset{s[i]}
  {
    assert s == s[..i] + [s[i]] + s[i + 1..];
  }

  /** Where the last element of a sits in a permutation of a; the rest is a permutation of the rest. */
  lemma TakeOut<T>(a: seq<T>, b: seq<T>) returns (i: nat)
    requires a != [] && multiset(a) == multiset(b)
    ensures i < |b| && b[i] == a[|a| - 1]
    ensures multiset(a[..|a| - 1]) == multiset(b[..i] + b[i + 1..])
  {
    assert a[|a| - 1] in multiset(b);
    i :| 0 <= i < |b| && b[i] == a[|a| - 1];
    WithoutOne(a, |a| - 1);
    WithoutOne(b, i);
    assert a[..|a| - 1] + a[|a| - 1 + 1..] == a[..|a| - 1];
    assert multiset(a[..|a| - 1]) == multiset(a) - multiset{b[i]};
    assert multiset(b[..i] + b[i + 1..]) == multiset(b) - multiset{b[i]};
  }

  /** Taking an element from anywhere to the end. */
  lemma FoldTakeOut(u: (Result, Result) -> Result, before: seq<Result>, x: Result, after: seq<Result>)
    requires Lawful(u)
    ensures Fold(u, before + [x] + after) == u(Fold(u, before + after), x)
  {
    FoldConcat(u, before + [x], after);
    FoldAppend(u, before, x);
    FoldConcat(u, before, after);
    var p, q := Fold(u, before), Fold(u, after);
    assert At(p, x, q) && At(x, q, p) && At(p, q, x);
  }

  /** The order of results does not matter. */
  lemma {:induction false} FoldOfPermutation(u: (Result, Result) -> Result, a: seq<Result>, b: seq<Result>)
    requires Lawful(u) && multiset(a) == multiset(b)
    ensures Fold(u, a) == Fold(u, b)
    decreases |a|
  {
    if a == [] {
      assert |b| == |multiset(b)| == 0;
    } else {
      var i := TakeOut(a, b);
      FoldTakeOut(u, b[..i], b[i], b[i + 1..]);
      assert b == b[..i] + [b[i]] + b[i + 1..];
      FoldOfPermutation(u, a[..|a| - 1], b[..i] + b[i + 1..]);
    }
  }
}
