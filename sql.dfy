/** Relational building blocks shared by both crosswalks: SQL NULL as `None`,
    the NULL-rejecting equality of join conditions, COALESCE for the merged
    columns of a `USING` join, and the full outer join. */
module Sql {

  /** A column value that may be NULL. */
  datatype Option<+T> = None | Some(value: T)

  /** A computation that either produces a value or stops with an error
      (a Python exception). */
  datatype Result<+T, +E> = Ok(value: T) | Err(error: E)

  /** `a = b` inside a join or anti-join condition: it holds only when both
      sides are non-NULL and equal; NULL never joins, not even with NULL. */
  predicate SqlEq<T(==)>(a: Option<T>, b: Option<T>)
  {
    a.Some? && a == b
  }

  /** The column that a `USING` full join merges from both sides. */
  function Coalesce<T>(a: Option<T>, b: Option<T>): Option<T>
  {
    if a.Some? then a else b
  }

  /** Applies `f` to every row, keeping the number of rows. */
  function Map<A(==), B(==)>(f: A -> B, s: seq<A>): (r: seq<B>)
    ensures |r| == |s|
    ensures forall i :: 0 <= i < |s| ==> r[i] == f(s[i])
    ensures forall x :: x in s ==> f(x) in r
    ensures forall y :: y in r ==> exists x :: x in s && y == f(x)
  {
    if s == [] then [] else [f(s[0])] + Map(f, s[1..])
  }

  /** `WHERE p` (or a polars `filter`): the rows satisfying p, in order. */
  function Where<T(==, !new)>(p: T -> bool, s: seq<T>): (r: seq<T>)
    ensures forall x :: x in r <==> x in s && p(x)
    ensures multiset(r) <= multiset(s)
  {
    if s == [] then []
    else
      var rest := Where(p, s[1..]);
      assert s == [s[0]] + s[1..];
      assert forall x :: x in s <==> x == s[0] || x in s[1..];
      if p(s[0]) then [s[0]] + rest else rest
  }

  /** A filter and its complement split the rows between them. */
  lemma {:induction false} WhereSplit<T(!new)>(p: T -> bool, q: T -> bool, s: seq<T>)
    requires forall x :: q(x) == !p(x)
    ensures multiset(Where(p, s)) + multiset(Where(q, s)) == multiset(s)
  {
    if s != [] {
      WhereSplit(p, q, s[1..]);
      assert s == [s[0]] + s[1..];
    }
  }

  /** The rows of a non-empty table are those before its last row and the
      last row. */
  lemma InitLast<T>(s: seq<T>)
    requires s != []
    ensures forall x :: x in s <==> x in s[..|s| - 1] || x == s[|s| - 1]
  {
    assert s == s[..|s| - 1] + [s[|s| - 1]];
  }

  /** Cutting a table at k splits its rows between the two parts. */
  lemma SplitAt<T>(s: seq<T>, k: nat)
    requires k <= |s|
    ensures s == s[..k] + s[k..]
    ensures multiset(s) == multiset(s[..k]) + multiset(s[k..])
  {
    assert s == s[..k] + s[k..];
  }

  /** A row of a full outer join: both sides, or one side padded with NULLs. */
  datatype Joined<L, R> = Both(l: L, r: R) | LeftOnly(l: L) | RightOnly(r: R)

  /** The right rows that join with `l`, as `Both` rows. */
  function PairsOf<L(==, !new), R(==, !new)>(l: L, rs: seq<R>, on: (L, R) -> bool): (out: seq<Joined<L, R>>)
    ensures forall x :: x in out ==> x.Both? && x.l == l
    ensures forall r :: Both(l, r) in out <==> r in rs && on(l, r)
    ensures out == [] <==> forall r :: r in rs ==> !on(l, r)
  {
    if rs == [] then []
    else
      var rest := PairsOf(l, rs[1..], on);
      assert forall r :: r in rs <==> r == rs[0] || r in rs[1..];
      if on(l, rs[0]) then [Both(l, rs[0])] + rest else rest
  }

  /** Every left row with its partners, or alone when it has none. */
  function LeftRows<L(==, !new), R(==, !new)>(ls: seq<L>, rs: seq<R>, on: (L, R) -> bool): (out: seq<Joined<L, R>>)
    ensures forall x :: x in out ==> !x.RightOnly?
    ensures forall l, r :: Both(l, r) in out <==> l in ls && r in rs && on(l, r)
    ensures forall l :: LeftOnly(l) in out <==> l in ls && forall r :: r in rs ==> !on(l, r)
  {
    if ls == [] then []
    else
      var ps := PairsOf(ls[0], rs, on);
      var rest := LeftRows(ls[1..], rs, on);
      assert forall l :: l in ls <==> l == ls[0] || l in ls[1..];
      (if ps == [] then [LeftOnly(ls[0])] else ps) + rest
  }

  /** The right rows that no left row joins with, padded with NULLs. */
  function RightOnlyRows<L(==, !new), R(==, !new)>(ls: seq<L>, rs: seq<R>, on: (L, R) -> bool): (out: seq<Joined<L, R>>)
    ensures forall x :: x in out ==> x.RightOnly?
    ensures forall r :: RightOnly(r) in out <==> r in rs && forall l :: l in ls ==> !on(l, r)
  {
    if rs == [] then []
    else
      var rest := RightOnlyRows(ls, rs[1..], on);
      assert forall r :: r in rs <==> r == rs[0] || r in rs[1..];
      if forall l :: l in ls ==> !on(l, rs[0]) then [RightOnly(rs[0])] + rest else rest
  }

  /** `ls FULL JOIN rs ON on`: the inner join, plus each unjoined row of
      either side padded with NULLs on the other. */
  function FullJoin<L(==, !new), R(==, !new)>(ls: seq<L>, rs: seq<R>, on: (L, R) -> bool): seq<Joined<L, R>>
  {
    LeftRows(ls, rs, on) + RightOnlyRows(ls, rs, on)
  }

  /** The full join is exactly the inner join plus the unjoined rows of each
      side, and so it keeps every row of both inputs at least once. */
  lemma FullJoinRows<L(!new), R(!new)>(ls: seq<L>, rs: seq<R>, on: (L, R) -> bool)
    ensures forall l, r :: Both(l, r) in FullJoin(ls, rs, on) <==> l in ls && r in rs && on(l, r)
    ensures forall l :: LeftOnly(l) in FullJoin(ls, rs, on) <==> l in ls && forall r :: r in rs ==> !on(l, r)
    ensures forall r :: RightOnly(r) in FullJoin(ls, rs, on) <==> r in rs && forall l :: l in ls ==> !on(l, r)
    ensures forall l :: l in ls ==> exists x :: x in FullJoin(ls, rs, on) && !x.RightOnly? && x.l == l
    ensures forall r :: r in rs ==> exists x :: x in FullJoin(ls, rs, on) && !x.LeftOnly? && x.r == r
  {
    var a, b := LeftRows(ls, rs, on), RightOnlyRows(ls, rs, on);
    var j := FullJoin(ls, rs, on);
    assert j == a + b;
    assert forall x :: x in j <==> x in a || x in b;
    forall l | l in ls
      ensures exists x :: x in j && !x.RightOnly? && x.l == l
    {
      if forall r :: r in rs ==> !on(l, r) {
        assert LeftOnly(l) in a;
      } else {
        var r :| r in rs && on(l, r);
        assert Both(l, r) in a;
      }
    }
    forall r | r in rs
      ensures exists x :: x in j && !x.LeftOnly? && x.r == r
    {
      if forall l :: l in ls ==> !on(l, r) {
        assert RightOnly(r) in b;
      } else {
        var l :| l in ls && on(l, r);
        assert Both(l, r) in a;
      }
    }
  }
}
