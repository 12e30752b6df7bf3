/** Linked queues (include/list.h) as sequences. */
module Queues {

  ghost predicate Distinct<T>(q: seq<T>) {
    forall i, j :: 0 <= i < j < |q| ==> q[i] != q[j]
  }

  /** list_del: the queue without x. */
  function Remove<T(==,!new)>(q: seq<T>, x: T): (r: seq<T>)
    ensures |r| <= |q|
    ensures forall y :: y in r <==> y in q && y != x
  {
    if q == [] then [] else if q[0] == x then Remove(q[1..], x) else [q[0]] + Remove(q[1..], x)
  }

  lemma {:induction false} RemoveAbsent<T(!new)>(q: seq<T>, x: T)
    requires x !in q
    ensures Remove(q, x) == q
  {
    if q != [] {
      RemoveAbsent(q[1..], x);
    }
  }

  lemma {:induction false} RemoveDistinct<T(!new)>(q: seq<T>, x: T)
    requires Distinct(q)
    ensures Distinct(Remove(q, x))
  {
    if q != [] {
      RemoveDistinct(q[1..], x);
      assert q[0] !in q[1..];
      var r := Remove(q[1..], x);
      assert forall i :: 0 <= i < |r| ==> r[i] in r;
    }
  }

  lemma {:induction false} RemoveShortens<T(!new)>(q: seq<T>, x: T)
    requires Distinct(q) && x in q
    ensures |Remove(q, x)| == |q| - 1
  {
    if q[0] == x {
      RemoveAbsent(q[1..], x);
    } else {
      RemoveShortens(q[1..], x);
    }
  }

  lemma AppendDistinct<T>(q: seq<T>, x: T)
    requires Distinct(q) && x !in q
    ensures Distinct(q + [x])
  {
  }

  /** The position of x, or the length if x is not there. */
  function Position<T(==)>(q: seq<T>, x: T): (k: nat)
    ensures k <= |q| && (x in q ==> k < |q| && q[k] == x)
  {
    if q == [] || q[0] == x then 0 else 1 + Position(q[1..], x)
  }

  /** p is somewhere before the first x. */
  predicate Ahead<T(==)>(q: seq<T>, p: T, x: T) {
    q != [] && q[0] != x && (q[0] == p || Ahead(q[1..], p, x))
  }

  lemma {:induction false} PositionAfterRemove<T(!new)>(q: seq<T>, p: T, x: T)
    requires p != x && Distinct(q)
    ensures Position(Remove(q, p), x) == Position(q, x) - if Ahead(q, p, x) then 1 else 0
  {
    if q != [] {
      if q[0] == p {
        RemoveAbsent(q[1..], p);
      } else {
        PositionAfterRemove(q[1..], p, x);
      }
    }
  }

  lemma {:induction false} AheadAfterRemove<T(!new)>(q: seq<T>, r: T, p: T, x: T)
    requires r != x && r != p
    ensures Ahead(Remove(q, r), p, x) == Ahead(q, p, x)
  {
    if q != [] {
      AheadAfterRemove(q[1..], r, p, x);
    }
  }

  lemma {:induction false} AheadIsMember<T>(q: seq<T>, p: T, x: T)
    ensures Ahead(q, p, x) ==> p in q
  {
    if q != [] {
      AheadIsMember(q[1..], p, x);
    }
  }

  lemma {:induction false} AppendBehind<T>(q: seq<T>, tail: seq<T>, p: T, x: T)
    requires x in q
    ensures Position(q + tail, x) == Position(q, x) && Ahead(q + tail, p, x) == Ahead(q, p, x)
  {
    if q[0] != x {
      assert (q + tail)[1..] == q[1..] + tail;
      AppendBehind(q[1..], tail, p, x);
    }
  }

  lemma FrontIsAhead<T>(q: seq<T>, x: T)
    requires q != [] && q[0] != x
    ensures Ahead(q, q[0], x)
  {
  }
}
