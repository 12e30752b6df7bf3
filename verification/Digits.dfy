/** Numbers written as sequences of base-`b` digits, most significant digit first. */
module Digits {
  import opened Arithmetic

  function Pow(b: nat, e: nat): (p: nat)
    ensures b > 0 ==> p > 0
  {
    if e == 0 then 1 else b * Pow(b, e - 1)
  }

  /** The number that the digits `s` spell in base `b`. */
  function Val(b: nat, s: seq<nat>): nat {
    if s == [] then 0 else Val(b, s[..|s| - 1]) * b + s[|s| - 1]
  }

  ghost predicate AllBelow(s: seq<nat>, b: nat) {
    forall i :: 0 <= i < |s| ==> s[i] < b
  }

  lemma {:induction false} PowAdd(b: nat, m: nat, n: nat)
    ensures Pow(b, m + n) == Pow(b, m) * Pow(b, n)
  {
    if m > 0 {
      PowAdd(b, m - 1, n);
      MulAssoc(b, Pow(b, m - 1), Pow(b, n));
    }
  }

  lemma PowStep(b: nat, e: nat)
    requires e > 0
    ensures Pow(b, e) == b * Pow(b, e - 1)
  {
  }

  lemma {:induction false} PowMonotone(b: nat, m: nat, n: nat)
    requires b > 0 && m <= n
    ensures Pow(b, m) <= Pow(b, n)
  {
    PowAdd(b, m, n - m);
    MulLe(1, Pow(b, n - m), Pow(b, m));
  }

  lemma ValSnoc(b: nat, s: seq<nat>, d: nat)
    ensures Val(b, s + [d]) == Val(b, s) * b + d
  {
    assert (s + [d])[..|s|] == s;
  }

  /** Splitting a number after its leading digits. */
  lemma {:induction false} ValConcat(b: nat, s: seq<nat>, t: seq<nat>)
    ensures Val(b, s + t) == Val(b, s) * Pow(b, |t|) + Val(b, t)
  {
    if t == [] {
      assert s + t == s;
    } else {
      var t', d := t[..|t| - 1], t[|t| - 1];
      assert (s + t') + [d] == s + t;
      var x, p, y := Val(b, s), Pow(b, |t'|), Val(b, t');
      calc {
        Val(b, s + t);
        { ValSnoc(b, s + t', d); }
        Val(b, s + t') * b + d;
        { ValConcat(b, s, t'); }
        (x * p + y) * b + d;
        { MulDist(x * p, y, b); MulAssoc(x, p, b); }
        x * (p * b) + (y * b + d);
      }
    }
  }

  lemma ValCons(b: nat, d: nat, t: seq<nat>)
    ensures Val(b, [d] + t) == d * Pow(b, |t|) + Val(b, t)
  {
    ValConcat(b, [d], t);
    assert [d][..0] == [];
  }

  lemma {:induction false} ValBound(b: nat, s: seq<nat>)
    requires b > 0 && AllBelow(s, b)
    ensures Val(b, s) < Pow(b, |s|)
  {
    if s != [] {
      var s' := s[..|s| - 1];
      ValBound(b, s');
      MulLe(Val(b, s') + 1, Pow(b, |s'|), b);
      MulDist(Val(b, s'), 1, b);
    }
  }

  lemma {:induction false} ValZeros(b: nat, s: seq<nat>)
    requires forall i :: 0 <= i < |s| ==> s[i] == 0
    ensures Val(b, s) == 0
  {
    if s != [] {
      ValZeros(b, s[..|s| - 1]);
    }
  }
}
