/**
  Unsigned and signed division of "quads" (lib/math.c): Knuth's Algorithm D, section 4.3.1 of
  The Art of Computer Programming volume 2, on four digits in base B = 2^h, where h is HALF_BITS
  and `u_long` arithmetic is modulo B * B.
  */
module LongDivision {
  import opened Arithmetic
  import opened Common
  import opened Digits

  // ---------- Word arithmetic ----------

  /** Bitwise `|`. */
  function BitOr(x: nat, y: nat): nat {
    if x == 0 && y == 0 then 0
    else (if x % 2 == 1 || y % 2 == 1 then 1 else 0) + 2 * BitOr(x / 2, y / 2)
  }

  lemma {:induction false} BitOrZero(x: nat)
    ensures BitOr(x, 0) == x
  {
    if x > 0 {
      BitOrZero(x / 2);
    }
  }

  /** Putting `y` below `x << k` with `|` is addition, because no bit is in both. */
  lemma {:induction false} BitOrDisjoint(x: nat, k: nat, y: nat)
    requires y < Pow(2, k)
    ensures BitOr(x * Pow(2, k), y) == x * Pow(2, k) + y
  {
    if k == 0 {
      BitOrZero(x);
    } else {
      var p := Pow(2, k - 1);
      BitOrDisjoint(x, k - 1, y / 2);
      MulAssoc(x, p, 2);
      var z := x * Pow(2, k);
      assert z == 2 * (x * p);
      assert z % 2 == 0 && z / 2 == x * p;
    }
  }

  function Base(h: nat): (b: nat)
    ensures b > 0
  {
    Pow(2, h)
  }

  function ShiftRight(x: nat, k: nat): nat { x / Pow(2, k) }

  function ShiftLeft(x: nat, k: nat): nat { x * Pow(2, k) }

  function LowBits(x: nat, k: nat): nat { x % Pow(2, k) }

  lemma ShiftSplit(x: nat, k: nat)
    ensures x == ShiftRight(x, k) * Pow(2, k) + LowBits(x, k)
  {
  }

  function LHalf(h: nat, x: nat): nat { x % Base(h) }

  function HHalf(h: nat, x: nat): nat { x / Base(h) }

  /** `u_long` results are kept modulo B * B. */
  function Wrap(h: nat, x: int): nat { x % (Base(h) * Base(h)) }

  function Combine(h: nat, hi: nat, lo: nat): (r: nat)
    requires hi < Base(h) && lo < Base(h)
    ensures r == hi * Base(h) + lo && r < Base(h) * Base(h)
  {
    BitOrDisjoint(hi, h, lo);
    MulLe(hi + 1, Base(h), Base(h));
    MulDist(hi, 1, Base(h));
    BitOr(hi * Base(h), lo)
  }

  // ---------- shl ----------

  lemma ShiftModulus(b: nat, s: nat, t: nat, x: nat)
    requires 0 < s && 0 < t && b == t * s
    ensures (x * s) % b == (x % t) * s
    ensures (x % t) * s + s <= b
  {
    var q, r := x / t, x % t;
    assert x == q * t + r;
    MulDist(q * t, r, s);
    MulAssoc(q, t, s);
    MulLe(r + 1, t, s);
    MulDist(r, 1, s);
    DivModUnique(x * s, b, q, r * s);
  }

  lemma ShiftQuotient(b: nat, s: nat, t: nat, y: nat)
    requires 0 < s && 0 < t && b == t * s && y < b
    ensures y / t < s
  {
    if y / t >= s {
      MulLe(s, y / t, t);
    }
  }

  /** One digit of a left shift: the low bits of `x` move up and the top bits of `y` fill in below. */
  lemma ShiftedDigit(h: nat, sh: nat, x: nat, y: nat)
    requires sh <= h && x < Base(h) && y < Base(h)
    ensures BitOr(LHalf(h, ShiftLeft(x, sh)), ShiftRight(y, h - sh))
         == LowBits(x, h - sh) * Pow(2, sh) + ShiftRight(y, h - sh) < Base(h)
    ensures LHalf(h, ShiftLeft(x, sh)) == LowBits(x, h - sh) * Pow(2, sh) < Base(h)
  {
    PowAdd(2, h - sh, sh);
    ShiftModulus(Base(h), Pow(2, sh), Pow(2, h - sh), x);
    ShiftQuotient(Base(h), Pow(2, sh), Pow(2, h - sh), y);
    BitOrDisjoint(LowBits(x, h - sh), sh, ShiftRight(y, h - sh));
  }

  lemma ShiftStep(b: int, s: int, t: int, done: int, old_: int, a0: int, p: int, a: int, r: int, next: int)
    requires b == t * s
    requires done + a0 * p == old_ * s + a
    ensures (done * b + (r * s + next)) + a0 * (b * p) == (old_ * b + (a * t + r)) * s + next
  {
    calc {
      done * b + r * s + a0 * (b * p);
      { assert a0 * (b * p) == (a0 * p) * b; MulDist(done, a0 * p, b); }
      (old_ * s + a) * b + r * s;
      { MulDist(old_ * s, a, b); MulAssoc(old_, s, b); MulAssoc(old_, b, s); assert s * b == b * s; }
      (old_ * b) * s + a * (t * s) + r * s;
      { MulAssoc(a, t, s); MulDist(a * t, r, s); }
      (old_ * b) * s + (a * t + r) * s;
      { MulDist(old_ * b, a * t + r, s); }
      (old_ * b + (a * t + r)) * s;
    }
  }

  /** The state of `shl` after `i` digits of `w` became `done`. */
  ghost predicate Shifted(h: nat, sh: nat, w: seq<nat>, i: nat, done: seq<nat>)
    requires sh <= h && 0 < |w|
  {
    && i <= |w| == |w| && |done| == i
    && AllBelow(done, Base(h))
    && Val(Base(h), done) + ShiftRight(w[0], h - sh) * Pow(Base(h), i)
       == Val(Base(h), w[..i]) * Pow(2, sh) + (if i < |w| then ShiftRight(w[i], h - sh) else 0)
  }

  lemma ShiftedStart(h: nat, sh: nat, w: seq<nat>)
    requires sh <= h && 0 < |w|
    ensures Shifted(h, sh, w, 0, [])
  {
    assert w[..0] == [];
  }

  lemma ShiftedEnd(h: nat, sh: nat, w: seq<nat>, done: seq<nat>)
    requires sh <= h && 0 < |w| && Shifted(h, sh, w, |w|, done)
    ensures AllBelow(done, Base(h))
    ensures Val(Base(h), done) + ShiftRight(w[0], h - sh) * Pow(Base(h), |w|) == Val(Base(h), w) * Pow(2, sh)
  {
    assert w[..|w|] == w;
  }

  lemma ShiftedNext(h: nat, sh: nat, w: seq<nat>, i: nat, done: seq<nat>, d: nat)
    requires sh <= h && i < |w| && AllBelow(w, Base(h))
    requires Shifted(h, sh, w, i, done)
    requires d == if i + 1 < |w| then BitOr(LHalf(h, ShiftLeft(w[i], sh)), ShiftRight(w[i + 1], h - sh))
                  else LHalf(h, ShiftLeft(w[i], sh))
    ensures Shifted(h, sh, w, i + 1, done + [d])
  {
    var b, s, t := Base(h), Pow(2, sh), Pow(2, h - sh);
    var a0, a, r := ShiftRight(w[0], h - sh), ShiftRight(w[i], h - sh), LowBits(w[i], h - sh);
    var next := if i + 1 < |w| then ShiftRight(w[i + 1], h - sh) else 0;
    assert d == r * s + next && d < b by {
      ShiftedDigit(h, sh, w[i], if i + 1 < |w| then w[i + 1] else 0);
    }
    assert Val(b, done + [d]) == Val(b, done) * b + (r * s + next) by {
      ValSnoc(b, done, d);
    }
    assert Val(b, w[..i + 1]) == Val(b, w[..i]) * b + (a * t + r) by {
      assert w[..i + 1] == w[..i] + [w[i]];
      ValSnoc(b, w[..i], w[i]);
      ShiftSplit(w[i], h - sh);
    }
    assert b == t * s by {
      PowAdd(2, h - sh, sh);
    }
    ShiftStep(b, s, t, Val(b, done), Val(b, w[..i]), a0, Pow(b, i), a, r, next);
  }

  /** Shifts the number at p[at..at+len] left by `sh` bits; what falls out is the top `sh` bits. */
  method Shl(h: nat, p: array<nat>, at: nat, len: nat, sh: nat)
    requires at + len < p.Length && sh <= h
    requires AllBelow(p[at..at + len + 1], Base(h))
    modifies p
    ensures AllBelow(p[at..at + len + 1], Base(h))
    ensures Val(Base(h), p[at..at + len + 1]) + ShiftRight(old(p[at]), h - sh) * Pow(Base(h), len + 1)
         == Val(Base(h), old(p[at..at + len + 1])) * Pow(2, sh)
    ensures forall k :: 0 <= k < p.Length && !(at <= k <= at + len) ==> p[k] == old(p[k])
  {
    hide Pow, Val, Shifted, BitOr, LHalf, ShiftLeft, ShiftRight;
    ghost var w := p[at..at + len + 1];
    var i := 0;
    ShiftedStart(h, sh, w);
    assert p[at..at] == [];
    while i < len
      invariant 0 <= i <= len
      invariant forall k :: 0 <= k < p.Length && !(at <= k < at + i) ==> p[k] == old(p[k])
      invariant Shifted(h, sh, w, i, p[at..at + i])
    {
      ghost var done := p[at..at + i];
      p[at + i] := BitOr(LHalf(h, ShiftLeft(p[at + i], sh)), ShiftRight(p[at + i + 1], h - sh));
      ShiftedNext(h, sh, w, i, done, p[at + i]);
      assert p[at..at + i + 1] == done + [p[at + i]];
      i := i + 1;
    }
    ghost var done := p[at..at + i];
    p[at + i] := LHalf(h, ShiftLeft(p[at + i], sh));
    ShiftedNext(h, sh, w, i, done, p[at + i]);
    ShiftedEnd(h, sh, w, done + [p[at + i]]);
    assert p[at..at + i + 1] == done + [p[at + i]];
  }

  // ---------- D3: estimating a quotient digit ----------

  lemma TrialTest(b: int, v1: int, v2: int, qhat: int, rhat: int, nn: int, uj2: int)
    requires qhat * v1 + rhat == nn
    ensures qhat * (v1 * b + v2) - (nn * b + uj2) == v2 * qhat - (rhat * b + uj2)
  {
    assert qhat * (v1 * b + v2) == (qhat * v1) * b + v2 * qhat;
    MulDist(qhat * v1, rhat, b);
  }

  lemma NoWrap(h: nat, x: nat, y: nat)
    requires x < Base(h) && y <= Base(h)
    ensures x * y < Base(h) * Base(h)
    ensures Wrap(h, x * y) == x * y
  {
    MulLe(x + 1, Base(h), y);
    MulLe(y, Base(h), Base(h));
    MulDist(x, 1, y);
    if y == 0 {
      assert x * y == 0;
    }
    DivModUnique(x * y, Base(h) * Base(h), 0, x * y);
  }

  /** Before any correction the estimate is not too small. */
  lemma FirstEstimate(b: nat, v1: nat, v2: nat, nn: nat, uj2: nat, qhat: nat)
    requires 0 < v1 && qhat == nn / v1 && uj2 < b
    ensures (qhat + 1) * (v1 * b + v2) > nn * b + uj2
  {
    var rhat := nn % v1;
    assert qhat * v1 + rhat == nn;
    assert (qhat + 1) * v1 >= nn + 1 by {
      MulDist(qhat, 1, v1);
    }
    MulLe(nn + 1, (qhat + 1) * v1, b);
    MulDist(nn, 1, b);
    assert (qhat + 1) * (v1 * b + v2) == ((qhat + 1) * v1) * b + (qhat + 1) * v2;
    assert (qhat + 1) * v2 >= 0;
  }

  lemma EstimateBelowBase(b: nat, v1: nat, uj0: nat, uj1: nat)
    requires uj0 < v1 && uj1 < b
    ensures (uj0 * b + uj1) / v1 < b
  {
    var nn := uj0 * b + uj1;
    MulLe(uj0 + 1, v1, b);
    MulDist(uj0, 1, b);
    assert nn < v1 * b;
    if nn / v1 >= b {
      MulLe(b, nn / v1, v1);
    }
  }

  /** The estimate `qhat` with its remainder `rhat` after `c` corrections: never below the largest digit that fits. */
  ghost predicate Estimate(b: nat, v1: nat, v2: nat, nn: nat, uj2: nat, qhat: nat, rhat: nat, c: nat) {
    && qhat * v1 + rhat == nn
    && (qhat >= b - 1 || (qhat + 1) * (v1 * b + v2) > nn * b + uj2)
    && c * v1 <= rhat
  }

  lemma EstimateNext(b: nat, v1: nat, v2: nat, nn: nat, uj2: nat, qhat: nat, rhat: nat, c: nat)
    requires Estimate(b, v1, v2, nn, uj2, qhat, rhat, c)
    requires (qhat == b && 0 < b) || v2 * qhat > rhat * b + uj2
    ensures qhat > 0 && Estimate(b, v1, v2, nn, uj2, qhat - 1, rhat + v1, c + 1)
  {
    TrialTest(b, v1, v2, qhat, rhat, nn, uj2);
    MulDist(qhat - 1, 1, v1);
    MulDist(c, 1, v1);
  }

  lemma EstimateFirst(b: nat, v1: nat, v2: nat, uj0: nat, uj1: nat, uj2: nat, nn: nat)
    requires uj0 <= v1 < b && 0 < v1 && uj1 < b && uj2 < b && nn == uj0 * b + uj1
    ensures uj0 == v1 ==> Estimate(b, v1, v2, nn, uj2, b, uj1, 0)
    ensures uj0 < v1 ==> 0 <= nn / v1 < b && 0 <= nn % v1 < v1
    ensures uj0 < v1 ==> Estimate(b, v1, v2, nn, uj2, nn / v1, nn % v1, 0)
  {
    if uj0 < v1 {
      DivModSplit(nn, v1);
      FirstEstimate(b, v1, v2, nn, uj2, nn / v1);
      EstimateBelowBase(b, v1, uj0, uj1);
    }
  }

  lemma EstimateFinal(b: nat, v1: nat, v2: nat, nn: nat, uj2: nat, qhat: nat, rhat: nat, c: nat)
    requires Estimate(b, v1, v2, nn, uj2, qhat, rhat, c)
    requires qhat < b && v2 < b && (rhat >= b || v2 * qhat <= rhat * b + uj2)
    ensures c * v1 <= rhat
    ensures qhat * (v1 * b + v2) <= nn * b + uj2
    ensures qhat == b - 1 || (qhat + 1) * (v1 * b + v2) > nn * b + uj2
  {
    TrialTest(b, v1, v2, qhat, rhat, nn, uj2);
    if rhat >= b {
      MulLe(b, rhat, b);
      MulLe(v2, b, qhat);
      MulLe(qhat, b, b);
    }
  }

  lemma FewCorrections(b: nat, v1: nat, rhat: nat, c: nat)
    requires c * v1 <= rhat < b + v1 && 2 * v1 >= b
    ensures c <= 2
  {
    if c > 2 {
      MulLe(3, c, v1);
    }
  }

  /** q is the largest digit whose product with the digits v1, v2 does not exceed the number with the digits uj0, uj1, uj2. */
  ghost predicate LargestDigit(b: nat, uj0: nat, uj1: nat, uj2: nat, v1: nat, v2: nat, q: nat) {
    && q < b && q * (v1 * b + v2) <= (uj0 * b + uj1) * b + uj2
    && (q == b - 1 || (q + 1) * (v1 * b + v2) > (uj0 * b + uj1) * b + uj2)
  }

  /**
    D3. The result is the largest digit whose product with the two leading divisor digits does
    not exceed the three leading dividend digits. With a normalised divisor (v1 >= B/2) at most
    two corrections are made.
    */
  method TrialDigit(h: nat, uj0: nat, uj1: nat, uj2: nat, v1: nat, v2: nat) returns (qhat: nat, ghost corrections: nat)
    requires uj0 <= v1 && 0 < v1 < Base(h) && v2 < Base(h) && uj1 < Base(h) && uj2 < Base(h)
    ensures LargestDigit(Base(h), uj0, uj1, uj2, v1, v2, qhat)
    ensures 2 * v1 >= Base(h) ==> corrections <= 2
  {
    hide Pow, Base, Estimate, LargestDigit;
    ghost var nn: nat := uj0 * Base(h) + uj1;
    var first, rhat := FirstGuess(h, uj0, uj1, uj2, v1, v2, nn);
    qhat, rhat, corrections := Corrected(h, nn, uj2, v1, v2, first, rhat, uj0 == v1);
    EstimateAnswers(Base(h), uj0, uj1, uj2, v1, v2, nn, qhat, rhat, corrections);
  }

  /** The digit that D3 starts from, and what it leaves. */
  method FirstGuess(h: nat, uj0: nat, uj1: nat, ghost uj2: nat, v1: nat, ghost v2: nat, ghost nn: nat) returns (qhat: nat, rhat: nat)
    requires uj0 <= v1 && 0 < v1 < Base(h) && uj1 < Base(h) && uj2 < Base(h) && nn == uj0 * Base(h) + uj1
    ensures rhat < Base(h) && if uj0 == v1 then qhat == Base(h) else qhat < Base(h)
    ensures Estimate(Base(h), v1, v2, nn, uj2, qhat, rhat, 0)
  {
    hide Pow, Base, Combine, Estimate;
    EstimateFirst(Base(h), v1, v2, uj0, uj1, uj2, nn);
    if uj0 == v1 {
      qhat, rhat := Base(h), uj1;
    } else {
      var w := Combine(h, uj0, uj1);
      qhat, rhat := w / v1, w % v1;
    }
  }

  lemma EstimateAnswers(b: nat, uj0: nat, uj1: nat, uj2: nat, v1: nat, v2: nat, nn: nat, qhat: nat, rhat: nat, c: nat)
    requires Estimate(b, v1, v2, nn, uj2, qhat, rhat, c) && nn == uj0 * b + uj1 && v2 < b
    requires qhat < b && rhat < b + v1 && (rhat >= b || v2 * qhat <= rhat * b + uj2)
    ensures LargestDigit(b, uj0, uj1, uj2, v1, v2, qhat)
    ensures 2 * v1 >= b ==> c <= 2
  {
    hide Estimate;
    EstimateFinal(b, v1, v2, nn, uj2, qhat, rhat, c);
    if 2 * v1 >= b {
      FewCorrections(b, v1, rhat, c);
    }
  }

  /** The loop of D3: lower the digit while the test says that it is too big. */
  method Corrected(h: nat, ghost nn: nat, uj2: nat, v1: nat, v2: nat, qhat0: nat, rhat0: nat, tooBig0: bool)
    returns (qhat: nat, rhat: nat, ghost corrections: nat)
    requires 0 < v1 < Base(h) && v2 < Base(h) && uj2 < Base(h) && rhat0 < Base(h)
    requires if tooBig0 then qhat0 == Base(h) else qhat0 < Base(h)
    requires Estimate(Base(h), v1, v2, nn, uj2, qhat0, rhat0, 0)
    ensures qhat < Base(h) && Estimate(Base(h), v1, v2, nn, uj2, qhat, rhat, corrections) && rhat < Base(h) + v1
    ensures rhat >= Base(h) || v2 * qhat <= rhat * Base(h) + uj2
  {
    hide Pow, Estimate, Wrap, BitOr, Base, Combine;
    var tooBig := tooBig0;
    qhat, rhat, corrections := qhat0, rhat0, 0;
    NoWrap(h, v2, qhat);
    while tooBig || Wrap(h, v2 * qhat) > Combine(h, rhat, uj2)
      invariant qhat <= Base(h) && rhat < Base(h)
      invariant if tooBig then qhat == Base(h) else qhat < Base(h)
      invariant Estimate(Base(h), v1, v2, nn, uj2, qhat, rhat, corrections)
      invariant Wrap(h, v2 * qhat) == v2 * qhat
      decreases Base(h) - rhat
    {
      EstimateNext(Base(h), v1, v2, nn, uj2, qhat, rhat, corrections);
      tooBig := false;
      qhat, rhat, corrections := qhat - 1, rhat + v1, corrections + 1;
      NoWrap(h, v2, qhat);
      if rhat >= Base(h) {
        break;
      }
    }
  }

  // ---------- Why the estimate is good enough ----------

  /** If q is a candidate digit for U = uu*w + u' over V = vv*w + v', the leading parts already bound it. */
  lemma LeadingFits(w: nat, uu: int, u': nat, vv: nat, v': nat, q: nat)
    requires u' < w && q * (vv * w + v') <= uu * w + u'
    ensures q * vv <= uu
  {
    assert q * (vv * w + v') == (q * vv) * w + q * v';
    assert q * v' >= 0;
    if q * vv >= uu + 1 {
      MulLe(uu + 1, q * vv, w);
      MulDist(uu, 1, w);
    }
  }

  lemma OneLessFits(w: nat, uu: int, u': nat, vv: nat, v': nat, qhat: nat)
    requires v' < w && 0 < qhat <= vv && qhat * vv <= uu
    ensures (qhat - 1) * (vv * w + v') <= uu * w + u'
  {
    var k := qhat - 1;
    assert k * (vv * w + v') == (k * vv) * w + k * v';
    MulLe(v', w, k);
    assert k * v' <= k * w;
    MulDist(k * vv, k, w);
    assert k * vv == qhat * vv - vv;
    MulLe(k * vv + k, uu, w);
  }

  /**
    The estimate chosen by D3 on the leading digits is the true quotient digit or one more
    (U = uu*w + u', V = vv*w + v', U < V*b).
    */
  lemma EstimateWithinOne(b: nat, w: nat, uu: int, u': nat, vv: nat, v': nat, qhat: nat)
    requires u' < w && v' < w && b <= vv && qhat < b
    requires uu * w + u' < (vv * w + v') * b
    requires qhat * vv <= uu
    requires qhat == b - 1 || (qhat + 1) * vv > uu
    ensures 0 < vv * w + v'
    ensures (uu * w + u') / (vv * w + v') <= qhat <= (uu * w + u') / (vv * w + v') + 1
  {
    var U, V := uu * w + u', vv * w + v';
    assert 0 < V by {
      MulLe(1, vv, w);
    }
    assert 0 <= uu && 0 <= U by {
      MulLe(0, qhat, vv);
      MulLe(0, uu, w);
    }
    DivModSplit(U, V);
    var q := U / V;
    LeadingFits(w, uu, u', vv, v', q);
    if q > qhat {
      if qhat == b - 1 {
        MulLe(b, q, V);
      } else {
        MulLe(qhat + 1, q, vv);
      }
    }
    if qhat > q + 1 {
      OneLessFits(w, uu, u', vv, v', qhat);
      MulLe(q + 1, qhat - 1, V);
      MulDist(q, 1, V);
    }
  }

  // ---------- D4 and D6: multiply and subtract, add back ----------

  lemma DifferenceRange(b: int, x: nat, y: nat, q: nat, t: nat)
    requires x < b && y < b && q < b && t < b
    ensures b - b * b <= x - y * q - t < b
  {
    MulLe(y, b - 1, q);
    MulLe(q, b - 1, b - 1);
    assert (b - 1) * (b - 1) == b * b - 2 * b + 1;
    MulLe(0, y, q);
  }

  lemma BorrowNone(b: int, z: int)
    requires 0 <= z < b
    ensures z % (b * b) == z && z / b == 0 && z % b == z && (b - 0) % b == 0
  {
    MulLe(1, b, b);
    DivModUnique(z, b * b, 0, z);
    DivModUnique(z, b, 0, z);
    DivModUnique(b, b, 1, 0);
  }

  lemma BorrowSome(b: int, z: int, d: int)
    requires 0 < b && b - b * b <= z < 0 && d == z + b * b
    ensures z % (b * b) == d && 0 < d / b < b && (b - d / b) % b == b - d / b
    ensures z == d % b - (b - d / b) * b
  {
    DivModUnique(z, b * b, -1, d);
    DivModSplit(d, b);
    var hi := d / b;
    if hi <= 0 {
      MulLe(hi, 0, b);
    }
    if hi >= b {
      MulLe(b, hi, b);
    }
    DivModUnique(b - hi, b, 0, b - hi);
    assert (b - hi) * b == b * b - hi * b;
  }

  /** One digit of D4: the wrapped difference splits into a digit and a borrow in base B. */
  lemma BorrowStep(h: nat, x: nat, y: nat, q: nat, t: nat, d: nat)
    requires x < Base(h) && y < Base(h) && q < Base(h) && t < Base(h)
    requires d == Wrap(h, x - y * q - t)
    ensures HHalf(h, d) <= Base(h)
    ensures x - y * q - t == LHalf(h, d) - LHalf(h, Base(h) - HHalf(h, d)) * Base(h)
  {
    var b, z := Base(h), x - y * q - t;
    DifferenceRange(b, x, y, q, t);
    if z >= 0 {
      BorrowNone(b, z);
    } else {
      BorrowSome(b, z, z + b * b);
    }
  }

  lemma SubtractDigit(x: int, y: int, q: int, t: int, lo: int, t': int, b: int, p: int, s: int, s': int, w: int)
    requires x - y * q - t == lo - t' * b
    requires s' == s - q * w + t * p
    ensures lo * p + s' == (x * p + s) - q * (y * p + w) + t' * (b * p)
  {
    assert lo == x - y * q - t + t' * b;
    assert lo * p == x * p - (y * q) * p - t * p + (t' * b) * p;
  }

  /** D4 with digits i+1..n of the dividend window `u` done: they became `done`, with borrow `t`. */
  ghost predicate Subtracted(h: nat, u: seq<nat>, v: seq<nat>, qhat: nat, i: nat, done: seq<nat>, t: nat) {
    && i <= |v| && |u| == |v| + 1 && |done| == |v| - i
    && AllBelow(done, Base(h)) && t < Base(h)
    && Val(Base(h), done)
       == Val(Base(h), u[i + 1..]) - qhat * Val(Base(h), v[i..]) + t * Pow(Base(h), |v| - i)
  }

  lemma SubtractedStart(h: nat, u: seq<nat>, v: seq<nat>, qhat: nat)
    requires |u| == |v| + 1
    ensures Subtracted(h, u, v, qhat, |v|, [], 0)
  {
    assert u[|v| + 1..] == [] && v[|v|..] == [];
  }

  lemma SubtractedNext(h: nat, u: seq<nat>, v: seq<nat>, qhat: nat, i: nat, done: seq<nat>, t: nat, d: nat)
    requires 0 < i && Subtracted(h, u, v, qhat, i, done, t)
    requires AllBelow(u, Base(h)) && AllBelow(v, Base(h)) && qhat < Base(h)
    requires d == Wrap(h, u[i] - v[i - 1] * qhat - t)
    ensures HHalf(h, d) <= Base(h)
    ensures Subtracted(h, u, v, qhat, i - 1, [LHalf(h, d)] + done, LHalf(h, Base(h) - HHalf(h, d)))
  {
    var b, p := Base(h), Pow(Base(h), |v| - i);
    BorrowStep(h, u[i], v[i - 1], qhat, t, d);
    var lo, t' := LHalf(h, d), LHalf(h, b - HHalf(h, d));
    assert Val(b, u[i..]) == u[i] * p + Val(b, u[i + 1..]) by {
      assert u[i..] == [u[i]] + u[i + 1..];
      ValCons(b, u[i], u[i + 1..]);
    }
    assert Val(b, v[i - 1..]) == v[i - 1] * p + Val(b, v[i..]) by {
      assert v[i - 1..] == [v[i - 1]] + v[i..];
      ValCons(b, v[i - 1], v[i..]);
    }
    assert Val(b, [lo] + done) == lo * p + Val(b, done) by {
      ValCons(b, lo, done);
    }
    SubtractDigit(u[i], v[i - 1], qhat, t, lo, t', b, p, Val(b, u[i + 1..]), Val(b, done), Val(b, v[i..]));
  }

  lemma LastBorrow(h: nat, x: nat, t: nat, d: nat)
    requires x < Base(h) && t < Base(h) && d == Wrap(h, x - t)
    ensures x - t == LHalf(h, d) - (if HHalf(h, d) != 0 then Base(h) else 0)
  {
    var b, z := Base(h), x - t;
    if z >= 0 {
      BorrowNone(b, z);
    } else {
      MulLe(1, b, b);
      if b == 1 {
        assert false;
      }
      MulLe(2, b, b);
      BorrowSome(b, z, z + b * b);
      DivModUnique(z + b * b, b, b - 1, z + b);
    }
  }

  lemma SubtractedLast(h: nat, u: seq<nat>, v: seq<nat>, qhat: nat, done: seq<nat>, t: nat, d: nat)
    requires Subtracted(h, u, v, qhat, 0, done, t)
    requires u[0] < Base(h) && d == Wrap(h, u[0] - t)
    ensures AllBelow([LHalf(h, d)] + done, Base(h))
    ensures Val(Base(h), [LHalf(h, d)] + done)
         == Val(Base(h), u) - qhat * Val(Base(h), v) + (if HHalf(h, d) != 0 then Pow(Base(h), |v| + 1) else 0)
  {
    var b, p, lo := Base(h), Pow(Base(h), |v|), LHalf(h, d);
    var c := if HHalf(h, d) != 0 then 1 else 0;
    assert u[0] - 0 * qhat - t == lo - c * b by {
      LastBorrow(h, u[0], t, d);
    }
    assert Val(b, [lo] + done) == lo * p + Val(b, done) by {
      ValCons(b, lo, done);
    }
    assert Val(b, u) == u[0] * p + Val(b, u[1..]) by {
      assert u == [u[0]] + u[1..];
      ValCons(b, u[0], u[1..]);
    }
    assert v[0..] == v;
    SubtractDigit(u[0], 0, qhat, t, lo, c, b, p, Val(b, u[1..]), Val(b, done), Val(b, v));
    assert qhat * (0 * p + Val(b, v)) == qhat * Val(b, v);
  }

  /** D4: u[j..j+n] -= qhat * v[1..n]; the returned word has a nonzero upper half exactly when that went below zero. */
  method MultiplySubtract(h: nat, u: array<nat>, j: nat, v: seq<nat>, n: nat, qhat: nat) returns (t: nat)
    requires |v| == n && j + n < u.Length && qhat < Base(h)
    requires AllBelow(u[j..j + n + 1], Base(h)) && AllBelow(v, Base(h))
    modifies u
    ensures AllBelow(u[j..j + n + 1], Base(h))
    ensures Val(Base(h), u[j..j + n + 1])
         == Val(Base(h), old(u[j..j + n + 1])) - qhat * Val(Base(h), v)
            + (if HHalf(h, t) != 0 then Pow(Base(h), n + 1) else 0)
    ensures forall k :: 0 <= k < u.Length && !(j <= k <= j + n) ==> u[k] == old(u[k])
  {
    hide Val, Pow, Subtracted;
    var B := Base(h);
    ghost var uw, done := u[j..j + n + 1], [];
    t := 0;
    var i := n;
    SubtractedStart(h, uw, v, qhat);
    while i > 0
      invariant 0 <= i <= n
      invariant forall k :: 0 <= k < u.Length && !(j + i < k <= j + n) ==> u[k] == old(u[k])
      invariant Subtracted(h, uw, v, qhat, i, done, t)
      invariant u[j + i + 1..j + n + 1] == done
    {
      ghost var t0 := t;
      assert u[i + j] == uw[i];
      t := Wrap(h, u[i + j] - v[i - 1] * qhat - t);
      SubtractedNext(h, uw, v, qhat, i, done, t0, t);
      u[i + j] := LHalf(h, t);
      done := [LHalf(h, t)] + done;
      t := LHalf(h, B - HHalf(h, t));
      i := i - 1;
    }
    ghost var t0 := t;
    t := Wrap(h, u[j] - t);
    assert AllBelow([LHalf(h, t)] + done, Base(h))
        && Val(Base(h), [LHalf(h, t)] + done)
           == Val(Base(h), uw) - qhat * Val(Base(h), v) + (if HHalf(h, t) != 0 then Pow(Base(h), n + 1) else 0) by {
      assert u[j] == uw[0];
      SubtractedLast(h, uw, v, qhat, done, t0, t);
    }
    u[j] := LHalf(h, t);
    assert u[j..j + n + 1] == [LHalf(h, t)] + done;
  }

  /** D6 with digits i+1..n of the window `u` done: they became `done`, with carry `t`. */
  ghost predicate Added(h: nat, u: seq<nat>, v: seq<nat>, i: nat, done: seq<nat>, t: nat) {
    && i <= |v| && |u| == |v| + 1 && |done| == |v| - i
    && AllBelow(done, Base(h)) && t <= 1
    && Val(Base(h), done) + t * Pow(Base(h), |v| - i) == Val(Base(h), u[i + 1..]) + Val(Base(h), v[i..])
  }

  lemma CarryDigit(x: int, y: int, t: int, lo: int, t': int, b: int, p: int, s: int, s': int, w: int)
    requires t + x + y == lo + t' * b
    requires s' + t * p == s + w
    ensures (lo * p + s') + t' * (b * p) == (x * p + s) + (y * p + w)
  {
    assert (lo + t' * b) * p == lo * p + t' * (b * p);
    assert (t + x + y) * p == t * p + x * p + y * p;
  }

  lemma CarrySplit(h: nat, d: nat)
    ensures d == LHalf(h, d) + HHalf(h, d) * Base(h)
    ensures d < 2 * Base(h) ==> HHalf(h, d) <= 1
  {
    DivModSplit(d, Base(h));
    if HHalf(h, d) >= 2 {
      MulLe(2, HHalf(h, d), Base(h));
    }
  }

  lemma AddedStart(h: nat, u: seq<nat>, v: seq<nat>)
    requires |u| == |v| + 1
    ensures Added(h, u, v, |v|, [], 0)
  {
    assert u[|v| + 1..] == [] && v[|v|..] == [];
  }

  lemma AddedNext(h: nat, u: seq<nat>, v: seq<nat>, i: nat, done: seq<nat>, t: nat, d: nat)
    requires 0 < i && Added(h, u, v, i, done, t)
    requires AllBelow(u, Base(h)) && AllBelow(v, Base(h))
    requires d == t + u[i] + v[i - 1]
    ensures Added(h, u, v, i - 1, [LHalf(h, d)] + done, HHalf(h, d))
  {
    var b, p, lo := Base(h), Pow(Base(h), |v| - i), LHalf(h, d);
    assert Val(b, u[i..]) == u[i] * p + Val(b, u[i + 1..]) by {
      assert u[i..] == [u[i]] + u[i + 1..];
      ValCons(b, u[i], u[i + 1..]);
    }
    assert Val(b, v[i - 1..]) == v[i - 1] * p + Val(b, v[i..]) by {
      assert v[i - 1..] == [v[i - 1]] + v[i..];
      ValCons(b, v[i - 1], v[i..]);
    }
    assert Val(b, [lo] + done) == lo * p + Val(b, done) by {
      ValCons(b, lo, done);
    }
    CarrySplit(h, d);
    CarryDigit(u[i], v[i - 1], t, lo, HHalf(h, d), b, p, Val(b, u[i + 1..]), Val(b, done), Val(b, v[i..]));
  }

  lemma CarryOut(x: int, s: int, c: int, m: int)
    requires 0 <= c <= 1 && x + c * m == s
    ensures x == s || x == s - m
  {
  }

  lemma AddedLast(h: nat, u: seq<nat>, v: seq<nat>, done: seq<nat>, t: nat, d: nat)
    requires Added(h, u, v, 0, done, t)
    requires u[0] < Base(h) && d == u[0] + t
    ensures AllBelow([LHalf(h, d)] + done, Base(h))
    ensures Val(Base(h), [LHalf(h, d)] + done) == Val(Base(h), u) + Val(Base(h), v)
         || Val(Base(h), [LHalf(h, d)] + done) == Val(Base(h), u) + Val(Base(h), v) - Pow(Base(h), |v| + 1)
  {
    var b, p, lo, c := Base(h), Pow(Base(h), |v|), LHalf(h, d), HHalf(h, d);
    assert d == lo + c * b && c <= 1 by {
      CarrySplit(h, d);
    }
    assert Val(b, [lo] + done) == lo * p + Val(b, done) by {
      ValCons(b, lo, done);
    }
    assert Val(b, u) == u[0] * p + Val(b, u[1..]) by {
      assert u == [u[0]] + u[1..];
      ValCons(b, u[0], u[1..]);
    }
    assert Val(b, [lo] + done) + c * (b * p) == Val(b, u) + Val(b, v) by {
      assert v[0..] == v;
      CarryDigit(u[0], 0, t, lo, c, b, p, Val(b, u[1..]), Val(b, done), Val(b, v));
      assert 0 * p == 0;
    }
    CarryOut(Val(b, [lo] + done), Val(b, u) + Val(b, v), c, b * p);
  }

  /** D6: u[j..j+n] += v[1..n], dropping the carry out of u[j]. */
  method AddBack(h: nat, u: array<nat>, j: nat, v: seq<nat>, n: nat)
    requires |v| == n && j + n < u.Length
    requires AllBelow(u[j..j + n + 1], Base(h)) && AllBelow(v, Base(h))
    modifies u
    ensures AllBelow(u[j..j + n + 1], Base(h))
    ensures var sum := Val(Base(h), old(u[j..j + n + 1])) + Val(Base(h), v);
            Val(Base(h), u[j..j + n + 1]) == sum || Val(Base(h), u[j..j + n + 1]) == sum - Pow(Base(h), n + 1)
    ensures forall k :: 0 <= k < u.Length && !(j <= k <= j + n) ==> u[k] == old(u[k])
  {
    hide Pow, Val, Added, LHalf, HHalf;
    ghost var uw, done := u[j..j + n + 1], [];
    var t: nat := 0;
    var i := n;
    AddedStart(h, uw, v);
    while i > 0
      invariant 0 <= i <= n
      invariant forall k :: 0 <= k < u.Length && !(j + i < k <= j + n) ==> u[k] == old(u[k])
      invariant Added(h, uw, v, i, done, t)
      invariant u[j + i + 1..j + n + 1] == done
    {
      ghost var t0 := t;
      assert u[i + j] == uw[i];
      t := t + u[i + j] + v[i - 1];
      AddedNext(h, uw, v, i, done, t0, t);
      u[i + j] := LHalf(h, t);
      done := [LHalf(h, t)] + done;
      t := HHalf(h, t);
      i := i - 1;
    }
    assert u[j] == uw[0];
    AddedLast(h, uw, v, done, t, u[j] + t);
    u[j] := LHalf(h, u[j] + t);
    assert u[j..j + n + 1] == [u[j]] + done;
  }

  // ---------- D3 to D6: one quotient digit ----------

  lemma ValTwo(b: nat, x: nat, y: nat)
    ensures Val(b, [x, y]) == x * b + y
  {
    ValSnoc(b, [], x);
    ValSnoc(b, [x], y);
    assert [] + [x] == [x] && [x] + [y] == [x, y];
  }

  lemma WindowSplit(b: nat, u: seq<nat>)
    requires |u| >= 3 && 0 < b && AllBelow(u, b)
    ensures Val(b, u) == ((u[0] * b + u[1]) * b + u[2]) * Pow(b, |u| - 3) + Val(b, u[3..])
    ensures Val(b, u[3..]) < Pow(b, |u| - 3)
  {
    assert Val(b, u[..3]) == (u[0] * b + u[1]) * b + u[2] by {
      ValTwo(b, u[0], u[1]);
      ValSnoc(b, [u[0], u[1]], u[2]);
      assert u[..3] == [u[0], u[1]] + [u[2]];
    }
    assert u == u[..3] + u[3..];
    ValConcat(b, u[..3], u[3..]);
    ValBound(b, u[3..]);
  }

  lemma DivisorSplit(b: nat, v: seq<nat>)
    requires |v| >= 2 && 0 < b && AllBelow(v, b)
    ensures Val(b, v) == (v[0] * b + v[1]) * Pow(b, |v| - 2) + Val(b, v[2..])
    ensures Val(b, v[2..]) < Pow(b, |v| - 2)
  {
    assert Val(b, v[..2]) == v[0] * b + v[1] by {
      ValTwo(b, v[0], v[1]);
      assert v[..2] == [v[0], v[1]];
    }
    assert v == v[..2] + v[2..];
    ValConcat(b, v[..2], v[2..]);
    ValBound(b, v[2..]);
  }

  lemma LeadBounds(b: nat, v: seq<nat>)
    requires |v| >= 1 && 0 < b && AllBelow(v, b)
    ensures v[0] * Pow(b, |v| - 1) <= Val(b, v) < (v[0] + 1) * Pow(b, |v| - 1)
  {
    assert v == [v[0]] + v[1..];
    ValCons(b, v[0], v[1..]);
    ValBound(b, v[1..]);
    MulDist(v[0], 1, Pow(b, |v| - 1));
  }

  lemma LeadDigit(b: nat, u: seq<nat>, v: seq<nat>)
    requires |v| >= 2 && |u| == |v| + 1 && 0 < b && AllBelow(u, b) && AllBelow(v, b)
    requires Val(b, u) < Val(b, v) * b
    ensures u[0] <= v[0]
  {
    hide Pow, Val;
    LeadBounds(b, v);
    LeadBounds(b, u);
    PowStep(b, |v|);
    LeadArith(b, u[0], v[0], Val(b, u), Val(b, v), Pow(b, |v|), Pow(b, |v| - 1));
  }

  lemma LeadArith(b: nat, u0: nat, v0: nat, u: nat, v: nat, p: nat, p': nat)
    requires p == p' * b && u0 * p <= u < v * b && v < (v0 + 1) * p'
    ensures u0 <= v0
  {
    MulLe(v, (v0 + 1) * p', b);
    MulAssoc(v0 + 1, p', b);
    if u0 > v0 {
      MulLe(v0 + 1, u0, p);
    }
  }

  /** D3's estimate on the digits of `u` over `v` is the true quotient digit or exactly one more. */
  lemma DigitWithinOne(b: nat, u: seq<nat>, v: seq<nat>, qhat: nat)
    requires |v| >= 2 && |u| == |v| + 1 && 0 < b && AllBelow(u, b) && AllBelow(v, b)
    requires 0 < v[0] && Val(b, u) < Val(b, v) * b && qhat < b
    requires qhat * (v[0] * b + v[1]) <= (u[0] * b + u[1]) * b + u[2]
    requires qhat == b - 1 || (qhat + 1) * (v[0] * b + v[1]) > (u[0] * b + u[1]) * b + u[2]
    ensures 0 < Val(b, v)
    ensures Val(b, u) / Val(b, v) <= qhat <= Val(b, u) / Val(b, v) + 1
  {
    hide Pow, Val;
    var uu, vv, w := (u[0] * b + u[1]) * b + u[2], v[0] * b + v[1], Pow(b, |v| - 2);
    var u', v' := Val(b, u[3..]), Val(b, v[2..]);
    assert Val(b, u) == uu * w + u' && u' < w by {
      WindowSplit(b, u);
    }
    assert Val(b, v) == vv * w + v' && v' < w by {
      DivisorSplit(b, v);
    }
    assert b <= vv by {
      MulLe(1, v[0], b);
    }
    EstimateWithinOne(b, w, uu, u', vv, v', qhat);
  }

  /** Arithmetic of D4 and D6: whether the difference went negative tells which of the two cases holds. */
  lemma BorrowMeansTooBig(U: nat, V: nat, q: int, M: nat, qhat: nat, r: nat, borrowed: bool)
    requires 0 < V <= M && q == U / V && q <= qhat <= q + 1
    requires r == U - qhat * V + (if borrowed then M else 0)
    requires r < M
    ensures borrowed <==> qhat == q + 1
    ensures !borrowed ==> r == U % V
    ensures borrowed ==> r + V - M == U % V
  {
    DivModSplit(U, V);
    MulDist(q, 1, V);
  }

  /**
    D3 to D6 for one j: u[j..j+n] is replaced by its remainder modulo v[1..n] and the quotient
    digit is returned. `qhat` is the estimate after D3 and `borrowed` whether D4 left a borrow.
    */
  method DivideStep(h: nat, u: array<nat>, j: nat, v: seq<nat>, n: nat)
    returns (q: nat, ghost qhat: nat, ghost borrowed: bool, ghost corrections: nat)
    requires 2 <= n == |v| && j + n < u.Length
    requires AllBelow(u[j..j + n + 1], Base(h)) && AllBelow(v, Base(h))
    requires 0 < v[0]
    requires Val(Base(h), u[j..j + n + 1]) < Val(Base(h), v) * Base(h)
    modifies u
    ensures AllBelow(u[j..j + n + 1], Base(h)) && q < Base(h)
    ensures 0 < Val(Base(h), v)
    ensures q == Val(Base(h), old(u[j..j + n + 1])) / Val(Base(h), v)
    ensures Val(Base(h), u[j..j + n + 1]) == Val(Base(h), old(u[j..j + n + 1])) % Val(Base(h), v)
    ensures q <= qhat <= q + 1 && (borrowed <==> qhat == q + 1)
    ensures 2 * v[0] >= Base(h) ==> corrections <= 2
    ensures forall k :: 0 <= k < u.Length && !(j <= k <= j + n) ==> u[k] == old(u[k])
  {
    ghost var b, uw := Base(h), u[j..j + n + 1];
    assert u[j] == uw[0] && u[j + 1] == uw[1] && u[j + 2] == uw[2];
    LeadDigit(b, uw, v);
    q, corrections := TrialDigit(h, u[j], u[j + 1], u[j + 2], v[0], v[1]);
    qhat := q;
    DigitWithinOne(b, uw, v, qhat);
    var t := MultiplySubtract(h, u, j, v, n, q);
    borrowed := HHalf(h, t) != 0;
    ghost var r := Val(b, u[j..j + n + 1]);
    ValBound(b, u[j..j + n + 1]);
    ValBound(b, v);
    PowMonotone(b, n, n + 1);
    BorrowMeansTooBig(Val(b, uw), Val(b, v), Val(b, uw) / Val(b, v), Pow(b, n + 1), qhat, r, borrowed);
    if HHalf(h, t) != 0 {
      q := q - 1;
      AddBack(h, u, j, v, n);
      ValBound(b, u[j..j + n + 1]);
    }
  }

  // ---------- D1 and D7: the whole quotient ----------

  /**
    The state between two quotient digits, for a dividend s and divisor vv: `q` are the digits so
    far, `u` the dividend digits still to be divided, the first n of which are already below vv.
    */
  ghost predicate Partial(b: nat, s: nat, vv: nat, n: nat, q: seq<nat>, u: seq<nat>) {
    && n <= |u| && AllBelow(u, b) && AllBelow(q, b)
    && Val(b, u) + (Val(b, q) * vv) * Pow(b, |u| - n) == s
    && Val(b, u[..n]) < vv
  }

  lemma PartialStart(b: nat, s: nat, vv: nat, n: nat, u: seq<nat>)
    requires 0 < b && n <= |u| && AllBelow(u, b) && Val(b, u) == s < vv * Pow(b, |u| - n)
    ensures Partial(b, s, vv, n, [], u)
  {
    var p := Pow(b, |u| - n);
    SplitAt(b, u, n);
    if Val(b, u[..n]) >= vv {
      MulLe(vv, Val(b, u[..n]), p);
    }
  }

  lemma PartialWindow(b: nat, s: nat, vv: nat, n: nat, q: seq<nat>, u: seq<nat>)
    requires 0 < b && n < |u| && Partial(b, s, vv, n, q, u)
    ensures AllBelow(u, b) && Val(b, u[..n + 1]) < vv * b
  {
    assert u[..n + 1] == u[..n] + [u[n]];
    ValSnoc(b, u[..n], u[n]);
    MulLe(Val(b, u[..n]) + 1, vv, b);
    MulDist(Val(b, u[..n]), 1, b);
  }

  lemma PartialArith(x: int, vv: int, k: int, x': int, p: int, t: int, q: int, b: int)
    requires x == k * vv + x'
    ensures (x' * p + t) + ((q * b + k) * vv) * p == (x * p + t) + (q * vv) * (b * p)
  {
    assert x * p == (k * vv) * p + x' * p;
    assert ((q * b + k) * vv) * p == (q * vv) * (b * p) + (k * vv) * p;
  }

  lemma LeadingZero(b: nat, w: seq<nat>)
    requires 0 < b && |w| > 0 && AllBelow(w, b) && Val(b, w) < Pow(b, |w| - 1)
    ensures w[0] == 0 && Val(b, w[1..]) == Val(b, w)
  {
    LeadBounds(b, w);
    if w[0] >= 1 {
      MulLe(1, w[0], Pow(b, |w| - 1));
    }
    assert w == [w[0]] + w[1..];
    ValCons(b, w[0], w[1..]);
  }

  lemma SplitAt(b: nat, u: seq<nat>, k: nat)
    requires k <= |u|
    ensures Val(b, u) == Val(b, u[..k]) * Pow(b, |u| - k) + Val(b, u[k..])
  {
    assert u == u[..k] + u[k..];
    ValConcat(b, u[..k], u[k..]);
  }

  /** D7: after the window u[..n+1] was replaced by its remainder `w`, whose leading digit is zero. */
  lemma PartialNext(b: nat, s: nat, vv: nat, n: nat, q: seq<nat>, u: seq<nat>, k: nat, w: seq<nat>)
    requires 0 < b && n < |u| && |w| == n + 1 && Partial(b, s, vv, n, q, u)
    requires AllBelow(w, b) && k < b && 0 < vv <= Pow(b, n)
    requires k == Val(b, u[..n + 1]) / vv && Val(b, w) == Val(b, u[..n + 1]) % vv
    ensures w[0] == 0
    ensures Partial(b, s, vv, n, q + [k], w[1..] + u[n + 1..])
  {
    hide Pow, Val;
    var x, t, p := Val(b, u[..n + 1]), Val(b, u[n + 1..]), Pow(b, |u| - n - 1);
    DivModSplit(x, vv);
    PowStep(b, |u| - n);
    assert w[0] == 0 && Val(b, w[1..]) == Val(b, w) by {
      LeadingZero(b, w);
    }
    var u' := w[1..] + u[n + 1..];
    assert Val(b, u') == Val(b, w) * p + t by {
      ValConcat(b, w[1..], u[n + 1..]);
    }
    SplitAt(b, u, n + 1);
    assert Val(b, q + [k]) == Val(b, q) * b + k by {
      ValSnoc(b, q, k);
    }
    PartialArith(x, vv, k, Val(b, w), p, t, Val(b, q), b);
    assert u'[..n] == w[1..];
    assert |u'| - n == |u| - n - 1;
  }

  lemma PartialEnd(b: nat, s: nat, vv: nat, n: nat, q: seq<nat>, u: seq<nat>)
    requires |u| == n && Partial(b, s, vv, n, q, u)
    ensures AllBelow(q, b) && AllBelow(u, b)
    ensures 0 < vv && Val(b, q) == s / vv && Val(b, u) == s % vv
  {
    assert u[..n] == u;
    assert (Val(b, q) * vv) * Pow(b, 0) == Val(b, q) * vv;
    DivModUnique(s, vv, Val(b, q), Val(b, u));
  }

  /** One round of the loop on j: the digits u[at..end] still to be divided lose their first digit to the quotient. */
  method NextDigit(h: nat, u: array<nat>, at: nat, end: nat, v: seq<nat>, n: nat, ghost s: nat, ghost qs: seq<nat>) returns (k: nat)
    requires 2 <= n == |v| && at + n < end <= u.Length
    requires AllBelow(v, Base(h)) && 0 < v[0]
    requires Partial(Base(h), s, Val(Base(h), v), n, qs, u[at..end])
    modifies u
    ensures u[at] == 0
    ensures Partial(Base(h), s, Val(Base(h), v), n, qs + [k], u[at + 1..end])
    ensures forall i :: 0 <= i < u.Length && !(at <= i < end) ==> u[i] == old(u[i])
  {
    hide Pow, Val, Partial;
    ghost var b, us, vv := Base(h), u[at..end], Val(Base(h), v);
    PartialWindow(b, s, vv, n, qs, us);
    assert u[at..at + n + 1] == us[..n + 1];
    ghost var qhat, borrowed, corrections;
    k, qhat, borrowed, corrections := DivideStep(h, u, at, v, n);
    ValBound(b, v);
    ghost var w := u[at..at + n + 1];
    PartialNext(b, s, vv, n, qs, us, k, w);
    assert us[n + 1..] == u[at + n + 1..end] by {
      assert forall i :: at + n + 1 <= i < end ==> u[i] == us[i - at];
    }
    assert u[at + 1..end] == u[at + 1..at + n + 1] + u[at + n + 1..end];
    assert w[1..] == u[at + 1..at + n + 1];
  }

  /** D2 to D7: divides u[0..m+n] by v[1..n], leaving the quotient in q[0..m] and the remainder in u[m+1..m+n]. */
  method DigitLoop(h: nat, u: array<nat>, uo: nat, v: seq<nat>, q: array<nat>, qo: nat, m: nat, n: nat)
    requires u != q && 2 <= n == |v|
    requires uo + m + n < u.Length && qo + m < q.Length
    requires AllBelow(u[uo..uo + m + n + 1], Base(h)) && AllBelow(v, Base(h)) && 0 < v[0]
    requires Val(Base(h), u[uo..uo + m + n + 1]) < Val(Base(h), v) * Pow(Base(h), m + 1)
    modifies u, q
    ensures 0 < Val(Base(h), v)
    ensures AllBelow(q[qo..qo + m + 1], Base(h)) && AllBelow(u[uo + m + 1..uo + m + n + 1], Base(h))
    ensures Val(Base(h), q[qo..qo + m + 1]) == Val(Base(h), old(u[uo..uo + m + n + 1])) / Val(Base(h), v)
    ensures Val(Base(h), u[uo + m + 1..uo + m + n + 1]) == Val(Base(h), old(u[uo..uo + m + n + 1])) % Val(Base(h), v)
    ensures forall k :: uo <= k <= uo + m ==> u[k] == 0
    ensures forall k :: 0 <= k < u.Length && !(uo <= k <= uo + m + n) ==> u[k] == old(u[k])
    ensures forall k :: 0 <= k < q.Length && !(qo <= k <= qo + m) ==> q[k] == old(q[k])
  {
    hide Partial, Val, Pow;
    ghost var b, all, vv := Base(h), u[uo..uo + m + n + 1], Val(Base(h), v);
    ghost var s, qs, us := Val(b, all), [], all;
    var end := uo + m + n + 1;
    PartialStart(b, s, vv, n, all);
    var j := 0;
    while j <= m
      invariant 0 <= j <= m + 1
      invariant q[qo..qo + j] == qs
      invariant Partial(b, s, vv, n, qs, us) && u[uo + j..end] == us
      invariant forall k :: uo <= k < uo + j ==> u[k] == 0
      invariant forall k :: 0 <= k < u.Length && !(uo <= k < end) ==> u[k] == old(u[k])
      invariant forall k :: 0 <= k < q.Length && !(qo <= k < qo + j) ==> q[k] == old(q[k])
    {
      var k := NextDigit(h, u, uo + j, end, v, n, s, qs);
      qs, us := qs + [k], u[uo + j + 1..end];
      q[qo + j] := k;
      j := j + 1;
    }
    PartialEnd(b, s, vv, n, qs, us);
  }

  // ---------- The remainder: shifting back ----------

  /** The right shift by `d` with digits i+1..n of `x` done: they became `done`. */
  ghost predicate ShiftedBack(h: nat, d: nat, x: seq<nat>, i: nat, done: seq<nat>)
    requires d <= h
  {
    && i < |x| && |done| == |x| - 1 - i && AllBelow(done, Base(h))
    && Val(Base(h), done) * Pow(2, d) + LowBits(x[|x| - 1], d)
       == Val(Base(h), x[i + 1..]) + LowBits(x[i], d) * Pow(Base(h), |x| - 1 - i)
  }

  lemma ShiftedBackStart(h: nat, d: nat, x: seq<nat>)
    requires d <= h && 0 < |x|
    ensures ShiftedBack(h, d, x, |x| - 1, [])
  {
    assert x[|x|..] == [];
  }

  lemma ShiftedBackEnd(h: nat, d: nat, x: seq<nat>, done: seq<nat>, r: nat)
    requires d <= h && ShiftedBack(h, d, x, 0, done) && x[0] == 0 && Val(Base(h), x) == r * Pow(2, d)
    ensures AllBelow(done, Base(h)) && Val(Base(h), done) == r
  {
    var b, s := Base(h), Pow(2, d);
    assert Val(b, x) == Val(b, x[1..]) by {
      assert x == [x[0]] + x[1..];
      ValCons(b, x[0], x[1..]);
      assert 0 * Pow(b, |x| - 1) == 0;
    }
    assert LowBits(x[0], d) * Pow(b, |x| - 1) == 0;
    DivModUnique(r * s, s, Val(b, done), LowBits(x[|x| - 1], d));
    DivModUnique(r * s, s, r, 0);
  }

  /** One digit of the right shift: the high bits of `x` stay and the low bits of `w`, one digit up, fill in above. */
  lemma BackDigit(h: nat, d: nat, w: nat, x: nat)
    requires d <= h && w < Base(h) && x < Base(h)
    ensures BitOr(ShiftRight(x, d), LHalf(h, ShiftLeft(w, h - d)))
         == ShiftRight(x, d) + LowBits(w, d) * Pow(2, h - d) < Base(h)
  {
    PowAdd(2, d, h - d);
    assert Base(h) == Pow(2, d) * Pow(2, h - d);
    ShiftModulus(Base(h), Pow(2, h - d), Pow(2, d), w);
    assert Pow(2, d) * Pow(2, h - d) == Pow(2, h - d) * Pow(2, d);
    ShiftQuotient(Base(h), Pow(2, h - d), Pow(2, d), x);
    BitOrDisjoint(LowBits(w, d), h - d, ShiftRight(x, d));
    BitOrComm(ShiftRight(x, d), LowBits(w, d) * Pow(2, h - d));
  }

  lemma {:induction false} BitOrComm(x: nat, y: nat)
    ensures BitOr(x, y) == BitOr(y, x)
  {
    if x != 0 || y != 0 {
      BitOrComm(x / 2, y / 2);
    }
  }

  lemma BackStep(b: int, s: int, t: int, p: int, a: int, r: int, l: int, rn: int, z: int, v: int)
    requires b == t * s
    requires z * s + rn == v + r * p
    ensures ((a + l * t) * p + z) * s + rn == ((a * s + r) * p + v) + l * (b * p)
  {
    assert ((a + l * t) * p + z) * s == (a * s) * p + l * ((t * s) * p) + z * s;
    assert (a * s + r) * p == (a * s) * p + r * p;
  }

  lemma ShiftedBackNext(h: nat, d: nat, x: seq<nat>, i: nat, done: seq<nat>, y: nat)
    requires d <= h && 0 < i && ShiftedBack(h, d, x, i, done) && AllBelow(x, Base(h))
    requires y == BitOr(ShiftRight(x[i], d), LHalf(h, ShiftLeft(x[i - 1], h - d)))
    ensures ShiftedBack(h, d, x, i - 1, [y] + done)
  {
    hide Pow, Val, BitOr, LHalf, ShiftLeft, ShiftRight, LowBits;
    var b, s, t, p := Base(h), Pow(2, d), Pow(2, h - d), Pow(Base(h), |x| - 1 - i);
    var a, r, l := ShiftRight(x[i], d), LowBits(x[i], d), LowBits(x[i - 1], d);
    BackDigit(h, d, x[i - 1], x[i]);
    assert y == a + l * t && y < b;
    assert Val(b, [y] + done) == y * p + Val(b, done) by {
      ValCons(b, y, done);
    }
    assert Val(b, x[i..]) == (a * s + r) * p + Val(b, x[i + 1..]) by {
      assert x[i..] == [x[i]] + x[i + 1..];
      ValCons(b, x[i], x[i + 1..]);
      ShiftSplit(x[i], d);
    }
    assert b == t * s by {
      PowAdd(2, h - d, d);
    }
    assert Pow(b, |x| - i) == b * p by {
      PowStep(b, |x| - i);
    }
    BackStep(b, s, t, p, a, r, l, LowBits(x[|x| - 1], d), Val(b, done), Val(b, x[i + 1..]));
  }

  /** u[m..m+n] >> d, whose value is r * 2^d with u[m] == 0, becomes r in u[m+1..m+n]. */
  method ShiftBack(h: nat, u: array<nat>, m: nat, n: nat, d: nat, ghost r: nat)
    requires d <= h && m + n < u.Length && AllBelow(u[m..m + n + 1], Base(h)) && u[m] == 0
    requires Val(Base(h), u[m..m + n + 1]) == r * Pow(2, d)
    modifies u
    ensures u[m] == 0 && AllBelow(u[m + 1..m + n + 1], Base(h)) && Val(Base(h), u[m + 1..m + n + 1]) == r
    ensures forall k :: 0 <= k < u.Length && !(m <= k <= m + n) ==> u[k] == old(u[k])
  {
    hide Pow, Val, BitOr, LHalf, ShiftLeft, ShiftRight, ShiftedBack;
    ghost var x, done := u[m..m + n + 1], [];
    var i := m + n;
    ShiftedBackStart(h, d, x);
    while i > m
      invariant m <= i <= m + n
      invariant forall k :: 0 <= k < u.Length && !(i < k <= m + n) ==> u[k] == old(u[k])
      invariant ShiftedBack(h, d, x, i - m, done)
      invariant u[i + 1..m + n + 1] == done
    {
      assert u[i] == x[i - m] && u[i - 1] == x[i - m - 1];
      u[i] := BitOr(ShiftRight(u[i], d), LHalf(h, ShiftLeft(u[i - 1], h - d)));
      ShiftedBackNext(h, d, x, i - m, done, u[i]);
      done := [u[i]] + done;
      i := i - 1;
    }
    u[i] := 0;
    ShiftedBackEnd(h, d, x, done, r);
    assert u[m + 1..m + n + 1] == done;
  }

  // ---------- D1: normalisation ----------

  lemma DoubleStays(h: nat, t: nat)
    requires 0 < h && t < Base(h) / 2
    ensures 2 * t < Base(h)
  {
  }

  lemma TopBitsEmpty(h: nat, d: nat, v1: nat)
    requires d <= h && v1 * Pow(2, d) < Base(h)
    ensures ShiftRight(v1, h - d) == 0
  {
    var s, t := Pow(2, d), Pow(2, h - d);
    PowAdd(2, h - d, d);
    if v1 >= t {
      MulLe(t, v1, s);
    }
    DivModUnique(v1, t, 0, v1);
  }

  lemma ScaledLead(x: int, x': int, s: nat, p: nat, v: int)
    requires x * p <= v && v * s < (x' + 1) * p
    ensures x * s <= x'
  {
    MulLe(x * p, v, s);
    assert (x * p) * s == (x * s) * p;
    if x * s >= x' + 1 {
      MulLe(x' + 1, x * s, p);
    }
  }

  lemma NormalisedLead(b: nat, d: nat, v: seq<nat>, v': seq<nat>)
    requires |v| == |v'| > 0 && 0 < b && AllBelow(v, b) && AllBelow(v', b)
    requires Val(b, v') == Val(b, v) * Pow(2, d)
    ensures v[0] * Pow(2, d) <= v'[0]
  {
    hide Pow, Val;
    LeadBounds(b, v);
    LeadBounds(b, v');
    ScaledLead(v[0], v'[0], Pow(2, d), Pow(b, |v| - 1), Val(b, v));
  }

  lemma PowSuccDouble(d: nat, v1: nat)
    ensures v1 * Pow(2, d + 1) == 2 * (v1 * Pow(2, d))
  {
    MulAssoc(v1, Pow(2, d), 2);
  }

  /** The multiplier 2^d chosen by D1: the leading divisor digit times it is at least B/2 and still a digit. */
  method ChooseShift(h: nat, v1: nat) returns (d: nat)
    requires 0 < h && 0 < v1 < Base(h)
    ensures d <= h && Base(h) <= 2 * (v1 * Pow(2, d)) && v1 * Pow(2, d) < Base(h)
  {
    d := 0;
    var t := v1;
    assert v1 * Pow(2, 0) == v1;
    PowStep(2, h);
    while t < Base(h) / 2
      invariant 0 < t < Base(h) && t == v1 * Pow(2, d)
      decreases Base(h) - t
    {
      DoubleStays(h, t);
      PowSuccDouble(d, v1);
      t, d := 2 * t, d + 1;
    }
    if d > h {
      PowMonotone(2, h, d);
      MulLe(1, v1, Pow(2, d));
    }
  }

  /** D1: both numbers are multiplied by the same 2^d, which makes the leading divisor digit at least B/2. */
  method Normalise(h: nat, u: array<nat>, uo: nat, v: array<nat>, vo: nat, m: nat, n: nat) returns (d: nat)
    requires 0 < h && 0 < n && u != v && uo + m + n < u.Length && vo + n < v.Length
    requires AllBelow(u[uo..uo + m + n + 1], Base(h)) && AllBelow(v[vo + 1..vo + n + 1], Base(h))
    requires u[uo] == 0 && 0 < v[vo + 1]
    modifies u, v
    ensures d <= h
    ensures AllBelow(u[uo..uo + m + n + 1], Base(h)) && AllBelow(v[vo + 1..vo + n + 1], Base(h))
    ensures Val(Base(h), u[uo..uo + m + n + 1]) == Val(Base(h), old(u[uo..uo + m + n + 1])) * Pow(2, d)
    ensures Val(Base(h), v[vo + 1..vo + n + 1]) == Val(Base(h), old(v[vo + 1..vo + n + 1])) * Pow(2, d)
    ensures Base(h) <= 2 * v[vo + 1]
    ensures forall k :: 0 <= k < u.Length && !(uo <= k <= uo + m + n) ==> u[k] == old(u[k])
  {
    hide Val, Base, ShiftRight;
    ghost var b, uw, vw := Base(h), u[uo..uo + m + n + 1], v[vo + 1..vo + n + 1];
    assert vw[0] == v[vo + 1];
    d := ChooseShift(h, v[vo + 1]);
    if d > 0 {
      Shl(h, u, uo, m + n, d);
      assert v[vo + 1..vo + n + 1] == vw;
      Shl(h, v, vo + 1, n - 1, d);
      assert Val(b, u[uo..uo + m + n + 1]) == Val(b, uw) * Pow(2, d) by {
        TopBitsEmpty(h, d, 0);
      }
      assert Val(b, v[vo + 1..vo + n + 1]) == Val(b, vw) * Pow(2, d) by {
        TopBitsEmpty(h, d, vw[0]);
      }
    }
    NormalisedLead(b, d, vw, v[vo + 1..vo + n + 1]);
  }

  // ---------- __qdivrem ----------

  /** Division by zero traps; otherwise the quotient comes back, and the remainder if it was asked for. */
  datatype Division = DivideByZero | Divided(quotient: int, remainder: Option<int>)

  /** A quad as four digits. */
  function QuadDigits(h: nat, x: nat): (s: seq<nat>)
    ensures |s| == 4
  {
    var hi: nat, lo: nat := x / (Base(h) * Base(h)), x % (Base(h) * Base(h));
    [HHalf(h, hi), LHalf(h, hi), HHalf(h, lo), LHalf(h, lo)]
  }

  lemma TwoDigits(h: nat, x: nat)
    requires x < Base(h) * Base(h)
    ensures HHalf(h, x) < Base(h) && LHalf(h, x) < Base(h) && HHalf(h, x) * Base(h) + LHalf(h, x) == x
  {
    DivModSplit(x, Base(h));
    if HHalf(h, x) >= Base(h) {
      MulLe(Base(h), HHalf(h, x), Base(h));
    }
  }

  lemma ValFour(b: nat, w: nat, x: nat, y: nat, z: nat)
    ensures Val(b, [w, x, y, z]) == (w * b + x) * (b * b) + (y * b + z)
  {
    ValTwo(b, w, x);
    ValTwo(b, y, z);
    ValConcat(b, [w, x], [y, z]);
    assert [w, x] + [y, z] == [w, x, y, z];
    assert Pow(b, 2) == b * b by {
      PowStep(b, 2);
      PowStep(b, 1);
    }
  }

  lemma QuadDigitsValue(h: nat, x: nat)
    requires x < Pow(Base(h), 4)
    ensures AllBelow(QuadDigits(h, x), Base(h)) && Val(Base(h), QuadDigits(h, x)) == x
  {
    var b := Base(h);
    var hi, lo := x / (b * b), x % (b * b);
    DivModSplit(x, b * b);
    assert Pow(b, 4) == (b * b) * (b * b) by {
      PowAdd(b, 2, 2);
      PowStep(b, 2);
      PowStep(b, 1);
    }
    if hi >= b * b {
      MulLe(b * b, hi, b * b);
    }
    TwoDigits(h, hi);
    TwoDigits(h, lo);
    ValFour(b, HHalf(h, hi), LHalf(h, hi), HHalf(h, lo), LHalf(h, lo));
  }

  /** The two words COMBINE(s1, s2) and COMBINE(s3, s4) read back as a quad. */
  function FromDigits(h: nat, s: seq<nat>): (x: nat)
    requires |s| == 4 && AllBelow(s, Base(h))
    ensures x == Val(Base(h), s)
  {
    ValFour(Base(h), s[0], s[1], s[2], s[3]);
    assert s == [s[0], s[1], s[2], s[3]];
    Combine(h, s[0], s[1]) * (Base(h) * Base(h)) + Combine(h, s[2], s[3])
  }

  /** One step of division by a single digit: bringing down the next digit `x`. */
  lemma ShortStep(b: nat, t: nat, p: nat, q: nat, r: nat, x: nat)
    requires 0 < t && p == q * t + r && r < t
    ensures p * b + x == (q * b + (r * b + x) / t) * t + (r * b + x) % t
  {
    DivModSplit(r * b + x, t);
    assert (q * t + r) * b == (q * b) * t + r * b;
    MulDist(q * b, (r * b + x) / t, t);
  }

  function Quot(n: nat, t: nat): nat
    requires 0 < t
  {
    n / t
  }

  function Rem(n: nat, t: nat): nat
    requires 0 < t
  {
    n % t
  }

  /** Dividing the digits `u` by the single digit t so far gave the digits `q` and the remainder r. */
  ghost predicate ShortPartial(b: nat, t: nat, u: seq<nat>, q: seq<nat>, r: nat) {
    AllBelow(q, b) && r < t && Val(b, u) == Val(b, q) * t + r
  }

  lemma ShortNext(h: nat, t: nat, u: seq<nat>, q: seq<nat>, r: nat, x: nat, n: nat)
    requires 0 < t && x < Base(h) && ShortPartial(Base(h), t, u, q, r) && n == r * Base(h) + x
    ensures ShortPartial(Base(h), t, u + [x], q + [Quot(n, t)], Rem(n, t))
  {
    hide Pow, Val, Base;
    var b := Base(h);
    DivModSplit(n, t);
    EstimateBelowBase(b, t, r, x);
    ValSnoc(b, u, x);
    ValSnoc(b, q, Quot(n, t));
    ShortStep(b, t, Val(b, u), Val(b, q), r, x);
  }

  /** The unrolled division of u[1..4] by the single digit t (exercise 16 of the same section). */
  method ShortDivide(h: nat, u: seq<nat>, t: nat) returns (q: seq<nat>, r: nat)
    requires |u| == 4 && AllBelow(u, Base(h)) && 0 < t < Base(h)
    ensures |q| == 4 && AllBelow(q, Base(h))
    ensures Val(Base(h), q) == Val(Base(h), u) / t && r == Val(Base(h), u) % t
  {
    hide Pow, Val, BitOr, Base;
    ghost var b := Base(h);
    ShortStart(b, t);
    ShortNext(h, t, [], [], 0, u[0], u[0]);
    assert [] + [u[0]] == u[..1] && [] + [Quot(u[0], t)] == [Quot(u[0], t)];
    var q1 := Quot(u[0], t);
    var r1 := Rem(u[0], t);
    var rbj := Combine(h, r1, u[1]);
    ShortNext(h, t, u[..1], [q1], r1, u[1], rbj);
    assert u[..1] + [u[1]] == u[..2] && [q1] + [Quot(rbj, t)] == [q1, Quot(rbj, t)];
    var q2, r2 := Quot(rbj, t), Rem(rbj, t);
    rbj := Combine(h, r2, u[2]);
    ShortNext(h, t, u[..2], [q1, q2], r2, u[2], rbj);
    assert u[..2] + [u[2]] == u[..3] && [q1, q2] + [Quot(rbj, t)] == [q1, q2, Quot(rbj, t)];
    var q3, r3 := Quot(rbj, t), Rem(rbj, t);
    rbj := Combine(h, r3, u[3]);
    ShortNext(h, t, u[..3], [q1, q2, q3], r3, u[3], rbj);
    assert u[..3] + [u[3]] == u && [q1, q2, q3] + [Quot(rbj, t)] == [q1, q2, q3, Quot(rbj, t)];
    q, r := [q1, q2, q3, Quot(rbj, t)], Rem(rbj, t);
    ShortEnd(b, t, u, q, r);
  }

  lemma ShortStart(b: nat, t: nat)
    requires 0 < t
    ensures ShortPartial(b, t, [], [], 0)
  {
  }

  lemma ShortEnd(b: nat, t: nat, u: seq<nat>, q: seq<nat>, r: nat)
    requires ShortPartial(b, t, u, q, r)
    ensures AllBelow(q, b) && 0 < t && Val(b, q) == Val(b, u) / t && r == Val(b, u) % t
  {
    hide Val;
    DivModUnique(Val(b, u), t, Val(b, q), r);
  }

  lemma DropZeros(b: nat, s: seq<nat>, k: nat)
    requires k <= |s| && forall i :: 0 <= i < k ==> s[i] == 0
    ensures Val(b, s) == Val(b, s[k..])
  {
    hide Pow, Val;
    SplitAt(b, s, k);
    ValZeros(b, s[..k]);
    assert 0 * Pow(b, |s| - k) == 0;
  }

  lemma ScaleDivMod(u: nat, v: nat, f: nat)
    requires 0 < v && 0 < f
    ensures 0 < v * f && (u * f) / (v * f) == u / v && (u * f) % (v * f) == (u % v) * f
  {
    DivModSplit(u, v);
    var q, r := u / v, u % v;
    MulLe(1, v, f);
    MulDist(q * v, r, f);
    MulAssoc(q, v, f);
    MulLess(r, v, f);
    MulLe(0, r, f);
    DivModUnique(u * f, v * f, q, r * f);
  }

  /** u < v * B^(m+1), which lets D2 start: u has m+n digits and v has n, the first nonzero. */
  lemma QuotientFits(b: nat, u: seq<nat>, v: seq<nat>, m: nat, f: nat)
    requires 0 < b && 0 < |v| && |u| == m + |v| && 0 < f && AllBelow(u, b) && AllBelow(v, b) && 0 < v[0]
    ensures Val(b, u) * f < (Val(b, v) * f) * Pow(b, m + 1)
  {
    hide Pow, Val;
    var p, x, y := Pow(b, m + 1), Val(b, u), Val(b, v);
    assert x < y * p by {
      ValBound(b, u);
      LeadBounds(b, v);
      MulLe(1, v[0], Pow(b, |v| - 1));
      MulLe(Pow(b, |v| - 1), y, p);
      PowAdd(b, |v| - 1, m + 1);
    }
    MulLess(x, y * p, f);
    assert (y * p) * f == (y * f) * p;
  }

  lemma TimesPowZero(r: int)
    ensures r * Pow(2, 0) == r
  {
  }

  /** The remainder r, left times 2^d in u[m+1..m+n] below zeros, ends up as the four-digit number u[1..4]. */
  method UnshiftRemainder(h: nat, u: array<nat>, m: nat, n: nat, d: nat, ghost r: nat)
    requires u.Length == 5 && m + n == 4 && d <= h
    requires AllBelow(u[m + 1..m + n + 1], Base(h)) && forall k :: 0 <= k <= m ==> u[k] == 0
    requires Val(Base(h), u[m + 1..m + n + 1]) == r * Pow(2, d)
    modifies u
    ensures AllBelow(u[1..], Base(h)) && Val(Base(h), u[1..]) == r
  {
    hide Pow, Val, Base;
    ghost var b, w := Base(h), u[m..m + n + 1];
    if d > 0 {
      assert w[1..] == u[m + 1..m + n + 1];
      DropZeros(b, w, 1);
      ShiftBack(h, u, m, n, d, r);
    } else {
      TimesPowZero(r);
    }
    assert u[1..][m..] == u[m + 1..m + n + 1];
    DropZeros(b, u[1..], m);
  }

  /**
    D1 to D7 and the final remainder shift, once the leading zeros of both numbers are skipped:
    the dividend is u[0..m+n] with u[0] == 0, the divisor v[1..n] with v[1] != 0.
    */
  method LongDivide(h: nat, u: array<nat>, uo: nat, ghost ud: seq<nat>, v: array<nat>, vo: nat, ghost vd: seq<nat>,
                    q: array<nat>, m: nat, n: nat, arq: bool)
    requires 0 < h && u != v && u != q && v != q && u.Length == v.Length == q.Length == 5
    requires 2 <= n && uo + m + n == 4 && vo + n == 4
    requires |ud| == |vd| == 4 && AllBelow(ud, Base(h)) && AllBelow(vd, Base(h))
    requires u[..] == [0] + ud && v[..] == [0] + vd
    requires (forall k :: 0 <= k < uo ==> ud[k] == 0) && (forall k :: 0 <= k < vo ==> vd[k] == 0) && 0 < vd[vo]
    modifies u, v, q
    ensures 0 < Val(Base(h), vd)
    ensures AllBelow(q[1..], Base(h)) && Val(Base(h), q[1..]) == Val(Base(h), ud) / Val(Base(h), vd)
    ensures arq ==> AllBelow(u[1..], Base(h)) && Val(Base(h), u[1..]) == Val(Base(h), ud) % Val(Base(h), vd)
  {
    hide Pow, Val;
    ghost var b, u0, v0, uq, vq := Base(h), ud[uo..], vd[vo..], Val(Base(h), ud), Val(Base(h), vd);
    DropZeros(b, ud, uo);
    DropZeros(b, vd, vo);
    ClearQuotient(q, 4 - m);
    assert u[uo..uo + m + n + 1] == [0] + u0 && v[vo + 1..vo + n + 1] == v0;
    DropZeros(b, [0] + u0, 1);
    assert ([0] + u0)[1..] == u0;
    var d := Normalise(h, u, uo, v, vo, m, n);
    ghost var f := Pow(2, d);
    QuotientFits(b, u0, v0, m, f);
    var vw := v[vo + 1..vo + n + 1];
    assert 0 < vw[0];
    assert Val(b, u[uo..uo + m + n + 1]) == uq * f && Val(b, vw) == vq * f;
    DigitLoop(h, u, uo, vw, q, 4 - m, m, n);
    PositiveFactor(vq, f);
    ScaleDivMod(uq, vq, f);
    assert AllBelow(q[1..], b) && Val(b, q[1..]) == uq / vq by {
      assert q[1..][3 - m..] == q[4 - m..4 - m + m + 1];
      DropZeros(b, q[1..], 3 - m);
    }
    if arq {
      UnshiftRemainder(h, u, uo + m, n, d, uq % vq);
    }
  }

  lemma PositiveFactor(x: nat, f: nat)
    requires 0 < x * f
    ensures 0 < x
  {
  }

  /** The dividend has at least as many digits as the divisor, because it is not smaller. */
  lemma EnoughDigits(b: nat, u: seq<nat>, v: seq<nat>)
    requires 0 < b && |v| > 0 && AllBelow(u, b) && AllBelow(v, b) && 0 < v[0]
    requires Val(b, v) <= Val(b, u)
    ensures |v| <= |u|
  {
    hide Pow, Val;
    if |u| <= |v| - 1 {
      ValBound(b, u);
      LeadBounds(b, v);
      PowMonotone(b, |u|, |v| - 1);
      MulLe(1, v[0], Pow(b, |v| - 1));
    }
  }

  /** Moves past zero digits at a[1], a[2], ..., at most `limit` of them. */
  method SkipZeros(a: array<nat>, limit: nat) returns (k: nat)
    requires limit < a.Length
    ensures k <= limit && (forall i :: 1 <= i <= k ==> a[i] == 0)
    ensures k < limit ==> a[k + 1] != 0
  {
    k := 0;
    while k < limit && a[k + 1] == 0
      invariant k <= limit && forall i :: 1 <= i <= k ==> a[i] == 0
    {
      k := k + 1;
    }
  }

  /** A digit array with the digits d[1..4]; position 0 is a zero. */
  method LoadDigits(d: seq<nat>) returns (a: array<nat>)
    requires |d| == 4
    ensures fresh(a) && a.Length == 5 && a[..] == [0] + d
  {
    a := new nat[5];
    a[0], a[1], a[2], a[3], a[4] := 0, d[0], d[1], d[2], d[3];
  }

  /** __qdivrem: the exact quotient and, when asked for, the exact remainder of two quads. */
  method QDivRem(h: nat, uq: nat, vq: nat, arq: bool) returns (r: Division)
    requires 0 < h && uq < Pow(Base(h), 4) && vq < Pow(Base(h), 4)
    ensures r.DivideByZero? <==> vq == 0
    ensures vq != 0 ==> r == Divided(uq / vq, if arq then Some(uq % vq) else None)
  {
    hide Pow, Val, Base;
    if vq == 0 {
      return DivideByZero;
    }
    if uq < vq {
      DivModUnique(uq, vq, 0, uq);
      return Divided(0, if arq then Some(uq) else None);
    }
    QuadDigitsValue(h, uq);
    QuadDigitsValue(h, vq);
    r := DivideDigits(h, QuadDigits(h, uq), QuadDigits(h, vq), arq);
  }

  /** The body of __qdivrem after the special cases, on the digits u[1..4] and v[1..4]. */
  method DivideDigits(h: nat, ud: seq<nat>, vd: seq<nat>, arq: bool) returns (r: Division)
    requires 0 < h && |ud| == |vd| == 4 && AllBelow(ud, Base(h)) && AllBelow(vd, Base(h))
    requires 0 < Val(Base(h), vd) <= Val(Base(h), ud)
    ensures r == Divided(Val(Base(h), ud) / Val(Base(h), vd),
                         if arq then Some(Val(Base(h), ud) % Val(Base(h), vd)) else None)
  {
    hide Pow, Val, Base;
    ghost var b := Base(h);
    var uspace := LoadDigits(ud);
    var vspace := LoadDigits(vd);
    var qspace := new nat[5];
    var vo := SkipZeros(vspace, 3);
    assert forall i :: 0 <= i < vo ==> vd[i] == vspace[i + 1];
    DropZeros(b, vd, vo);
    if vo == 3 {
      assert vd[3..] == [vd[3]] && uspace[1..] == ud;
      SingleDigit(b, vd[3]);
      var q, rem := ShortDivide(h, uspace[1..], vspace[4]);
      return Divided(FromDigits(h, q), if arq then Some(rem) else None);
    }
    var uo := SkipZeros(uspace, 4);
    assert forall i :: 0 <= i < uo ==> ud[i] == uspace[i + 1];
    DropZeros(b, ud, uo);
    EnoughDigits(b, ud[uo..], vd[vo..]);
    LongDivide(h, uspace, uo, ud, vspace, vo, vd, qspace, 4 - uo - (4 - vo), 4 - vo, arq);
    r := Divided(FromDigits(h, qspace[1..]), if arq then Some(FromDigits(h, uspace[1..])) else None);
  }

  method ClearQuotient(q: array<nat>, count: nat)
    requires count <= q.Length
    modifies q
    ensures forall k :: 0 <= k < count ==> q[k] == 0
  {
    var i := count - 1;
    while i >= 0
      invariant -1 <= i < count
      invariant forall k :: i < k < count ==> q[k] == 0
    {
      q[i] := 0;
      i := i - 1;
    }
  }

  lemma SingleDigit(b: nat, t: nat)
    ensures Val(b, [t]) == t
  {
    ValSnoc(b, [], t);
    assert [] + [t] == [t];
  }

  // ---------- __udivdi3, __umoddi3, __divdi3 ----------

  method UDivDi3(h: nat, a: nat, b: nat) returns (r: Division)
    requires 0 < h && a < Pow(Base(h), 4) && b < Pow(Base(h), 4)
    ensures b == 0 ==> r == DivideByZero
    ensures b != 0 ==> r.Divided? && r.quotient == a / b
  {
    r := QDivRem(h, a, b, false);
  }

  method UModDi3(h: nat, a: nat, b: nat) returns (r: Option<int>)
    requires 0 < h && a < Pow(Base(h), 4) && b < Pow(Base(h), 4)
    ensures r == if b == 0 then None else Some(a % b)
  {
    var d := QDivRem(h, a, b, true);
    r := if d.DivideByZero? then None else d.remainder;
  }

  function Abs(x: int): nat { if x < 0 then -x else x }

  /** Division truncating toward zero, section 6.5.5 of ISO C99. */
  function TruncatedQuotient(a: int, b: int): int
    requires b != 0
  {
    if (a < 0) == (b < 0) then Abs(a) / Abs(b) else -(Abs(a) / Abs(b))
  }

  lemma QuotientSmaller(x: nat, y: nat)
    requires 0 < y
    ensures 0 <= x / y <= x && (x / y == x && x > 0 ==> y == 1)
  {
    DivModSplit(x, y);
    var q := x / y;
    MulLe(1, y, q);
    if y >= 2 && q > 0 {
      MulLe(2, y, q);
    }
  }

  /** Unary minus on an unsigned quad. */
  function Negate(range: nat, x: int): (r: nat)
    requires range > 0
    ensures r < range
  {
    (0 - x) % range
  }

  lemma NegateValue(range: nat, x: int)
    requires 0 - range < x < range
    ensures Negate(range, x) == if x > 0 then range - x else -x
  {
    if x > 0 {
      DivModUnique(0 - x, range, -1, range - x);
    } else {
      DivModUnique(0 - x, range, 0, 0 - x);
    }
  }

  lemma SignedResult(half: int, a: int, b: int, uq: int, neg: bool)
    requires 0 < half && 0 <= uq && -half <= a < half && -half <= b < half && b != 0
    requires uq == Abs(a) / Abs(b) && neg == ((a < 0) != (b < 0))
    ensures var r := AsSigned(2 * half, if neg then Negate(2 * half, uq) else uq);
            if a == -half && b == -1 then r == a && r != TruncatedQuotient(a, b)
            else r == TruncatedQuotient(a, b)
  {
    hide Negate;
    QuotientSmaller(Abs(a), Abs(b));
    NegateValue(2 * half, uq);
  }

  lemma QuadRange(h: nat)
    requires 0 < h
    ensures Pow(Base(h), 4) % 2 == 0 && Pow(Base(h), 4) > 0
  {
    hide Pow;
    PowStep(Base(h), 4);
    PowStep(2, h);
    MulAssoc(2, Pow(2, h - 1), Pow(Base(h), 3));
  }

  /** The smallest signed quad. */
  function MinQuad(h: nat): int { 0 - Pow(Base(h), 4) / 2 }

  ghost predicate IsQuad(h: nat, x: int) { MinQuad(h) <= x < 0 - MinQuad(h) }

  /**
    __divdi3 truncates toward zero for every nonzero divisor, except for the one quotient that does
    not fit: the smallest quad over -1 comes back as itself.
    */
  method DivDi3(h: nat, a: int, b: int) returns (r: Division)
    requires 0 < h && IsQuad(h, a) && IsQuad(h, b)
    ensures b == 0 <==> r == DivideByZero
    ensures b != 0 ==> r.Divided? && (r.quotient == TruncatedQuotient(a, b) <==> !(a == MinQuad(h) && b == -1))
    ensures a == MinQuad(h) && b == -1 ==> r.quotient == a
  {
    hide Pow, Base, Negate, TruncatedQuotient, AsSigned;
    var range := Pow(Base(h), 4);
    QuadRange(h);
    var ua: nat, ub: nat, neg: bool;
    NegateValue(range, a);
    NegateValue(range, b);
    if a < 0 {
      ua, neg := Negate(range, a), true;
    } else {
      ua, neg := a, false;
    }
    if b < 0 {
      ub, neg := Negate(range, b), !neg;
    } else {
      ub := b;
    }
    var d := QDivRem(h, ua, ub, false);
    if d.DivideByZero? {
      return DivideByZero;
    }
    QuotientSmaller(ua, ub);
    SignedResult(range / 2, a, b, d.quotient, neg);
    r := Divided(AsSigned(range, if neg then Negate(range, d.quotient) else d.quotient), None);
  }
}
