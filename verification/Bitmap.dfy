/**
 * The allocation bitmap: one bit per page in 64-bit words, set for pages that are allocated or
 * missing. Ranges of bits are set and cleared a word at a time with masks.
 */
module Bitmap {
  const BITS := 64

  // Operations on words, each used by name only outside the lemmas right below.

  /** 1UL << n */
  function One(n: bv6): bv64 { (1 as bv64) << (n as bv64) }
  /** (1UL << n) - 1 */
  function OnesBelow(n: bv6): bv64 { One(n) - 1 }
  /** -(1UL << n) */
  function OnesFrom(n: bv6): bv64 { 0 - One(n) }
  function Or(x: bv64, y: bv64): bv64 { x | y }
  function And(x: bv64, y: bv64): bv64 { x & y }
  predicate Hit(w: bv64, b: bv64) { w & b != 0 }
  predicate Less(k: bv6, n: bv6) { k < n }
  predicate Single(b: bv64) { b & (b - 1) == 0 && b != 0 }

  lemma OneIsSingle(n: bv6)
    ensures Single(One(n))
  {
  }

  lemma HitBelow(n: bv6, k: bv6)
    ensures Hit(OnesBelow(n), One(k)) <==> Less(k, n)
  {
  }

  lemma HitFrom(n: bv6, k: bv6)
    ensures Hit(OnesFrom(n), One(k)) <==> !Less(k, n)
  {
  }

  lemma RawOr(x: bv64, y: bv64, b: bv64)
    requires b & (b - 1) == 0 && b != 0
    ensures (x | y) & b != 0 <==> x & b != 0 || y & b != 0
  {
  }

  lemma AllOrNothing(x: bv64, b: bv64)
    requires b & (b - 1) == 0
    ensures x & b == 0 || x & b == b
  {
  }

  lemma Distribute(x: bv64, y: bv64, b: bv64)
    ensures (x & y) & b == (x & b) & (y & b)
  {
  }

  lemma RawAnd(x: bv64, y: bv64, b: bv64)
    requires b & (b - 1) == 0 && b != 0
    ensures (x & y) & b != 0 <==> x & b != 0 && y & b != 0
  {
    AllOrNothing(x, b);
    AllOrNothing(y, b);
    Distribute(x, y, b);
  }

  lemma HitMeans(x: bv64, b: bv64)
    ensures Hit(x, b) <==> x & b != 0
  {
  }

  lemma HitOr(x: bv64, y: bv64, b: bv64)
    requires Single(b)
    ensures Hit(Or(x, y), b) <==> Hit(x, b) || Hit(y, b)
  {
    RawOr(x, y, b);
  }

  lemma HitAnd(x: bv64, y: bv64, b: bv64)
    requires Single(b)
    ensures Hit(And(x, y), b) <==> Hit(x, b) && Hit(y, b)
  {
    hide Hit;
    RawAnd(x, y, b);
    HitMeans(x, b);
    HitMeans(y, b);
    HitMeans(x & y, b);
  }

  lemma HitConstants(b: bv64)
    requires Single(b)
    ensures Hit(0xFFFF_FFFF_FFFF_FFFF, b) && !Hit(0, b)
  {
  }

  /** The low six bits of a page number, as a shift amount. */
  function Offset(n: nat): bv6
    requires n < BITS
  {
    n as bv6
  }

  lemma OffsetOrder(n: nat, k: nat)
    requires n < BITS && k < BITS
    ensures Less(Offset(k), Offset(n)) <==> k < n
  {
    hide Less;
    OffsetValue(n);
    OffsetValue(k);
    OrderOfValues(Offset(k), Offset(n));
  }

  lemma OffsetValue(n: nat)
    requires n < BITS
    ensures Offset(n) as int == n
  {
  }

  lemma OrderOfValues(x: bv6, y: bv6)
    ensures x as int < y as int <==> Less(x, y)
  {
  }

  // ---------- Words ----------

  predicate Bit(w: bv64, k: nat)
    requires k < BITS
  {
    Hit(w, One(Offset(k)))
  }

  function Below(n: nat): bv64
    requires n < BITS
  {
    OnesBelow(Offset(n))
  }

  function From(n: nat): bv64
    requires n < BITS
  {
    OnesFrom(Offset(n))
  }

  lemma BitOfMask(n: nat, k: nat)
    requires n < BITS && k < BITS
    ensures Bit(Below(n), k) <==> k < n
    ensures Bit(From(n), k) <==> k >= n
  {
    hide One, Offset, Hit, OnesBelow, OnesFrom, Less;
    HitBelow(Offset(n), Offset(k));
    HitFrom(Offset(n), Offset(k));
    OffsetOrder(n, k);
  }

  lemma BitOfCombination(x: bv64, y: bv64, k: nat)
    requires k < BITS
    ensures Bit(Or(x, y), k) <==> Bit(x, k) || Bit(y, k)
    ensures Bit(And(x, y), k) <==> Bit(x, k) && Bit(y, k)
  {
    hide One, Offset, Hit, Single, Or, And;
    OneIsSingle(Offset(k));
    HitOr(x, y, One(Offset(k)));
    HitAnd(x, y, One(Offset(k)));
  }

  /** w' has the bits lo to hi - 1 set to `value` and the others as in w. */
  ghost predicate WordAfter(w: bv64, w': bv64, lo: int, hi: int, value: bool) {
    forall k: nat :: k < BITS ==> Bit(w', k) == if lo <= k < hi then value else Bit(w, k)
  }

  lemma SetWithin(w: bv64, lo: nat, hi: nat)
    requires lo <= hi < BITS
    ensures WordAfter(w, Or(w, And(Below(hi), From(lo))), lo, hi, true)
    ensures WordAfter(w, And(w, Or(From(hi), Below(lo))), lo, hi, false)
  {
    hide Bit, Below, From, Or, And;
    forall k: nat | k < BITS
      ensures Bit(Or(w, And(Below(hi), From(lo))), k) == if lo <= k < hi then true else Bit(w, k)
      ensures Bit(And(w, Or(From(hi), Below(lo))), k) == if lo <= k < hi then false else Bit(w, k)
    {
      BitOfMask(lo, k);
      BitOfMask(hi, k);
      BitOfCombination(Below(hi), From(lo), k);
      BitOfCombination(w, And(Below(hi), From(lo)), k);
      BitOfCombination(From(hi), Below(lo), k);
      BitOfCombination(w, Or(From(hi), Below(lo)), k);
    }
  }

  lemma SetFrom(w: bv64, lo: nat)
    requires lo < BITS
    ensures WordAfter(w, Or(w, From(lo)), lo, BITS, true)
    ensures WordAfter(w, And(w, Below(lo)), lo, BITS, false)
  {
    hide Bit, Below, From, Or, And;
    forall k: nat | k < BITS
      ensures Bit(Or(w, From(lo)), k) == if lo <= k < BITS then true else Bit(w, k)
      ensures Bit(And(w, Below(lo)), k) == if lo <= k < BITS then false else Bit(w, k)
    {
      BitOfMask(lo, k);
      BitOfCombination(w, From(lo), k);
      BitOfCombination(w, Below(lo), k);
    }
  }

  lemma SetBelow(w: bv64, hi: nat)
    requires hi < BITS
    ensures WordAfter(w, Or(w, Below(hi)), 0, hi, true)
    ensures WordAfter(w, And(w, From(hi)), 0, hi, false)
  {
    hide Bit, Below, From, Or, And;
    forall k: nat | k < BITS
      ensures Bit(Or(w, Below(hi)), k) == if 0 <= k < hi then true else Bit(w, k)
      ensures Bit(And(w, From(hi)), k) == if 0 <= k < hi then false else Bit(w, k)
    {
      BitOfMask(hi, k);
      BitOfCombination(w, Below(hi), k);
      BitOfCombination(w, From(hi), k);
    }
  }

  lemma SetAll(w: bv64)
    ensures WordAfter(w, 0xFFFF_FFFF_FFFF_FFFF, 0, BITS, true)
    ensures WordAfter(w, 0, 0, BITS, false)
  {
    hide One, Offset, Hit, Single;
    forall k: nat | k < BITS
      ensures Bit(0xFFFF_FFFF_FFFF_FFFF, k) && !Bit(0, k)
    {
      OneIsSingle(Offset(k));
      HitConstants(One(Offset(k)));
    }
  }

  // ---------- Pages ----------

  function WordOf(page: nat): nat { page / BITS }
  function BitOf(page: nat): (k: nat)
    ensures k < BITS
  {
    page % BITS
  }

  lemma PageSplit(page: nat)
    ensures page == WordOf(page) * BITS + BitOf(page)
  {
  }

  /** allocated_in_map */
  predicate Allocated(words: seq<bv64>, page: nat)
    requires WordOf(page) < |words|
  {
    Bit(words[WordOf(page)], BitOf(page))
  }

  /** Every bit from first to last - 1 became `value`, and no other bit changed. */
  ghost predicate MapAfter(words: seq<bv64>, words': seq<bv64>, first: nat, last: nat, value: bool) {
    && |words'| == |words|
    && forall page: nat :: WordOf(page) < |words| ==>
         Allocated(words', page) == if first <= page < last then value else Allocated(words, page)
  }

  /** The same, word by word, for the words below n. */
  ghost predicate WordsAfter(words: seq<bv64>, words': seq<bv64>, n: nat, first: int, last: int, value: bool) {
    && |words'| == |words| && n <= |words|
    && (forall i: nat :: i < n ==> WordAfter(words[i], words'[i], first - i * BITS, last - i * BITS, value))
    && (forall i: nat :: n <= i < |words| ==> words'[i] == words[i])
  }

  lemma WordsMakeMap(words: seq<bv64>, words': seq<bv64>, first: nat, last: nat, value: bool)
    requires WordsAfter(words, words', |words|, first, last, value)
    ensures MapAfter(words, words', first, last, value)
  {
    hide Bit;
    forall page: nat | WordOf(page) < |words|
      ensures Allocated(words', page) == if first <= page < last then value else Allocated(words, page)
    {
      PageSplit(page);
      assert WordAfter(words[WordOf(page)], words'[WordOf(page)], first - WordOf(page) * BITS, last - WordOf(page) * BITS, value);
    }
  }

  /** The bounds of a range matter to a word only as far as they lie inside it. */
  lemma Clip(w: bv64, w': bv64, lo: int, hi: int, lo': int, hi': int, value: bool)
    requires WordAfter(w, w', lo, hi, value)
    requires (lo == lo' || (lo <= 0 && lo' <= 0)) && (hi == hi' || (hi >= BITS && hi' >= BITS))
    ensures WordAfter(w, w', lo', hi', value)
  {
    hide Bit;
  }

  lemma Untouched(w: bv64, lo: int, hi: int, value: bool)
    requires lo >= BITS || hi <= 0 || lo >= hi
    ensures WordAfter(w, w, lo, hi, value)
  {
    hide Bit;
  }

  lemma WordsStart(words: seq<bv64>, n: nat, first: nat, last: nat, value: bool)
    requires n <= |words| && n == WordOf(first) && first <= last
    ensures WordsAfter(words, words, n, first, last, value)
  {
    hide WordAfter;
    forall i: nat | i < n
      ensures WordAfter(words[i], words[i], first - i * BITS, last - i * BITS, value)
    {
      PageSplit(first);
      Untouched(words[i], first - i * BITS, last - i * BITS, value);
    }
  }

  /** Word n gets its part of the range. */
  lemma WordsNext(words: seq<bv64>, words': seq<bv64>, n: nat, x: bv64, lo: int, hi: int, first: int, last: int, value: bool)
    requires WordsAfter(words, words', n, first, last, value) && n < |words|
    requires WordAfter(words[n], x, lo, hi, value)
    requires lo == first - n * BITS || (lo <= 0 && first - n * BITS <= 0)
    requires hi == last - n * BITS || (hi >= BITS && last - n * BITS >= BITS)
    ensures WordsAfter(words, words'[n := x], n + 1, first, last, value)
  {
    hide WordAfter;
    Clip(words[n], x, lo, hi, first - n * BITS, last - n * BITS, value);
  }

  lemma WordsEnd(words: seq<bv64>, words': seq<bv64>, n: nat, first: nat, last: nat, value: bool)
    requires WordsAfter(words, words', n, first, last, value) && last <= n * BITS
    ensures MapAfter(words, words', first, last, value)
  {
    hide WordAfter, MapAfter;
    forall i: nat | i < |words|
      ensures WordAfter(words[i], words'[i], first - i * BITS, last - i * BITS, value)
    {
      if i >= n {
        Untouched(words[i], first - i * BITS, last - i * BITS, value);
      }
    }
    WordsMakeMap(words, words', first, last, value);
  }

  /** map_alloc: set the bits of nr pages from `first` on. */
  method MapAlloc(bits: array<bv64>, first: nat, nr: nat)
    requires WordOf(first + nr) < bits.Length
    modifies bits
    ensures MapAfter(old(bits[..]), bits[..], first, first + nr, true)
  {
    hide WordAfter, WordsAfter, MapAfter, Below, From, Or, And;
    ghost var was, last := bits[..], first + nr;
    var cur, lo, endIdx, hi := WordOf(first), BitOf(first), WordOf(first + nr), BitOf(first + nr);
    PageSplit(first);
    PageSplit(first + nr);
    WordsStart(was, cur, first, last, true);
    if cur == endIdx {
      SetWithin(was[cur], lo, hi);
      bits[cur] := Or(bits[cur], And(Below(hi), From(lo)));
      WordsNext(was, was, cur, bits[cur], lo, hi, first, last, true);
    } else {
      SetFrom(was[cur], lo);
      bits[cur] := Or(bits[cur], From(lo));
      WordsNext(was, was, cur, bits[cur], lo, BITS, first, last, true);
      ghost var now := was[cur := bits[cur]];
      cur := cur + 1;
      while cur < endIdx
        invariant cur <= endIdx && WordsAfter(was, now, cur, first, last, true) && bits[..] == now && |now| == bits.Length
      {
        SetAll(was[cur]);
        bits[cur] := 0xFFFF_FFFF_FFFF_FFFF;
        WordsNext(was, now, cur, bits[cur], 0, BITS, first, last, true);
        now := now[cur := bits[cur]];
        cur := cur + 1;
      }
      SameWord(was, now, cur, first, last, true);
      SetBelow(was[cur], hi);
      bits[cur] := Or(bits[cur], Below(hi));
      WordsNext(was, now, cur, bits[cur], 0, hi, first, last, true);
      assert bits[..] == now[cur := bits[cur]];
    }
    WordsEnd(was, bits[..], cur + 1, first, last, true);
  }

  /** map_free: clear them. */
  method MapFree(bits: array<bv64>, first: nat, nr: nat)
    requires WordOf(first + nr) < bits.Length
    modifies bits
    ensures MapAfter(old(bits[..]), bits[..], first, first + nr, false)
  {
    hide WordAfter, WordsAfter, MapAfter, Below, From, Or, And;
    ghost var was, last := bits[..], first + nr;
    var cur, lo, endIdx, hi := WordOf(first), BitOf(first), WordOf(first + nr), BitOf(first + nr);
    PageSplit(first);
    PageSplit(first + nr);
    WordsStart(was, cur, first, last, false);
    if cur == endIdx {
      SetWithin(was[cur], lo, hi);
      bits[cur] := And(bits[cur], Or(From(hi), Below(lo)));
      WordsNext(was, was, cur, bits[cur], lo, hi, first, last, false);
    } else {
      SetFrom(was[cur], lo);
      bits[cur] := And(bits[cur], Below(lo));
      WordsNext(was, was, cur, bits[cur], lo, BITS, first, last, false);
      ghost var now := was[cur := bits[cur]];
      cur := cur + 1;
      while cur != endIdx
        invariant cur <= endIdx && WordsAfter(was, now, cur, first, last, false) && bits[..] == now && |now| == bits.Length
      {
        SetAll(was[cur]);
        bits[cur] := 0;
        WordsNext(was, now, cur, bits[cur], 0, BITS, first, last, false);
        now := now[cur := bits[cur]];
        cur := cur + 1;
      }
      SameWord(was, now, cur, first, last, false);
      SetBelow(was[cur], hi);
      bits[cur] := And(bits[cur], From(hi));
      WordsNext(was, now, cur, bits[cur], 0, hi, first, last, false);
      assert bits[..] == now[cur := bits[cur]];
    }
    WordsEnd(was, bits[..], cur + 1, first, last, false);
  }

  lemma SameWord(words: seq<bv64>, words': seq<bv64>, n: nat, first: int, last: int, value: bool)
    requires WordsAfter(words, words', n, first, last, value) && n < |words|
    ensures |words'| == |words| && words'[n] == words[n]
  {
    hide WordAfter;
  }
}
