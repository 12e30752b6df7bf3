/** The text of numbers as lib/printf.c lays it out, and the parser that reads it back. */
module NumberText {
  import opened Arithmetic
  import opened Common
  import Powers = Digits

  const WORD := 0x1_0000_0000_0000_0000        // unsigned long and unsigned long long
  const HALF := 0x8000_0000_0000_0000

  datatype Flags = Flags(zeroPad: bool, sign: bool, plus: bool, space: bool, left: bool, special: bool, large: bool)

  const NO_FLAGS := Flags(false, false, false, false, false, false, false)

  // ---------- Digits ----------

  /** Entry d of the digit tables. */
  function DigitChar(d: nat, large: bool): char
    requires d < 36
  {
    if d < 10 then (d + 48) as char else if large then (d + 55) as char else (d + 87) as char
  }

  /** The digits of n, most significant first; one zero for zero. */
  function Digits(n: nat, base: nat, large: bool): (s: string)
    requires 2 <= base <= 36
    ensures |s| > 0
    decreases n
  {
    if n < base then [DigitChar(n, large)]
    else QuotientShrinks(n, base); Digits(n / base, base, large) + [DigitChar(n % base, large)]
  }

  lemma QuotientShrinks(n: nat, base: nat)
    requires 2 <= base <= n
    ensures 0 < n / base < n && 2 * (n / base) <= n && n % base < base
  {
    DivModSplit(n, base);
    QuotientBounds(n, base, n / base, n % base);
  }

  lemma QuotientBounds(n: nat, base: nat, q: nat, r: nat)
    requires 2 <= base <= n && n == q * base + r && r < base
    ensures 0 < q < n && 2 * q <= n
  {
    MulLe(2, base, q);
  }

  /** A 64-bit value never needs more than 64 digits, so they fit the 66 places set aside for them. */
  lemma {:induction false} DigitsFit(n: nat, base: nat, large: bool, bits: nat)
    requires 2 <= base <= 36 && n < Powers.Pow(2, bits) && bits > 0
    ensures |Digits(n, base, large)| <= bits
    decreases bits
  {
    if n >= base {
      QuotientShrinks(n, base);
      HalfIsBelow(n, base, bits);
      DigitsFit(n / base, base, large, bits - 1);
    }
  }

  lemma HalfIsBelow(n: nat, base: nat, bits: nat)
    requires 2 <= base <= n < Powers.Pow(2, bits) && bits > 0
    ensures n / base < Powers.Pow(2, bits - 1) && bits > 1
  {
    QuotientShrinks(n, base);
    Powers.PowStep(2, bits);
  }

  // ---------- Layout ----------

  function Repeat(c: char, n: int): (s: string)
    ensures |s| == if n > 0 then n else 0
    ensures forall k: nat :: k < |s| ==> s[k] == c
    decreases n
  {
    if n <= 0 then [] else Repeat(c, n - 1) + [c]
  }

  /** The sign character, if any. */
  function SignText(num: int, flags: Flags): (s: string)
    ensures |s| <= 1
  {
    if !flags.sign then ""
    else if num < 0 then "-"
    else if flags.plus then "+"
    else if flags.space then " "
    else ""
  }

  /** 0 for octal and 0x or 0X for hexadecimal, if asked for. */
  function PrefixText(base: nat, flags: Flags): (s: string)
    ensures |s| <= 2
  {
    if !flags.special then ""
    else if base == 8 then "0"
    else if base == 16 then if flags.large then "0X" else "0x"
    else ""
  }

  /** The value whose digits are printed: the absolute value, or the bits as an unsigned number. */
  function Magnitude(num: int, flags: Flags): (n: nat)
    requires -HALF <= num < HALF
    ensures n < WORD
  {
    if num >= 0 then num else if flags.sign then 0 - num else num + WORD
  }

  /** The padding that the field width leaves, negative if there is none. */
  function Padding(num: int, base: nat, size: int, precision: int, flags: Flags): int
    requires -HALF <= num < HALF && 2 <= base <= 36
  {
    size - |SignText(num, flags)| - |PrefixText(base, flags)| - Max(precision, |Digits(Magnitude(num, flags), base, flags.large)|)
  }

  /** Zeros up to the field width or the precision. */
  function Zeros(num: int, base: nat, size: int, precision: int, flags: Flags): (z: string)
    requires -HALF <= num < HALF && 2 <= base <= 36
    ensures forall k: nat :: k < |z| ==> z[k] == '0'
  {
    Repeat('0', if flags.zeroPad && !flags.left then Padding(num, base, size, precision, flags) else 0)
    + Repeat('0', precision - |Digits(Magnitude(num, flags), base, flags.large)|)
  }

  function Blanks(num: int, base: nat, size: int, precision: int, flags: Flags, wanted: bool): (b: string)
    requires -HALF <= num < HALF && 2 <= base <= 36
    ensures forall k: nat :: k < |b| ==> b[k] == ' '
  {
    Repeat(' ', if wanted then Padding(num, base, size, precision, flags) else 0)
  }

  /** What number() appends: blanks, sign, prefix, zeros, the digits, and blanks. */
  function Number(num: int, base: nat, size: int, precision: int, flags: Flags): string
    requires -HALF <= num < HALF
  {
    if base < 2 || base > 36 then ""
    else
      Blanks(num, base, size, precision, flags, !flags.left && !flags.zeroPad)
      + SignText(num, flags) + PrefixText(base, flags)
      + Zeros(num, base, size, precision, flags)
      + Digits(Magnitude(num, flags), base, flags.large)
      + Blanks(num, base, size, precision, flags, flags.left)
  }

  /** The field width is a minimum: padding fills up to it and nothing is cut off. */
  lemma NumberLength(num: int, base: nat, size: int, precision: int, flags: Flags)
    requires -HALF <= num < HALF && 2 <= base <= 36
    ensures |Number(num, base, size, precision, flags)| ==
            Max(size, |SignText(num, flags)| + |PrefixText(base, flags)| +
                      Max(precision, |Digits(Magnitude(num, flags), base, flags.large)|))
  {
    hide Digits;
  }

  // ---------- Parsing ----------

  function CharAt(s: string, i: nat): char { if i < |s| then s[i] else '\0' }

  predicate IsDigit(c: char) { '0' <= c <= '9' }
  predicate IsHexDigit(c: char) { IsDigit(c) || 'a' <= c <= 'f' || 'A' <= c <= 'F' }

  function DigitValue(c: char): (v: nat)
    ensures IsHexDigit(c) ==> v < 16
  {
    if IsDigit(c) then c as int - 48 else if 'A' <= c <= 'F' then c as int - 55 else if 'a' <= c then c as int - 87 else 0
  }

  predicate DigitIn(c: char, base: nat) { IsHexDigit(c) && DigitValue(c) < base }

  /** The value of a string of digits. */
  function ValueOf(s: string, base: nat): nat {
    if s == [] then 0 else ValueOf(s[..|s| - 1], base) * base + DigitValue(s[|s| - 1])
  }

  /** Where the digits that start at i end. */
  function DigitsEnd(s: string, i: nat, base: nat): (e: nat)
    requires i <= |s|
    ensures i <= e <= |s| && (e < |s| ==> !DigitIn(s[e], base))
    ensures forall k: nat :: i <= k < e ==> DigitIn(s[k], base)
    decreases |s| - i
  {
    if i < |s| && DigitIn(s[i], base) then DigitsEnd(s, i + 1, base) else i
  }

  /** The base that a prefix selects when none is given, and where the digits start. */
  function BaseOf(s: string, i: nat, base: nat): (r: (nat, nat))
    requires i <= |s|
    ensures i <= r.1 <= |s|
  {
    if base != 0 then (base, i)
    else if CharAt(s, i) != '0' then (10, i)
    else if CharAt(s, i + 1) == 'x' && IsHexDigit(CharAt(s, i + 2)) then (16, i + 2)
    else (8, i + 1)
  }

  lemma EndLater(s: string, i: nat, base: nat)
    requires i < |s| && DigitIn(s[i], base)
    ensures DigitsEnd(s, i, base) == DigitsEnd(s, i + 1, base)
  {
  }

  lemma EndHere(s: string, i: nat, base: nat)
    requires i <= |s| && (i < |s| ==> !DigitIn(s[i], base))
    ensures DigitsEnd(s, i, base) == i
  {
  }

  /** simple_strtoul: the value of the digits, modulo the word size. */
  function Strtoul(s: string, i: nat, base: nat): (r: nat)
    requires i <= |s|
    ensures r < WORD
  {
    var (b, j) := BaseOf(s, i, base);
    ValueOf(s[j..DigitsEnd(s, j, b)], b) % WORD
  }

  /** simple_strtol */
  function Strtol(s: string, base: nat): int {
    if CharAt(s, 0) == '-' then
      var u := Strtoul(s, 1, base);
      AsSigned(WORD, if u == 0 then 0 else WORD - u)
    else AsSigned(WORD, Strtoul(s, 0, base))
  }

  // ---------- Reading back what was printed ----------

  lemma DigitReadsBack(d: nat, base: nat, large: bool)
    requires d < base <= 16
    ensures DigitIn(DigitChar(d, large), base) && DigitValue(DigitChar(d, large)) == d
  {
  }

  ghost predicate AllDigits(s: string, base: nat) {
    forall k: nat :: k < |s| ==> DigitIn(s[k], base)
  }

  lemma ValueOfSnoc(s: string, c: char, base: nat)
    ensures ValueOf(s + [c], base) == ValueOf(s, base) * base + DigitValue(c)
  {
    assert (s + [c])[..|s|] == s;
  }

  /** The digits of n have the value n. */
  lemma {:induction false} DigitsReadBack(n: nat, base: nat, large: bool)
    requires 2 <= base <= 16
    ensures AllDigits(Digits(n, base, large), base) && ValueOf(Digits(n, base, large), base) == n
    decreases n
  {
    hide DigitIn, DigitValue, DigitChar, ValueOf;
    if n < base {
      DigitReadsBack(n, base, large);
      ValueOfSnoc([], DigitChar(n, large), base);
      assert [] + [DigitChar(n, large)] == Digits(n, base, large);
      ValueOfNothing(base);
    } else {
      QuotientShrinks(n, base);
      DivModSplit(n, base);
      DigitsReadBack(n / base, base, large);
      DigitReadsBack(n % base, base, large);
      ValueOfSnoc(Digits(n / base, base, large), DigitChar(n % base, large), base);
    }
  }

  lemma ValueOfNothing(base: nat)
    ensures ValueOf([], base) == 0
  {
  }

  /** Leading zeros do not count. */
  lemma {:induction false} LeadingZeros(z: string, d: string, base: nat)
    requires forall k: nat :: k < |z| ==> z[k] == '0'
    ensures ValueOf(z + d, base) == ValueOf(d, base)
    decreases |d|, |z|
  {
    if d == [] {
      assert z + d == z;
      if z != [] {
        var shorter := z[..|z| - 1];
        assert shorter + [] == shorter;
        LeadingZeros(shorter, [], base);
      }
    } else {
      LeadingZeros(z, d[..|d| - 1], base);
      assert (z + d)[..|z + d| - 1] == z + d[..|d| - 1];
    }
  }

  lemma {:induction false} DigitsEndIs(s: string, i: nat, e: nat, base: nat)
    requires i <= e <= |s| && (e < |s| ==> !DigitIn(s[e], base))
    requires forall k: nat :: i <= k < e ==> DigitIn(s[k], base)
    ensures DigitsEnd(s, i, base) == e
    decreases e - i
  {
    hide DigitIn;
    if i < e {
      DigitsEndIs(s, i + 1, e, base);
    }
  }

  /** Zeros and digits after a head are read up to the blanks that follow them. */
  lemma ReadsDigits(head: string, zeros: string, digits: string, tail: string, base: nat)
    requires 2 <= base <= 16 && AllDigits(digits, base)
    requires forall k: nat :: k < |zeros| ==> zeros[k] == '0'
    requires forall k: nat :: k < |tail| ==> tail[k] == ' '
    ensures Strtoul(head + (zeros + digits) + tail, |head|, base) == ValueOf(digits, base) % WORD
  {
    hide ValueOf, DigitsEnd;
    var s := head + (zeros + digits) + tail;
    var e := |head| + |zeros + digits|;
    forall k: nat | |head| <= k < e
      ensures DigitIn(s[k], base)
    {
      assert s[k] == (zeros + digits)[k - |head|];
    }
    assert e < |s| ==> s[e] == ' ';
    DigitsEndIs(s, |head|, e, base);
    assert s[|head|..e] == zeros + digits;
    LeadingZeros(zeros, digits, base);
  }

  /** The number is printed after blanks, a plus sign or a hexadecimal prefix. */
  predicate Disguised(num: int, base: nat, size: int, precision: int, flags: Flags)
    requires -HALF <= num < HALF && 2 <= base <= 16
  {
    || (flags.special && base == 16)
    || (num >= 0 && (flags.plus || flags.space))
    || (!flags.left && !flags.zeroPad && Padding(num, base, size, precision, flags) > 0)
  }

  lemma PlainShape(num: int, base: nat, size: int, precision: int, flags: Flags)
    requires -HALF <= num < HALF && 2 <= base <= 16 && !Disguised(num, base, size, precision, flags)
    ensures Number(num, base, size, precision, flags) ==
            SignText(num, flags)
            + ((PrefixText(base, flags) + Zeros(num, base, size, precision, flags)) + Digits(Magnitude(num, flags), base, flags.large))
            + Blanks(num, base, size, precision, flags, flags.left)
    ensures PrefixText(base, flags) == "" || PrefixText(base, flags) == "0"
  {
    hide Digits, Zeros;
    assert Blanks(num, base, size, precision, flags, !flags.left && !flags.zeroPad) == "";
  }

  /** A hexadecimal prefix is read as a zero, and anything else before the digits as nothing. */
  lemma ReadsNothing(s: string, i: nat, base: nat)
    requires i <= |s| && 2 <= base <= 16
    requires i < |s| ==> !DigitIn(s[i], base) || (s[i] == '0' && i + 1 < |s| && !IsHexDigit(s[i + 1]))
    ensures Strtoul(s, i, base) == 0
  {
    hide ValueOf;
    if i < |s| && s[i] == '0' {
      DigitsEndIs(s, i, i + 1, base);
      assert s[i..i + 1] == [] + ['0'];
      ValueOfSnoc([], '0', base);
    } else {
      assert s[i..i] == [];
    }
    ValueOfNothing(base);
  }

  lemma DisguiseShape(num: int, base: nat, size: int, precision: int, flags: Flags)
    requires -HALF <= num < HALF && 2 <= base <= 16 && flags.sign && Disguised(num, base, size, precision, flags)
    ensures var s := Number(num, base, size, precision, flags);
      && |s| >= 2
      && (|| s[0] == ' ' || s[0] == '+' || (s[0] == '0' && s[1] in "xX")
          || (|s| > 2 && s[0] == '-' && s[1] == '0' && s[2] in "xX"))
  {
    hide Digits, Zeros;
  }

  lemma DisguiseReadsAsZero(num: int, base: nat, size: int, precision: int, flags: Flags)
    requires -HALF <= num < HALF && 2 <= base <= 16 && flags.sign && Disguised(num, base, size, precision, flags)
    ensures Strtol(Number(num, base, size, precision, flags), base) == 0
  {
    hide Number, Strtoul, Disguised;
    var s := Number(num, base, size, precision, flags);
    DisguiseShape(num, base, size, precision, flags);
    ReadsNothing(s, if s[0] == '-' then 1 else 0, base);
  }

  lemma PlainReadsBack(num: int, base: nat, size: int, precision: int, flags: Flags)
    requires -HALF <= num < HALF && 2 <= base <= 16 && flags.sign && !Disguised(num, base, size, precision, flags)
    ensures Strtol(Number(num, base, size, precision, flags), base) == num
  {
    hide Digits, Zeros, Number, Blanks, Strtoul, ValueOf, AllDigits;
    PlainShape(num, base, size, precision, flags);
    SignShows(num, base, size, precision, flags);
    hide Disguised, PrefixText, SignText;
    var sign, zeros, digits := SignText(num, flags), PrefixText(base, flags) + Zeros(num, base, size, precision, flags),
                               Digits(Magnitude(num, flags), base, flags.large);
    DigitsReadBack(Magnitude(num, flags), base, flags.large);
    ReadsDigits(sign, zeros, digits, Blanks(num, base, size, precision, flags, flags.left), base);
    FirstIsDigit(zeros, digits, base);
    StartsWith(sign, zeros + digits, Blanks(num, base, size, precision, flags, flags.left));
  }

  lemma SignShows(num: int, base: nat, size: int, precision: int, flags: Flags)
    requires -HALF <= num < HALF && 2 <= base <= 16 && flags.sign && !Disguised(num, base, size, precision, flags)
    ensures SignText(num, flags) == if num < 0 then "-" else ""
  {
    hide Number;
  }

  lemma StartsWith(sign: string, body: string, tail: string)
    requires |sign| <= 1 && |body| > 0
    ensures CharAt(sign + body + tail, 0) == if sign == "" then body[0] else sign[0]
  {
  }

  /**
   * Reading a printed number gives the number back unless something is printed in front of it, which
   * reads as zero.
   */
  lemma NumberReadsBack(num: int, base: nat, size: int, precision: int, flags: Flags)
    requires -HALF <= num < HALF && 2 <= base <= 16 && flags.sign
    ensures Strtol(Number(num, base, size, precision, flags), base) ==
            if Disguised(num, base, size, precision, flags) then 0 else num
    ensures Strtol(Number(num, base, size, precision, flags), base) == num <==>
            num == 0 || !Disguised(num, base, size, precision, flags)
  {
    hide Number, Strtol, Disguised;
    if Disguised(num, base, size, precision, flags) {
      DisguiseReadsAsZero(num, base, size, precision, flags);
    } else {
      PlainReadsBack(num, base, size, precision, flags);
    }
  }

  lemma FirstIsDigit(zeros: string, digits: string, base: nat)
    requires |digits| > 0 && AllDigits(digits, base) && forall k: nat :: k < |zeros| ==> zeros[k] == '0'
    ensures (zeros + digits)[0] != '-'
  {
    assert zeros == [] ==> (zeros + digits)[0] == digits[0];
    assert DigitIn(digits[0], base);
  }

  // ---------- The parser's loop ----------

  lemma ModAddMultiple(y: nat, k: nat, w: nat)
    requires w > 0
    ensures (y + k * w) % w == y % w
  {
    DivModSplit(y, w);
    MulDist(y / w, k, w);
    DivModUnique(y + k * w, w, y / w + k, y % w);
  }

  /** Reducing before the next digit or after it is the same. */
  lemma ModStep(x: nat, w: nat, base: nat, v: nat)
    requires w > 0
    ensures ((x % w) * base + v) % w == (x * base + v) % w
  {
    DivModSplit(x, w);
    var q, r := x / w, x % w;
    MulDist(q * w, r, base);
    MulAssoc(q, w, base);
    MulAssoc(q, base, w);
    assert x * base + v == (r * base + v) + (q * base) * w;
    ModAddMultiple(r * base + v, q * base, w);
  }

  lemma NextDigit(s: string, j: nat, cp: nat, base: nat)
    requires j <= cp < |s|
    ensures ValueOf(s[j..cp + 1], base) == ValueOf(s[j..cp], base) * base + DigitValue(s[cp])
  {
    assert s[j..cp + 1] == s[j..cp] + [s[cp]];
    ValueOfSnoc(s[j..cp], s[cp], base);
  }

  /** simple_strtoul on the characters from `start` on; also where it stops. */
  method ParseUnsigned(s: string, start: nat, base: nat) returns (result: nat, end: nat)
    requires start <= |s|
    ensures result == Strtoul(s, start, base)
    ensures end == DigitsEnd(s, BaseOf(s, start, base).1, BaseOf(s, start, base).0)
  {
    hide ValueOf, DigitIn, DigitValue, DigitsEnd;
    var b, cp := base, start;
    if b == 0 {
      b := 10;
      if CharAt(s, cp) == '0' {
        b := 8;
        cp := cp + 1;
        if CharAt(s, cp) == 'x' && IsHexDigit(CharAt(s, cp + 1)) {
          cp := cp + 1;
          b := 16;
        }
      }
    }
    ghost var j := cp;
    result := 0;
    assert s[j..j] == [];
    ValueOfNothing(b);
    while cp < |s| && DigitIn(s[cp], b)
      invariant j <= cp <= |s| && result == ValueOf(s[j..cp], b) % WORD
      invariant DigitsEnd(s, cp, b) == DigitsEnd(s, j, b)
    {
      EndLater(s, cp, b);
      NextDigit(s, j, cp, b);
      ModStep(ValueOf(s[j..cp], b), WORD, b, DigitValue(s[cp]));
      result := (result * b + DigitValue(s[cp])) % WORD;
      cp := cp + 1;
    }
    EndHere(s, cp, b);
    end := cp;
  }

  /** simple_strtol */
  method ParseSigned(s: string, base: nat) returns (result: int)
    ensures result == Strtol(s, base)
  {
    hide Strtoul;
    var u, e;
    if CharAt(s, 0) == '-' {
      u, e := ParseUnsigned(s, 1, base);
      result := AsSigned(WORD, (WORD - u) % WORD);
    } else {
      u, e := ParseUnsigned(s, 0, base);
      result := AsSigned(WORD, u);
    }
  }
}
