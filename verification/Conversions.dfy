/**
  What the conversions of lib/printf.c print, said of the text: which characters appear, in which
  order, and what value a reader of the digits finds. Each holds anywhere in a format.
  */
module Conversions {
  import opened Arithmetic
  import opened Common
  import opened NumberText
  import opened Printf

  ghost predicate SpecOk(flags: Flags, width: int, precision: int, qualifier: char) {
    && !flags.sign && !flags.large && (width == -1 || width > 0) && precision >= -1 && (qualifier == '\0' || Qualifier(qualifier))
  }

  /** A format in which a conversion with all its options stands after `a`. */
  function With(a: string, spec: string, c: char, rest: string): string { a + ['%'] + spec + ([c] + rest) }

  predicate Printing(c: char) { c == 'o' || c == 'x' || c == 'X' || c == 'd' || c == 'i' || c == 'u' || c == 's' || c == 'c' || c == 'p' }

  /** The text from there on is that of the conversion and then that of the rest, with the next argument. */
  lemma ConversionThenRest(a: string, flags: Flags, width: int, precision: int, qualifier: char, c: char, rest: string, args: nat -> Arg, k: nat)
    requires SpecOk(flags, width, precision, qualifier) && Printing(c)
    ensures var spec := SpecText(flags, width, precision, qualifier);
      var fmt := With(a, spec, c, rest);
      var sp := Spec(flags, width, precision, qualifier, |a| + 1 + |spec|, k);
      && sp.next + 1 <= |fmt| && CharAt(fmt, sp.next) == c
      && Format(fmt, |a|, args, k) == Converted(fmt, sp, args) + Format(fmt, |a| + |spec| + 2, args, k + 1)
  {
    hide Converted, SpecText, ScanSpec;
    var spec := SpecText(flags, width, precision, qualifier);
    var fmt := With(a, spec, c, rest);
    SpecReadsBack(a + ['%'], flags, width, precision, qualifier, [c] + rest, args, k);
    assert CharAt([c] + rest, 0) == c;
    assert fmt[|a|] == '%';
    assert fmt[|a| + 1 + |spec|] == c;
  }

  // ---------- Numbers ----------

  /** How many values the argument can have: it is read as 16, 32 or 64 bits. */
  function Values(qualifier: char): nat {
    if qualifier == 'h' then 0x1_0000 else if qualifier == '\0' then 0x1_0000_0000 else WORD
  }

  /** The argument as the conversion shows it. */
  function ShownValue(word: nat, qualifier: char, c: char): int {
    if c == 'd' || c == 'i' then AsSigned(Values(qualifier), word % Values(qualifier)) else word % Values(qualifier)
  }

  /** What may stand before the digits: the sign of a signed conversion and, with #, the sign of the base. */
  function Lead(flags: Flags, value: int, c: char): string {
    (if value < 0 then "-" else if c != 'd' && c != 'i' then "" else if flags.plus then "+" else if flags.space then " " else "")
    + (if !flags.special then "" else if c == 'o' then "0" else if c == 'x' then "0x" else if c == 'X' then "0X" else "")
  }

  predicate DigitOf(x: char, c: char) {
    || ('0' <= x <= '9' && (c == 'o' ==> x <= '7'))
    || (c == 'x' && 'a' <= x <= 'f')
    || (c == 'X' && 'A' <= x <= 'F')
  }

  /**
    t is the text of a number: blanks, sign and prefix, zeros and digits from `start` to `end`, blanks.
    Reading the digits gives the absolute value.
    */
  ghost predicate ShowsNumber(t: string, blanks: nat, start: nat, end: nat, flags: Flags, width: int, precision: int, value: int, c: char) {
    && blanks <= start < end <= |t|
    && (forall j: nat :: j < blanks ==> t[j] == ' ')
    && t[blanks..start] == Lead(flags, value, c)
    && (forall j: nat :: start <= j < end ==> DigitOf(t[j], c))
    && (forall j: nat :: end <= j < |t| ==> t[j] == ' ')
    && (c == 'o' ==> Strtoul(t, start, 8) == Abs(value))
    && (c == 'x' || c == 'X' ==> Strtoul(t, start, 16) == Abs(value))
    && (c == 'd' || c == 'i' || c == 'u' ==> Strtoul(t, start, 10) == Abs(value))
    && |t| >= width && end - start >= precision
    && (flags.left || flags.zeroPad ==> blanks == 0) && (!flags.left ==> end == |t|)
    && (blanks > 0 || end < |t| ==> |t| == width)
  }

  function Abs(v: int): nat { if v < 0 then 0 - v else v }

  /** The parts of a number, and what its digits read as. */
  lemma NumberPieces(num: int, base: nat, width: int, precision: int, flags: Flags)
    requires -HALF <= num < HALF && 2 <= base <= 16
    ensures var t := Number(num, base, width, precision, flags);
      var head := Blanks(num, base, width, precision, flags, !flags.left && !flags.zeroPad) + SignText(num, flags) + PrefixText(base, flags);
      var body := Zeros(num, base, width, precision, flags) + Digits(Magnitude(num, flags), base, flags.large);
      && t == head + body + Blanks(num, base, width, precision, flags, flags.left)
      && Strtoul(t, |head|, base) == Magnitude(num, flags)
  {
    hide Digits, Zeros, Blanks, SignText, PrefixText, Strtoul, ValueOf, AllDigits, Magnitude;
    var digits := Digits(Magnitude(num, flags), base, flags.large);
    DigitsReadBack(Magnitude(num, flags), base, flags.large);
    var head := Blanks(num, base, width, precision, flags, !flags.left && !flags.zeroPad) + SignText(num, flags) + PrefixText(base, flags);
    ReadsDigits(head, Zeros(num, base, width, precision, flags), digits, Blanks(num, base, width, precision, flags, flags.left), base);
    assert Number(num, base, width, precision, flags)
        == head + (Zeros(num, base, width, precision, flags) + digits) + Blanks(num, base, width, precision, flags, flags.left);
  }

  /** The digits of a number are those of its conversion. */
  lemma {:induction false} DigitsAreOf(n: nat, base: nat, c: char, large: bool)
    requires base == (if c == 'o' then 8 else if c == 'x' || c == 'X' then 16 else 10) && (large <==> c == 'X')
    ensures forall j: nat :: j < |Digits(n, base, large)| ==> DigitOf(Digits(n, base, large)[j], c)
    decreases n
  {
    if n >= base {
      QuotientShrinks(n, base);
      DigitsAreOf(n / base, base, c, large);
    }
  }

  lemma Lengths(num: int, base: nat, width: int, precision: int, flags: Flags)
    requires -HALF <= num < HALF && 2 <= base <= 16
    ensures var t := Number(num, base, width, precision, flags);
      var b1, b2 := Blanks(num, base, width, precision, flags, !flags.left && !flags.zeroPad), Blanks(num, base, width, precision, flags, flags.left);
      && |t| >= width && |Zeros(num, base, width, precision, flags) + Digits(Magnitude(num, flags), base, flags.large)| >= precision
      && (|b1| > 0 || |b2| > 0 ==> |t| == width) && (flags.left || flags.zeroPad ==> b1 == "") && (!flags.left ==> b2 == "")
  {
    hide Digits, SignText, PrefixText, Magnitude, Number;
    NumberLength(num, base, width, precision, flags);
  }

  /** A number laid out for conversion c, with the flags that c adds, shows `value`. */
  lemma NumberShows(num: int, base: nat, width: int, precision: int, flags: Flags, value: int, c: char) returns (blanks: nat, start: nat, end: nat)
    requires -HALF <= num < HALF && Printing(c) && c != 's' && c != 'c' && c != 'p' && !flags.sign && !flags.large
    requires base == if c == 'o' then 8 else if c == 'x' || c == 'X' then 16 else 10
    requires Magnitude(num, flags.(large := c == 'X', sign := c == 'd' || c == 'i')) == Abs(value)
    requires if c == 'd' || c == 'i' then num == value else value >= 0
    ensures ShowsNumber(Number(num, base, width, precision, flags.(large := c == 'X', sign := c == 'd' || c == 'i')), blanks, start, end,
                        flags, width, precision, value, c)
  {
    hide Number, Digits, Zeros, Blanks, SignText, PrefixText, Strtoul, Magnitude, Lead, DigitOf, ShowsNumber;
    var f := flags.(large := c == 'X', sign := c == 'd' || c == 'i');
    NumberPieces(num, base, width, precision, f);
    Lengths(num, base, width, precision, f);
    DigitsAreOf(Magnitude(num, f), base, c, f.large);
    LeadIs(num, base, flags, value, c);
    var b1, b2 := Blanks(num, base, width, precision, f, !f.left && !f.zeroPad), Blanks(num, base, width, precision, f, f.left);
    var zeros, digits := Zeros(num, base, width, precision, f), Digits(Magnitude(num, f), base, f.large);
    Regroup(b1, SignText(num, f), PrefixText(base, f));
    blanks, start, end := Assembled(Number(num, base, width, precision, f), b1, zeros, digits, b2, base, flags, width, precision, value, c);
  }

  lemma Assembled(t: string, b1: string, zeros: string, digits: string, b2: string, base: nat, flags: Flags, width: int, precision: int,
                  value: int, c: char) returns (blanks: nat, start: nat, end: nat)
    requires t == (b1 + Lead(flags, value, c)) + (zeros + digits) + b2 && digits != ""
    requires (forall j: nat :: j < |b1| ==> b1[j] == ' ') && (forall j: nat :: j < |b2| ==> b2[j] == ' ')
    requires (forall j: nat :: j < |zeros| ==> zeros[j] == '0') && (forall j: nat :: j < |digits| ==> DigitOf(digits[j], c))
    requires base == if c == 'o' then 8 else if c == 'x' || c == 'X' then 16 else 10
    requires Strtoul(t, |b1 + Lead(flags, value, c)|, base) == Abs(value)
    requires |t| >= width && |zeros + digits| >= precision && (|b1| > 0 || |b2| > 0 ==> |t| == width)
    requires (flags.left || flags.zeroPad ==> b1 == "") && (!flags.left ==> b2 == "")
    ensures ShowsNumber(t, blanks, start, end, flags, width, precision, value, c)
  {
    hide Strtoul, Lead, DigitOf;
    Layout(t, b1, Lead(flags, value, c), zeros, digits, b2, c);
    blanks, start := |b1|, |b1 + Lead(flags, value, c)|;
    end := start + |zeros + digits|;
  }

  lemma LeadIs(num: int, base: nat, flags: Flags, value: int, c: char)
    requires Printing(c) && c != 's' && c != 'c' && c != 'p' && !flags.sign && !flags.large
    requires base == if c == 'o' then 8 else if c == 'x' || c == 'X' then 16 else 10
    requires if c == 'd' || c == 'i' then num == value else value >= 0
    ensures var f := flags.(large := c == 'X', sign := c == 'd' || c == 'i'); SignText(num, f) + PrefixText(base, f) == Lead(flags, value, c)
  {
  }

  /** Where the parts of a text lie. */
  lemma Layout(t: string, b1: string, lead: string, zeros: string, digits: string, b2: string, c: char)
    requires t == (b1 + lead) + (zeros + digits) + b2
    requires (forall j: nat :: j < |b1| ==> b1[j] == ' ') && (forall j: nat :: j < |b2| ==> b2[j] == ' ')
    requires (forall j: nat :: j < |zeros| ==> zeros[j] == '0') && (forall j: nat :: j < |digits| ==> DigitOf(digits[j], c))
    ensures var start, end := |b1 + lead|, |b1 + lead| + |zeros + digits|;
      && |t| == end + |b2| && (forall j: nat :: j < |b1| ==> t[j] == ' ') && t[|b1|..start] == lead
      && (forall j: nat :: start <= j < end ==> DigitOf(t[j], c)) && (forall j: nat :: end <= j < |t| ==> t[j] == ' ')
  {
    var start, end := |b1 + lead|, |b1 + lead| + |zeros + digits|;
    forall j: nat | start <= j < end
      ensures DigitOf(t[j], c)
    {
      assert t[j] == (zeros + digits)[j - start];
    }
    forall j: nat | end <= j < |t|
      ensures t[j] == ' '
    {
      assert t[j] == b2[j - end];
    }
  }

  lemma ArgumentShows(word: nat, qualifier: char, c: char, flags: Flags)
    requires qualifier == '\0' || Qualifier(qualifier)
    ensures var num, value := ValueOfArg(word, qualifier, c in "di"), ShownValue(word, qualifier, c);
      && Magnitude(num, flags.(large := c == 'X', sign := c in "di")) == Abs(value)
      && if c in "di" then num == value else value >= 0
  {
    assert c in "di" <==> c == 'd' || c == 'i';
    assert qualifier in "LlZ" <==> qualifier == 'L' || qualifier == 'l' || qualifier == 'Z';
  }

  /** %d, %i, %u, %o, %x and %X with any flags, width, precision and qualifier, anywhere in a format. */
  lemma NumberConversion(a: string, flags: Flags, width: int, precision: int, qualifier: char, c: char, rest: string, args: nat -> Arg, k: nat)
    returns (t: string, blanks: nat, start: nat, end: nat)
    requires SpecOk(flags, width, precision, qualifier) && Printing(c) && c != 's' && c != 'c' && c != 'p'
    ensures var spec := SpecText(flags, width, precision, qualifier);
      var fmt := With(a, spec, c, rest);
      |a| + |spec| + 2 <= |fmt| && Format(fmt, |a|, args, k) == t + Format(fmt, |a| + |spec| + 2, args, k + 1)
    ensures ShowsNumber(t, blanks, start, end, flags, width, precision, ShownValue(args(k).word, qualifier, c), c)
  {
    hide Format, SpecText, ShowsNumber, Number, ValueOfArg, ShownValue, Magnitude;
    ConversionThenRest(a, flags, width, precision, qualifier, c, rest, args, k);
    ArgumentShows(args(k).word, qualifier, c, flags);
    assert c in "di" <==> c == 'd' || c == 'i';
    assert c in "xX" <==> c == 'x' || c == 'X';
    assert c in "oxXdiu";
    var num := ValueOfArg(args(k).word, qualifier, c in "di");
    t := Number(num, BaseFor(c), width, precision, flags.(large := c == 'X', sign := c in "di"));
    blanks, start, end := NumberShows(num, BaseFor(c), width, precision, flags, ShownValue(args(k).word, qualifier, c), c);
  }

  /** %p shows the word in hexadecimal, in 16 places with zeros if no width is given. */
  lemma PointerConversion(a: string, flags: Flags, width: int, precision: int, qualifier: char, rest: string, args: nat -> Arg, k: nat)
    returns (t: string, blanks: nat, start: nat, end: nat)
    requires SpecOk(flags, width, precision, qualifier)
    ensures var spec := SpecText(flags, width, precision, qualifier);
      var fmt := With(a, spec, 'p', rest);
      |a| + |spec| + 2 <= |fmt| && Format(fmt, |a|, args, k) == t + Format(fmt, |a| + |spec| + 2, args, k + 1)
    ensures ShowsNumber(t, blanks, start, end, if width == -1 then flags.(zeroPad := true) else flags,
                        if width == -1 then 16 else width, precision, args(k).word % WORD, 'x')
  {
    hide Format, SpecText, ShowsNumber, Number;
    ConversionThenRest(a, flags, width, precision, qualifier, 'p', rest, args, k);
    var num, f, w := AsSigned(WORD, args(k).word % WORD), if width == -1 then flags.(zeroPad := true) else flags, if width == -1 then 16 else width;
    t := Number(num, 16, w, precision, f);
    blanks, start, end := NumberShows(num, 16, w, precision, f, args(k).word % WORD, 'x');
  }

  // ---------- Characters and strings ----------

  /** t is `body` in a field of at least `width` places: blanks before it, or after it if it is to stand left. */
  ghost predicate ShowsField(t: string, body: string, width: int, left: bool) {
    && |t| == Max(width, |body|)
    && (left ==> t[..|body|] == body && forall j: nat :: |body| <= j < |t| ==> t[j] == ' ')
    && (!left ==> t[|t| - |body|..] == body && forall j: nat :: j < |t| - |body| ==> t[j] == ' ')
  }

  lemma FieldShows(body: string, width: int, left: bool)
    ensures ShowsField(Field(body, width, left), body, width, left)
  {
    var t, blanks := Field(body, width, left), Repeat(' ', width - |body|);
    if left {
      assert t[..|body|] == body;
    } else {
      assert t[|t| - |body|..] == body;
    }
  }

  lemma {:induction false} ShownIs(s: string, limit: int)
    requires limit >= -1
    ensures var n := |Shown(s, limit)|;
      && n <= |s| && Shown(s, limit) == s[..n] && (forall j: nat :: j < n ==> s[j] != '\0')
      && (limit >= 0 ==> n <= limit) && (n == |s| || s[n] == '\0' || n == limit)
    decreases s
  {
    if !(s == "" || s[0] == '\0' || limit == 0) {
      if limit > 0 {
        ShownIs(s[1..], limit - 1);
      } else {
        ShownAll(s, limit);
      }
      var n := |Shown(s, limit)|;
      assert s[..n] == [s[0]] + s[1..][..n - 1];
    }
  }

  lemma {:induction false} ShownAll(s: string, limit: int)
    requires limit < 0
    ensures var n := |Shown(s, limit)|;
      n <= |s| && Shown(s, limit) == s[..n] && (forall j: nat :: j < n ==> s[j] != '\0') && (n == |s| || s[n] == '\0')
    decreases s
  {
    if s != "" && s[0] != '\0' {
      ShownAll(s[1..], limit - 1);
      var n := |Shown(s, limit)|;
      assert s[..n] == [s[0]] + s[1..][..n - 1];
    }
  }

  /**
    %s shows the characters of its string up to the first null character or the precision, whichever
    comes first, and <NULL> for a null pointer.
    */
  lemma StringConversion(a: string, flags: Flags, width: int, precision: int, qualifier: char, rest: string, args: nat -> Arg, k: nat)
    returns (t: string, n: nat)
    requires SpecOk(flags, width, precision, qualifier)
    ensures var spec := SpecText(flags, width, precision, qualifier);
      var fmt := With(a, spec, 's', rest);
      |a| + |spec| + 2 <= |fmt| && Format(fmt, |a|, args, k) == t + Format(fmt, |a| + |spec| + 2, args, k + 1)
    ensures var s := if args(k).text.Null? then "<NULL>" else args(k).text.chars;
      && n <= |s| && (forall j: nat :: j < n ==> s[j] != '\0') && (precision >= 0 ==> n <= precision)
      && (n == |s| || s[n] == '\0' || n == precision)
      && ShowsField(t, s[..n], width, flags.left)
  {
    hide Format, SpecText, ShowsField, Field, Shown;
    ConversionThenRest(a, flags, width, precision, qualifier, 's', rest, args, k);
    var s := if args(k).text.Null? then "<NULL>" else args(k).text.chars;
    ShownIs(s, precision);
    n := |Shown(s, precision)|;
    t := Field(Shown(s, precision), width, flags.left);
    FieldShows(s[..n], width, flags.left);
  }

  /** %c shows the low byte of its argument. */
  lemma CharConversion(a: string, flags: Flags, width: int, precision: int, qualifier: char, rest: string, args: nat -> Arg, k: nat) returns (t: string)
    requires SpecOk(flags, width, precision, qualifier)
    ensures var spec := SpecText(flags, width, precision, qualifier);
      var fmt := With(a, spec, 'c', rest);
      |a| + |spec| + 2 <= |fmt| && Format(fmt, |a|, args, k) == t + Format(fmt, |a| + |spec| + 2, args, k + 1)
    ensures ShowsField(t, [(args(k).word % 256) as char], width, flags.left)
  {
    hide Format, SpecText, ShowsField, Field;
    ConversionThenRest(a, flags, width, precision, qualifier, 'c', rest, args, k);
    t := Field([(args(k).word % 256) as char], width, flags.left);
    FieldShows([(args(k).word % 256) as char], width, flags.left);
  }

  // ---------- Everything else in a format ----------

  /** Text without percent signs is copied. */
  lemma {:induction false} LiteralText(fmt: string, i: nat, j: nat, args: nat -> Arg, k: nat)
    requires i <= j <= |fmt| && forall x: nat :: i <= x < j ==> fmt[x] != '%' && fmt[x] != '\0'
    ensures Format(fmt, i, args, k) == fmt[i..j] + Format(fmt, j, args, k)
    decreases j - i
  {
    hide ScanSpec, Converted;
    if i < j {
      LiteralText(fmt, i + 1, j, args, k);
      assert fmt[i..j] == [fmt[i]] + fmt[i + 1..j];
    }
  }

  /** Two percent signs print one and take no argument. */
  lemma PercentSign(a: string, rest: string, args: nat -> Arg, k: nat)
    ensures var fmt := a + "%%" + rest;
      Format(fmt, |a|, args, k) == "%" + Format(fmt, |a| + 2, args, k)
  {
    hide ScanSpec;
    var fmt := a + "%%" + rest;
    NoSpecText('\0');
    SpecReadsBack(a + ['%'], NO_FLAGS, -1, -1, '\0', ['%'] + rest, args, k);
    assert CharAt(['%'] + rest, 0) == '%';
    assert a + ['%'] + "" + (['%'] + rest) == fmt;
    assert fmt[|a|] == '%' && fmt[|a| + 1] == '%';
  }

  lemma NoSpecText(qualifier: char)
    ensures SpecText(NO_FLAGS, -1, -1, qualifier) == if qualifier == '\0' then "" else [qualifier]
  {
    assert FlagText(NO_FLAGS, 5) == "";
    assert FlagText(NO_FLAGS, 4) == "";
    assert FlagText(NO_FLAGS, 3) == "";
    assert FlagText(NO_FLAGS, 2) == "";
    assert FlagText(NO_FLAGS, 1) == "";
    assert FlagText(NO_FLAGS, 0) == "";
  }

  // ---------- Reading back ----------

  /** A format that is nothing but one conversion. */
  function Plain(qualifier: char, c: char): string { ['%'] + (if qualifier == '\0' then "" else [qualifier]) + [c] }

  lemma PlainText(qualifier: char, c: char, args: nat -> Arg) returns (start: nat, end: nat)
    requires (qualifier == '\0' || Qualifier(qualifier)) && Printing(c) && c != 's' && c != 'c' && c != 'p'
    ensures ShowsNumber(Format(Plain(qualifier, c), 0, args, 0), 0, start, end, NO_FLAGS, -1, -1, ShownValue(args(0).word, qualifier, c), c)
  {
    hide Format, ShownValue, SpecText;
    NoSpecText(qualifier);
    var spec := SpecText(NO_FLAGS, -1, -1, qualifier);
    var t, blanks;
    t, blanks, start, end := NumberConversion("", NO_FLAGS, -1, -1, qualifier, c, "", args, 0);
    assert With("", spec, c, "") == Plain(qualifier, c);
    FormatEnds(Plain(qualifier, c), args, 1);
    assert t + "" == t;
  }

  lemma FormatEnds(fmt: string, args: nat -> Arg, k: nat)
    ensures Format(fmt, |fmt|, args, k) == ""
  {
  }

  /** Every word printed without a sign and read in the base of its conversion is the word, cut to what the qualifier says. */
  lemma UnsignedReadsBack(qualifier: char, args: nat -> Arg)
    requires qualifier == '\0' || Qualifier(qualifier)
    ensures Strtoul(Format(Plain(qualifier, 'x'), 0, args, 0), 0, 16) == args(0).word % Values(qualifier)
    ensures Strtoul(Format(Plain(qualifier, 'X'), 0, args, 0), 0, 16) == args(0).word % Values(qualifier)
    ensures Strtoul(Format(Plain(qualifier, 'o'), 0, args, 0), 0, 8) == args(0).word % Values(qualifier)
    ensures Strtoul(Format(Plain(qualifier, 'u'), 0, args, 0), 0, 10) == args(0).word % Values(qualifier)
  {
    hide Format, Strtoul, Plain;
    var s1, e1 := PlainText(qualifier, 'x', args);
    var s2, e2 := PlainText(qualifier, 'X', args);
    var s3, e3 := PlainText(qualifier, 'o', args);
    var s4, e4 := PlainText(qualifier, 'u', args);
  }

  /** Every word printed with %d or %i, and the same qualifier, is read back as the signed number it is. */
  lemma SignedReadsBack(qualifier: char, c: char, args: nat -> Arg)
    requires (qualifier == '\0' || Qualifier(qualifier)) && (c == 'd' || c == 'i')
    ensures Strtol(Format(Plain(qualifier, c), 0, args, 0), 10) == AsSigned(Values(qualifier), args(0).word % Values(qualifier))
  {
    hide Format, Strtoul, Plain;
    var start, end := PlainText(qualifier, c, args);
    var t := Format(Plain(qualifier, c), 0, args, 0);
    assert start == |t[0..start]|;
    assert start > 0 ==> t[0] == t[0..start][0];
    assert DigitOf(t[start], c);
  }
}
