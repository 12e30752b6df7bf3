/** Formatted output into a bounded buffer, against the text that an unbounded one would receive. */
module Printf {
  import opened Arithmetic
  import opened Common
  import opened NumberText
  import Powers = Digits

  // ---------- The unbounded text ----------

  datatype Text = Null | Text(chars: string)

  /** One variable argument: as a word, or as a string if it is read as one. */
  datatype Arg = Arg(word: nat, text: Text)

  /** An argument read as an int: its low 32 bits, signed. */
  function IntOf(word: nat): int { AsSigned(0x1_0000_0000, word % 0x1_0000_0000) }

  /** The value that a conversion takes from its argument. */
  function ValueOfArg(word: nat, qualifier: char, signed: bool): (v: int)
    ensures -HALF <= v < HALF
  {
    if qualifier in "LlZ" then AsSigned(WORD, word % WORD)
    else if qualifier == 'h' then
      var x := word % 0x1_0000;
      if signed then AsSigned(0x1_0000, x) else x
    else if signed then IntOf(word) else word % 0x1_0000_0000
  }

  /** The length of a string up to a limit, if there is one. */
  function Shown(s: string, limit: int): (r: string)
    ensures r <= s
  {
    if s == "" || s[0] == '\0' || limit == 0 then ""
    else [s[0]] + Shown(s[1..], limit - 1)
  }

  /** What stands between a percent sign and its conversion character, at `next`; k arguments are used before it. */
  datatype Spec = Spec(flags: Flags, width: int, precision: int, qualifier: char, next: nat, k: nat)

  predicate IsFlag(c: char) { c == '-' || c == '+' || c == ' ' || c == '#' || c == '0' }

  function FlagFor(c: char, flags: Flags): Flags {
    match c
    case '-' => flags.(left := true)
    case '+' => flags.(plus := true)
    case ' ' => flags.(space := true)
    case '#' => flags.(special := true)
    case '0' => flags.(zeroPad := true)
    case _ => flags
  }

  function ScanFlags(fmt: string, i: nat, flags: Flags): (r: (Flags, nat))
    requires i <= |fmt|
    ensures i <= r.1 <= |fmt|
    decreases |fmt| - i
  {
    if IsFlag(CharAt(fmt, i)) then ScanFlags(fmt, i + 1, FlagFor(fmt[i], flags)) else (flags, i)
  }

  /** A number in the format, or the next argument for a star; otherwise `none`. */
  function ScanField(fmt: string, i: nat, args: nat -> Arg, k: nat, none: int): (r: (int, nat, nat))
    requires i <= |fmt|
    ensures i <= r.1 <= |fmt|
  {
    if IsDigit(CharAt(fmt, i)) then
      var e := DigitsEnd(fmt, i, 10);
      (ValueOf(fmt[i..e], 10), e, k)
    else if CharAt(fmt, i) == '*' then (IntOf(args(k).word), i + 1, k + 1)
    else (none, i, k)
  }

  function ScanQualifier(fmt: string, i: nat): (r: (char, nat))
    requires i <= |fmt|
    ensures i <= r.1 <= |fmt|
  {
    var (q, j) :=
      if CharAt(fmt, i) == 'l' && CharAt(fmt, i + 1) == 'l' then ('L', i + 2)
      else if CharAt(fmt, i) in "hlLZ" then (fmt[i], i + 1)
      else ('\0', i);
    if CharAt(fmt, j) == 'q' then ('L', j + 1) else (q, j)
  }

  function ScanSpec(fmt: string, i: nat, args: nat -> Arg, k: nat): (r: Spec)
    requires i <= |fmt|
    ensures i <= r.next <= |fmt|
  {
    var (flags, i1) := ScanFlags(fmt, i, NO_FLAGS);
    var (w, i2, k2) := ScanField(fmt, i1, args, k, -1);
    var star := CharAt(fmt, i1) == '*' && w < 0;
    var (p, i3, k3) := if CharAt(fmt, i2) == '.' then ScanField(fmt, i2 + 1, args, k2, 0) else (-1, i2, k2);
    var precision := if CharAt(fmt, i2) == '.' && p < 0 then 0 else p;
    var (q, i4) := ScanQualifier(fmt, i3);
    Spec(if star then flags.(left := true) else flags, if star then 0 - w else w, precision, q, i4, k3)
  }

  /** A field of at least `width` characters, filled with blanks. */
  function Field(body: string, width: int, left: bool): string {
    if left then body + Repeat(' ', width - |body|) else Repeat(' ', width - |body|) + body
  }

  function BaseFor(c: char): nat { if c == 'o' then 8 else if c in "xX" then 16 else 10 }

  function CharOf(word: nat): char { (word % 256) as char }

  function StringOf(t: Text): string { if t.Null? then "<NULL>" else t.chars }

  /** The text of one conversion. */
  function Converted(fmt: string, sp: Spec, args: nat -> Arg): string
    requires sp.next <= |fmt|
  {
    var c, arg := CharAt(fmt, sp.next), args(sp.k);
    if c == 'c' then Field([CharOf(arg.word)], sp.width, sp.flags.left)
    else if c == 's' then Field(Shown(StringOf(arg.text), sp.precision), sp.width, sp.flags.left)
    else if c == 'p' then
      Number(AsSigned(WORD, arg.word % WORD), 16, if sp.width == -1 then 16 else sp.width, sp.precision,
             if sp.width == -1 then sp.flags.(zeroPad := true) else sp.flags)
    else if c == 'n' then ""
    else if c == '%' then "%"
    else if c in "oxXdiu" then
      Number(ValueOfArg(arg.word, sp.qualifier, c in "di"), BaseFor(c), sp.width, sp.precision,
             sp.flags.(large := c == 'X', sign := c in "di"))
    else if c == '\0' then "%"
    else ['%', c]
  }

  /** How many arguments a conversion takes. */
  function Taken(c: char): nat { if c in "cspnoxXdiu" then 1 else 0 }

  /** Where the format goes on after a conversion. */
  function After(fmt: string, sp: Spec): (i: nat)
    requires sp.next <= |fmt|
    ensures sp.next <= i <= |fmt|
  {
    if CharAt(fmt, sp.next) == '\0' then sp.next else sp.next + 1
  }

  /** The whole text for a format from i on, with k arguments used so far. */
  function Format(fmt: string, i: nat, args: nat -> Arg, k: nat): string
    requires i <= |fmt|
    decreases |fmt| - i
  {
    if CharAt(fmt, i) == '\0' then ""
    else if fmt[i] != '%' then [fmt[i]] + Format(fmt, i + 1, args, k)
    else
      var sp := ScanSpec(fmt, i + 1, args, k);
      Converted(fmt, sp, args) + Format(fmt, After(fmt, sp), args, sp.k + Taken(CharAt(fmt, sp.next)))
  }

  /** A store made by %n: the low bytes of the number of characters put so far. */
  datatype Count = Count(address: nat, bytes: nat, value: nat)

  function CountFor(sp: Spec, args: nat -> Arg, pos: nat): Count {
    Count(args(sp.k).word, if sp.qualifier == 'l' || sp.qualifier == 'Z' then 8 else 4, pos)
  }

  /** All the stores for a format from i on, with `pos` characters put so far. */
  function Counts(fmt: string, i: nat, args: nat -> Arg, k: nat, pos: nat): seq<Count>
    requires i <= |fmt|
    decreases |fmt| - i
  {
    if CharAt(fmt, i) == '\0' then []
    else if fmt[i] != '%' then Counts(fmt, i + 1, args, k, pos + 1)
    else
      var sp := ScanSpec(fmt, i + 1, args, k);
      (if CharAt(fmt, sp.next) == 'n' then [CountFor(sp, args, pos)] else [])
      + Counts(fmt, After(fmt, sp), args, sp.k + Taken(CharAt(fmt, sp.next)), pos + |Converted(fmt, sp, args)|)
  }

  // ---------- The bounded buffer ----------

  /** The buffer after `out` was written to it as far as its size allows. */
  function Stored(before: string, out: string, size: nat): (r: string)
    requires size <= |before|
    ensures |r| == |before|
  {
    out[..Min(|out|, size)] + before[Min(|out|, size)..]
  }

  lemma StoreOne(before: string, out: string, size: nat, c: char)
    requires size <= |before|
    ensures Stored(before, out + [c], size) ==
            if |out| < size then Stored(before, out, size)[|out| := c] else Stored(before, out, size)
  {
    if |out| < size {
      assert (out + [c])[..|out| + 1] == out + [c] && out[..|out|] == out;
    } else {
      assert (out + [c])[..size] == out[..size];
    }
  }

  /** What C99 asks for: as much of the text as fits with a null character after it. */
  function Terminated(before: string, out: string, size: nat): string
    requires size <= |before|
  {
    if size == 0 then before
    else var m := Min(|out|, size - 1); out[..m] + ['\0'] + before[m + 1..]
  }

  lemma Terminate(before: string, out: string, size: nat)
    requires 0 < size <= |before|
    ensures Terminated(before, out, size) == Stored(before, out, size)[Min(|out|, size - 1) := '\0']
  {
    var m := Min(|out|, size - 1);
    var r := Stored(before, out, size);
    assert r[..m] == out[..m] && r[m + 1..] == before[m + 1..];
    assert r[m := '\0'] == r[..m] + ['\0'] + r[m + 1..];
  }

  class Output {
    const buf: array<char>
    const size: nat
    var pos: nat                    // str - buf
    var counts: seq<Count>          // the stores of %n
    ghost var out: string           // everything put so far
    ghost const before: string      // the buffer at the start

    ghost predicate Valid()
      reads this, buf
    {
      && |before| == buf.Length && size <= buf.Length && pos == |out|
      && buf[..] == Stored(before, out, size)
    }

    constructor (buf: array<char>, size: nat)
      requires size <= buf.Length
      ensures Valid() && this.buf == buf && this.size == size && out == "" && counts == [] && before == buf[..]
    {
      this.buf, this.size, pos, counts, out, before := buf, size, 0, [], "", buf[..];
    }

    /** Every character that is put: stored if it still fits, counted in any case. */
    method Put(c: char)
      requires Valid()
      modifies this`pos, this`out, buf
      ensures Valid() && out == old(out) + [c]
    {
      hide Stored;
      StoreOne(before, out, size, c);
      if pos < size {
        buf[pos] := c;
      }
      pos := pos + 1;
      out := out + [c];
    }

    /** while (n-- > 0) put c */
    method Pad(n: int, c: char)
      requires Valid()
      modifies this`pos, this`out, buf
      ensures Valid() && out == old(out) + Repeat(c, n)
    {
      hide Stored;
      var left := n;
      ghost var done := 0;
      assert Repeat(c, 0) == "";
      while left > 0
        invariant Valid() && done + left == n && (n > 0 ==> left >= 0) && (n <= 0 ==> done == 0)
        invariant done >= 0 && out == old(out) + Repeat(c, done)
      {
        assert Repeat(c, done + 1) == Repeat(c, done) + [c];
        Put(c);
        left := left - 1;
        done := done + 1;
      }
      assert n <= 0 ==> Repeat(c, n) == "";
    }

    method PutAll(s: string)
      requires Valid()
      modifies this`pos, this`out, buf
      ensures Valid() && out == old(out) + s
    {
      hide Stored;
      var i := 0;
      while i < |s|
        invariant 0 <= i <= |s| && Valid() && out == old(out) + s[..i]
      {
        assert s[..i + 1] == s[..i] + [s[i]];
        Put(s[i]);
        i := i + 1;
      }
      assert s[..i] == s;
    }

    method PutField(body: string, width: int, left: bool)
      requires Valid()
      modifies this`pos, this`out, buf
      ensures Valid() && out == old(out) + Field(body, width, left)
    {
      hide Stored, Repeat;
      if !left {
        Pad(width - |body|, ' ');
      }
      PutAll(body);
      if left {
        Pad(width - |body|, ' ');
      }
    }

    /** number() */
    method PutNumber(num: int, base: nat, width: int, precision: int, flags: Flags)
      requires Valid() && -HALF <= num < HALF
      modifies this`pos, this`out, buf
      ensures Valid() && out == old(out) + Number(num, base, width, precision, flags)
    {
      hide Stored, Digits, Repeat, SignText, PrefixText, Magnitude, Number, Reversed, Max;
      if base < 2 || base > 36 {
        NoSuchBase(num, base, width, precision, flags);
        return;
      }
      var tmp := new char[66];
      var i := FillDigits(tmp, Magnitude(num, flags), base, flags.large);
      var sign, prefix := SignText(num, flags), PrefixText(base, flags);
      var precision1 := Max(precision, i);
      var pad := width - |sign| - |prefix| - precision1;
      Pad(if flags.zeroPad || flags.left then 0 else pad, ' ');
      PutAll(sign);
      PutAll(prefix);
      Pad(if flags.left || !flags.zeroPad then 0 else pad, '0');
      Pad(precision1 - i, '0');
      PutReversed(tmp, i);
      Pad(if flags.left then pad else 0, ' ');
      NumberWhole(num, base, width, precision, flags, precision1, old(out));
    }

    /** while (i-- > 0) put tmp[i] */
    method PutReversed(tmp: array<char>, n: nat)
      requires Valid() && n <= tmp.Length && tmp != buf
      modifies this`pos, this`out, buf
      ensures Valid() && out == old(out) + Reversed(tmp[..n])
    {
      hide Stored;
      ghost var all := Reversed(tmp[..n]);
      var i := n;
      while i > 0
        invariant 0 <= i <= n && Valid() && out == old(out) + all[..n - i]
      {
        i := i - 1;
        assert all[..n - i] == all[..n - i - 1] + [tmp[i]];
        Put(tmp[i]);
      }
      assert all[..n] == all;
    }

    /** One conversion, with its specification read. */
    method PutConversion(fmt: string, sp: Spec, args: nat -> Arg)
      requires Valid() && sp.next <= |fmt|
      modifies this`pos, this`out, this`counts, buf
      ensures Valid() && out == old(out) + Converted(fmt, sp, args)
      ensures counts == old(counts) + if CharAt(fmt, sp.next) == 'n' then [CountFor(sp, args, old(pos))] else []
    {
      hide Stored, Number, Field, Shown;
      var c, arg := CharAt(fmt, sp.next), args(sp.k);
      var flags := sp.flags;
      if c == 'c' {
        PutField([CharOf(arg.word)], sp.width, flags.left);
      } else if c == 's' {
        PutField(Shown(StringOf(arg.text), sp.precision), sp.width, flags.left);
      } else if c == 'p' {
        var width := sp.width;
        if width == -1 {
          width := 16;
          flags := flags.(zeroPad := true);
        }
        PutNumber(AsSigned(WORD, arg.word % WORD), 16, width, sp.precision, flags);
      } else if c == 'n' {
        counts := counts + [CountFor(sp, args, pos)];
      } else if c == '%' {
        Put('%');
      } else if c in "oxXdiu" {
        flags := flags.(large := c == 'X', sign := c in "di");
        PutNumber(ValueOfArg(arg.word, sp.qualifier, flags.sign), BaseFor(c), sp.width, sp.precision, flags);
      } else {
        Put('%');
        if c != '\0' {
          Put(c);
        }
      }
    }

    /** vsnprintf. The length is returned as an int, which it is exactly below 2^31. */
    method Run(fmt: string, args: nat -> Arg) returns (length: int)
      requires Valid() && out == "" && counts == []
      modifies this`pos, this`out, this`counts, buf
      ensures length == IntOf(|Format(fmt, 0, args, 0)|)
      ensures length == |Format(fmt, 0, args, 0)| <==> |Format(fmt, 0, args, 0)| < 0x8000_0000
      ensures buf[..] == Terminated(before, Format(fmt, 0, args, 0), size)
      ensures counts == Counts(fmt, 0, args, 0, 0)
    {
      hide Stored, Converted, ScanSpec, Terminated, Format, Counts, CountFor;
      var i: nat, k: nat := 0, 0;
      ghost var whole := Format(fmt, 0, args, 0);
      while CharAt(fmt, i) != '\0'
        invariant i <= |fmt| && Valid() && out + Format(fmt, i, args, k) == whole
        invariant counts + Counts(fmt, i, args, k, pos) == Counts(fmt, 0, args, 0, 0)
        decreases |fmt| - i
      {
        FormatStep(fmt, i, args, k, out);
        CountsStep(fmt, i, args, k, counts, pos);
        if fmt[i] != '%' {
          Put(fmt[i]);
          i := i + 1;
        } else {
          var sp := ReadSpec(fmt, i + 1, args, k);
          PutConversion(fmt, sp, args);
          i := After(fmt, sp);
          k := sp.k + Taken(CharAt(fmt, sp.next));
        }
      }
      NothingLeft(fmt, i, args, k, pos);
      assert out == whole;
      if size > 0 {
        Terminate(before, out, size);
        if pos < size {
          buf[pos] := '\0';
        } else {
          buf[size - 1] := '\0';
        }
      } else {
        NothingStored(before, out);
      }
      length := IntOf(pos);
    }
  }

  lemma FormatStep(fmt: string, i: nat, args: nat -> Arg, k: nat, done: string)
    requires i <= |fmt| && CharAt(fmt, i) != '\0'
    ensures i < |fmt|
    ensures fmt[i] != '%' ==> done + Format(fmt, i, args, k) == (done + [fmt[i]]) + Format(fmt, i + 1, args, k)
    ensures fmt[i] == '%' ==>
              var sp := ScanSpec(fmt, i + 1, args, k);
              done + Format(fmt, i, args, k) ==
              (done + Converted(fmt, sp, args)) + Format(fmt, After(fmt, sp), args, sp.k + Taken(CharAt(fmt, sp.next)))
  {
    hide Converted, ScanSpec;
  }

  lemma NothingLeft(fmt: string, i: nat, args: nat -> Arg, k: nat, pos: nat)
    requires i <= |fmt| && CharAt(fmt, i) == '\0'
    ensures Format(fmt, i, args, k) == "" && Counts(fmt, i, args, k, pos) == []
  {
  }

  lemma CountsStep(fmt: string, i: nat, args: nat -> Arg, k: nat, done: seq<Count>, pos: nat)
    requires i <= |fmt| && CharAt(fmt, i) != '\0'
    ensures i < |fmt|
    ensures fmt[i] != '%' ==> Counts(fmt, i, args, k, pos) == Counts(fmt, i + 1, args, k, pos + 1)
    ensures fmt[i] == '%' ==>
              var sp := ScanSpec(fmt, i + 1, args, k);
              done + Counts(fmt, i, args, k, pos) ==
              (done + if CharAt(fmt, sp.next) == 'n' then [CountFor(sp, args, pos)] else [])
              + Counts(fmt, After(fmt, sp), args, sp.k + Taken(CharAt(fmt, sp.next)), pos + |Converted(fmt, sp, args)|)
  {
    hide Converted, ScanSpec, CountFor;
  }

  lemma NothingStored(before: string, out: string)
    ensures Terminated(before, out, 0) == Stored(before, out, 0)
  {
    assert before[0..] == before;
  }

  /** The flags loop. */
  method ReadFlags(fmt: string, start: nat) returns (flags: Flags, i: nat)
    requires start <= |fmt|
    ensures (flags, i) == ScanFlags(fmt, start, NO_FLAGS)
    ensures i <= |fmt|
  {
    flags, i := NO_FLAGS, start;
    while IsFlag(CharAt(fmt, i))
      invariant i <= |fmt| && ScanFlags(fmt, i, flags) == ScanFlags(fmt, start, NO_FLAGS)
      decreases |fmt| - i
    {
      flags := FlagFor(fmt[i], flags);
      i := i + 1;
    }
  }

  /** skip_atoi: the value of the digits at `start`, and where they end. */
  method SkipAtoi(fmt: string, start: nat) returns (value: nat, i: nat)
    requires start <= |fmt|
    ensures i == DigitsEnd(fmt, start, 10) && value == ValueOf(fmt[start..i], 10)
  {
    hide ValueOf, DigitsEnd;
    value, i := 0, start;
    assert fmt[start..start] == [];
    ValueOfNothing(10);
    while IsDigit(CharAt(fmt, i))
      invariant start <= i <= |fmt| && value == ValueOf(fmt[start..i], 10)
      invariant DigitsEnd(fmt, i, 10) == DigitsEnd(fmt, start, 10)
      decreases |fmt| - i
    {
      EndLater(fmt, i, 10);
      NextDigit(fmt, start, i, 10);
      value := value * 10 + (fmt[i] as int - 48);
      i := i + 1;
    }
    EndHere(fmt, i, 10);
  }

  method ReadField(fmt: string, i: nat, args: nat -> Arg, k: nat, none: int) returns (value: int, j: nat, k': nat)
    requires i <= |fmt|
    ensures (value, j, k') == ScanField(fmt, i, args, k, none)
    ensures j <= |fmt|
  {
    hide ValueOf, DigitsEnd;
    value, j, k' := none, i, k;
    if IsDigit(CharAt(fmt, i)) {
      value, j := SkipAtoi(fmt, i);
    } else if CharAt(fmt, i) == '*' {
      value, j, k' := IntOf(args(k).word), i + 1, k + 1;
    }
  }

  /** Flags, width, precision and qualifier of a conversion. */
  method ReadSpec(fmt: string, start: nat, args: nat -> Arg, k0: nat) returns (sp: Spec)
    requires start <= |fmt|
    ensures sp == ScanSpec(fmt, start, args, k0)
  {
    hide ScanFlags, ScanField, IntOf;
    var flags, i := ReadFlags(fmt, start);
    var k := k0;
    var star := CharAt(fmt, i) == '*';
    var width; var precision := -1;
    width, i, k := ReadField(fmt, i, args, k, -1);
    if star && width < 0 {
      width := 0 - width;
      flags := flags.(left := true);
    }
    if CharAt(fmt, i) == '.' {
      precision, i, k := ReadField(fmt, i + 1, args, k, 0);
      if precision < 0 {
        precision := 0;
      }
    }
    var qualifier := '\0';
    if CharAt(fmt, i) in "hlLZ" {
      qualifier := fmt[i];
      i := i + 1;
      if qualifier == 'l' && CharAt(fmt, i) == 'l' {
        qualifier := 'L';
        i := i + 1;
      }
    }
    if CharAt(fmt, i) == 'q' {
      qualifier := 'L';
      i := i + 1;
    }
    sp := Spec(flags, width, precision, qualifier, i, k);
  }

  function Reversed(s: string): (r: string)
    ensures |r| == |s| && forall k: nat :: k < |r| ==> r[k] == s[|s| - 1 - k]
  {
    if s == "" then "" else [s[|s| - 1]] + Reversed(s[..|s| - 1])
  }

  lemma ReversedSnoc(s: string, c: char)
    ensures Reversed(s + [c]) == [c] + Reversed(s)
  {
    assert (s + [c])[..|s|] == s;
  }

  /** The digits of n, least significant first; they never need more than 64 places. */
  method FillDigits(tmp: array<char>, n: nat, base: nat, large: bool) returns (i: nat)
    requires tmp.Length == 66 && n < WORD && 2 <= base <= 36
    modifies tmp
    ensures i <= 64 && Reversed(tmp[..i]) == Digits(n, base, large)
  {
    hide Digits, Reversed, DigitChar, DigitsSoFar;
    WordIs64Bits();
    DigitsFit(n, base, large, 64);
    i := 0;
    if n == 0 {
      tmp[0] := '0';
      i := 1;
      ZeroDigits(base, large);
      assert tmp[..1] == ['0'];
      return;
    }
    var n2 := n;
    DigitsStart(n, base, large, tmp[..0]);
    while n2 != 0
      invariant n2 >= 0 && i <= 64 && DigitsSoFar(n, n2, base, large, tmp[..i])
      decreases n2
    {
      ghost var done := tmp[..i];
      DigitsNext(n, n2, base, large, done);
      tmp[i] := DigitChar(n2 % base, large);
      assert tmp[..i + 1] == done + [tmp[i]];
      n2 := n2 / base;
      i := i + 1;
    }
    DigitsDone(n, base, large, tmp[..i]);
  }

  lemma DigitsDone(n: nat, base: nat, large: bool, done: string)
    requires 2 <= base <= 36 && DigitsSoFar(n, 0, base, large, done)
    ensures Reversed(done) == Digits(n, base, large)
  {
    hide Digits, Reversed;
  }

  /** The digits `done`, least significant first, and those of n2 in front of them are the digits of n. */
  ghost predicate DigitsSoFar(n: nat, n2: nat, base: nat, large: bool, done: string)
    requires 2 <= base <= 36
  {
    Digits(n, base, large) == (if n2 > 0 then Digits(n2, base, large) else "") + Reversed(done)
  }

  lemma DigitsStart(n: nat, base: nat, large: bool, done: string)
    requires 2 <= base <= 36 && n > 0 && done == ""
    ensures DigitsSoFar(n, n, base, large, done)
  {
    hide Digits;
    NoneReversed(done);
  }

  lemma DigitsNext(n: nat, n2: nat, base: nat, large: bool, done: string)
    requires 2 <= base <= 36 && n2 > 0 && DigitsSoFar(n, n2, base, large, done) && |Digits(n, base, large)| <= 64
    ensures n2 % base < base && n2 / base < n2 && |done| < 64
    ensures DigitsSoFar(n, n2 / base, base, large, done + [DigitChar(n2 % base, large)])
  {
    hide Digits, Reversed, DigitChar;
    DigitsStep(n2, base, large);
    ReversedSnoc(done, DigitChar(n2 % base, large));
  }

  lemma WordIs64Bits()
    ensures Powers.Pow(2, 64) == WORD
  {
    assert Powers.Pow(2, 1) == 2;
    Doubled(1, 2);
    Doubled(2, 4);
    Doubled(4, 0x10);
    Doubled(8, 0x100);
    Doubled(16, 0x1_0000);
    Doubled(32, 0x1_0000_0000);
  }

  lemma Doubled(k: nat, p: nat)
    requires Powers.Pow(2, k) == p
    ensures Powers.Pow(2, 2 * k) == p * p
  {
    Powers.PowAdd(2, k, k);
  }

  lemma ZeroDigits(base: nat, large: bool)
    requires 2 <= base <= 36
    ensures Digits(0, base, large) == ['0'] && Reversed(['0']) == ['0']
  {
    ReversedSnoc("", '0');
    assert "" + ['0'] == ['0'];
  }

  lemma NoneReversed(s: string)
    requires s == ""
    ensures Reversed(s) == ""
  {
  }

  lemma DigitsStep(n: nat, base: nat, large: bool)
    requires 2 <= base <= 36 && n > 0
    ensures n % base < base && n / base < n
    ensures n / base == 0 ==> Digits(n, base, large) == [DigitChar(n % base, large)]
    ensures n / base > 0 ==> Digits(n, base, large) == Digits(n / base, base, large) + [DigitChar(n % base, large)]
  {
    hide DigitChar;
    if n >= base {
      QuotientShrinks(n, base);
    } else {
      DivModUnique(n, base, 0, n);
    }
  }

  lemma NoSuchBase(num: int, base: nat, width: int, precision: int, flags: Flags)
    requires -HALF <= num < HALF && (base < 2 || base > 36)
    ensures Number(num, base, width, precision, flags) == ""
  {
  }

  lemma Concat(before: string, a: string, b: string, c: string, d: string, e: string, f: string, g: string)
    ensures before + a + b + c + d + e + f + g == before + (a + b + c + (d + e) + f + g)
  {
  }

  /** The pieces in the order they are put are the number. */
  lemma NumberParts(num: int, base: nat, width: int, precision: int, flags: Flags, precision1: int)
    requires -HALF <= num < HALF && 2 <= base <= 36
    requires precision1 == Max(precision, |Digits(Magnitude(num, flags), base, flags.large)|)
    ensures var digits := Digits(Magnitude(num, flags), base, flags.large);
      var pad := width - |SignText(num, flags)| - |PrefixText(base, flags)| - precision1;
      && Zeros(num, base, width, precision, flags) ==
           Repeat('0', if flags.left || !flags.zeroPad then 0 else pad) + Repeat('0', precision1 - |digits|)
      && Blanks(num, base, width, precision, flags, !flags.left && !flags.zeroPad) ==
           Repeat(' ', if flags.zeroPad || flags.left then 0 else pad)
      && Blanks(num, base, width, precision, flags, flags.left) == Repeat(' ', if flags.left then pad else 0)
  {
    hide Digits, SignText, PrefixText, Magnitude;
  }

  lemma NumberWhole(num: int, base: nat, width: int, precision: int, flags: Flags, precision1: int, before: string)
    requires -HALF <= num < HALF && 2 <= base <= 36
    requires precision1 == Max(precision, |Digits(Magnitude(num, flags), base, flags.large)|)
    ensures var sign, prefix, digits := SignText(num, flags), PrefixText(base, flags), Digits(Magnitude(num, flags), base, flags.large);
      var pad := width - |sign| - |prefix| - precision1;
      before + Repeat(' ', if flags.zeroPad || flags.left then 0 else pad) + sign + prefix
      + Repeat('0', if flags.left || !flags.zeroPad then 0 else pad) + Repeat('0', precision1 - |digits|)
      + digits + Repeat(' ', if flags.left then pad else 0)
      == before + Number(num, base, width, precision, flags)
  {
    hide Digits, Repeat, SignText, PrefixText, Magnitude, Zeros, Blanks, Max;
    var sign, prefix, digits := SignText(num, flags), PrefixText(base, flags), Digits(Magnitude(num, flags), base, flags.large);
    var pad := width - |sign| - |prefix| - precision1;
    NumberParts(num, base, width, precision, flags, precision1);
    Concat(before, Repeat(' ', if flags.zeroPad || flags.left then 0 else pad), sign, prefix,
           Repeat('0', if flags.left || !flags.zeroPad then 0 else pad), Repeat('0', precision1 - |digits|), digits,
           Repeat(' ', if flags.left then pad else 0));
  }

  /** Printing any word with the format %ld and reading it back in base 10 gives its signed value. */
  lemma LongReadsBack(args: nat -> Arg)
    ensures Strtol(Format("%ld", 0, args, 0), 10) == AsSigned(WORD, args(0).word % WORD)
  {
    hide Number, Strtol;
    var fmt := "%ld";
    var flags := NO_FLAGS.(sign := true);
    var num := AsSigned(WORD, args(0).word % WORD);
    assert ScanFlags(fmt, 1, NO_FLAGS) == (NO_FLAGS, 1);
    assert ScanField(fmt, 1, args, 0, -1) == (-1, 1, 0);
    assert ScanQualifier(fmt, 1) == ('l', 2);
    assert ScanSpec(fmt, 1, args, 0) == Spec(NO_FLAGS, -1, -1, 'l', 2, 0);
    assert Format(fmt, 3, args, 1) == "";
    var text := Number(num, 10, -1, -1, flags);
    assert Format(fmt, 0, args, 0) == text + "";
    assert text + "" == text;
    NumberReadsBack(num, 10, -1, -1, flags);
    NotDisguised(num, flags);
  }

  lemma NotDisguised(num: int, flags: Flags)
    requires -HALF <= num < HALF && flags == NO_FLAGS.(sign := true)
    ensures !Disguised(num, 10, -1, -1, flags)
  {
    hide Number;
  }

  // ---------- What a specification means ----------

  function Opt(b: bool, c: char): string { if b then [c] else "" }

  /** The k-th flag: its character, and whether it is set. */
  function FlagChar(k: nat): char { if k == 0 then '-' else if k == 1 then '+' else if k == 2 then ' ' else if k == 3 then '#' else '0' }

  predicate Has(flags: Flags, k: nat) {
    if k == 0 then flags.left else if k == 1 then flags.plus else if k == 2 then flags.space else if k == 3 then flags.special else flags.zeroPad
  }

  /** The flags of which only the first k are looked at. */
  function FirstFlags(flags: Flags, k: nat): Flags {
    Flags(k > 4 && flags.zeroPad, false, k > 1 && flags.plus, k > 2 && flags.space, k > 0 && flags.left, k > 3 && flags.special, false)
  }

  /** The flags from the k-th on, written out. */
  function FlagText(flags: Flags, k: nat): string
    decreases 5 - k
  {
    if k >= 5 then "" else Opt(Has(flags, k), FlagChar(k)) + FlagText(flags, k + 1)
  }

  function WidthText(width: int): string { if width > 0 then Digits(width, 10, false) else "" }

  function PrecisionText(precision: int): string { if precision >= 0 then "." + Digits(precision, 10, false) else "" }

  /** A specification written out: flags, width if there is one, precision if there is one, and qualifier. */
  function SpecText(flags: Flags, width: int, precision: int, qualifier: char): string {
    FlagText(flags, 0) + (WidthText(width) + (PrecisionText(precision) + Opt(qualifier != '\0', qualifier)))
  }

  predicate Qualifier(c: char) { c == 'h' || c == 'l' || c == 'L' || c == 'Z' }

  /** A character that can only be a conversion character, or the end of the format. */
  predicate Conversion(c: char) { !IsFlag(c) && !IsDigit(c) && !Qualifier(c) && c != '.' && c != '*' && c != 'q' }

  lemma NoMoreFlags(fmt: string, i: nat, flags: Flags)
    requires i <= |fmt| && !IsFlag(CharAt(fmt, i))
    ensures ScanFlags(fmt, i, flags) == (flags, i)
  {
  }

  lemma OneFlag(a: string, b: bool, c: char, rest: string, flags: Flags)
    requires IsFlag(c)
    ensures var fmt := a + (Opt(b, c) + rest);
      && fmt == (a + Opt(b, c)) + rest
      && ScanFlags(fmt, |a|, flags) == ScanFlags(fmt, |a + Opt(b, c)|, if b then FlagFor(c, flags) else flags)
  {
  }

  lemma Regroup(a: string, b: string, c: string)
    ensures (a + b) + c == a + (b + c) && |a + b| == |a| + |b|
  {
  }

  /** Flags written in any place are read back, up to the first character that is none. */
  lemma {:induction false} FlagsReadBack(a: string, flags: Flags, k: nat, rest: string)
    requires !flags.sign && !flags.large && !IsFlag(CharAt(rest, 0)) && k <= 5
    ensures ScanFlags(a + (FlagText(flags, k) + rest), |a|, FirstFlags(flags, k)) == (flags, |a| + |FlagText(flags, k)|)
    decreases 5 - k
  {
    hide ScanFlags, Opt;
    if k == 5 {
      assert "" + rest == rest;
      AfterHead(a, rest);
      NoMoreFlags(a + ("" + rest), |a|, flags);
    } else {
      var o, more := Opt(Has(flags, k), FlagChar(k)), FlagText(flags, k + 1);
      Regroup(o, more, rest);
      OneFlag(a, Has(flags, k), FlagChar(k), more + rest, FirstFlags(flags, k));
      FlagsReadBack(a + o, flags, k + 1, rest);
      Regroup(a, o, more);
    }
  }

  lemma AfterHead(a: string, rest: string)
    ensures CharAt(a + rest, |a|) == CharAt(rest, 0)
  {
  }

  /** A positive number does not start with a zero. */
  lemma {:induction false} FirstDigit(n: nat)
    ensures IsDigit(Digits(n, 10, false)[0])
    ensures n > 0 ==> Digits(n, 10, false)[0] != '0'
    decreases n
  {
    if n >= 10 {
      QuotientShrinks(n, 10);
      FirstDigit(n / 10);
    }
  }

  /** A number written in the format is read back, up to the first character that is no digit. */
  lemma NumberInFormat(a: string, n: nat, rest: string, args: nat -> Arg, k: nat, none: int)
    requires !IsDigit(CharAt(rest, 0))
    ensures var d := Digits(n, 10, false);
      ScanField(a + d + rest, |a|, args, k, none) == (n, |a| + |d|, k)
  {
    hide Digits, ValueOf, DigitsEnd;
    var d := Digits(n, 10, false);
    var fmt, e := a + d + rest, |a| + |d|;
    FirstDigit(n);
    DigitsReadBack(n, 10, false);
    assert CharAt(fmt, |a|) == d[0];
    assert e < |fmt| ==> fmt[e] == CharAt(rest, 0);
    forall j: nat | |a| <= j < e
      ensures DigitIn(fmt[j], 10)
    {
      assert fmt[j] == d[j - |a|];
    }
    DigitsEndIs(fmt, |a|, e, 10);
    assert fmt[|a|..e] == d;
  }

  lemma Head(x: string, rest: string)
    ensures CharAt(x + rest, 0) == if x == "" then CharAt(rest, 0) else x[0]
  {
  }

  lemma QualifierReadsBack(fmt: string, a: string, q: char, rest: string)
    requires (q == '\0' || Qualifier(q)) && Conversion(CharAt(rest, 0)) && fmt == a + (Opt(q != '\0', q) + rest)
    ensures ScanQualifier(fmt, |a|) == (q, |a + Opt(q != '\0', q)|)
  {
    AfterHead(a, Opt(q != '\0', q) + rest);
    assert fmt == (a + Opt(q != '\0', q)) + rest;
    AfterHead(a + Opt(q != '\0', q), rest);
  }

  lemma PrecisionReadsBack(fmt: string, a: string, precision: int, rest: string, args: nat -> Arg, k: nat)
    requires precision >= -1 && !IsDigit(CharAt(rest, 0)) && CharAt(rest, 0) != '.' && fmt == a + (PrecisionText(precision) + rest)
    ensures fmt == (a + PrecisionText(precision)) + rest && |a| < |fmt| + (if precision == -1 then 1 else 0)
    ensures precision >= 0 ==> CharAt(fmt, |a|) == '.' && ScanField(fmt, |a| + 1, args, k, 0) == (precision, |a + PrecisionText(precision)|, k)
    ensures precision == -1 ==> CharAt(fmt, |a|) != '.'
  {
    hide Digits, ScanField;
    AfterHead(a, PrecisionText(precision) + rest);
    Head(PrecisionText(precision), rest);
    if precision >= 0 {
      var d := Digits(precision, 10, false);
      NumberInFormat(a + ".", precision, rest, args, k, 0);
      Regroup(a, ".", d);
      Regroup(a, "." + d, rest);
      assert fmt == (a + ".") + d + rest;
    }
  }

  lemma WidthReadsBack(fmt: string, a: string, width: int, rest: string, args: nat -> Arg, k: nat)
    requires (width == -1 || width > 0) && !IsDigit(CharAt(rest, 0)) && CharAt(rest, 0) != '*' && fmt == a + (WidthText(width) + rest)
    ensures fmt == (a + WidthText(width)) + rest
    ensures CharAt(fmt, |a|) != '*' && ScanField(fmt, |a|, args, k, -1) == (width, |a + WidthText(width)|, k)
  {
    hide Digits;
    AfterHead(a, WidthText(width) + rest);
    Head(WidthText(width), rest);
    if width > 0 {
      FirstDigit(width);
      hide ScanField;
      NumberInFormat(a, width, rest, args, k, -1);
    }
  }

  lemma SpecShape(a: string, f: string, w: string, p: string, q: string, rest: string)
    ensures a + (f + (w + (p + q))) + rest == a + (f + (w + (p + (q + rest))))
    ensures |a + f + w + p + q| == |a| + |f + (w + (p + q))|
  {
  }

  /** No flag, digit or star comes where the next part starts. */
  lemma PartsStart(width: int, precision: int, qualifier: char, rest: string)
    requires (width == -1 || width > 0) && precision >= -1 && (qualifier == '\0' || Qualifier(qualifier)) && Conversion(CharAt(rest, 0))
    ensures var r3 := Opt(qualifier != '\0', qualifier) + rest;
      var r2 := PrecisionText(precision) + r3;
      && !IsDigit(CharAt(r3, 0)) && CharAt(r3, 0) != '.' && !IsDigit(CharAt(r2, 0)) && CharAt(r2, 0) != '*'
      && !IsFlag(CharAt(WidthText(width) + r2, 0))
  {
    hide Digits;
    var r3 := Opt(qualifier != '\0', qualifier) + rest;
    var r2 := PrecisionText(precision) + r3;
    Head(Opt(qualifier != '\0', qualifier), rest);
    Head(PrecisionText(precision), r3);
    Head(WidthText(width), r2);
    if width > 0 {
      FirstDigit(width);
    }
  }

  /** Every specification written out, anywhere in a format, is read back as it was. */
  lemma SpecReadsBack(a: string, flags: Flags, width: int, precision: int, qualifier: char, rest: string, args: nat -> Arg, k: nat)
    requires !flags.sign && !flags.large && (width == -1 || width > 0) && precision >= -1
    requires (qualifier == '\0' || Qualifier(qualifier)) && Conversion(CharAt(rest, 0))
    ensures var text := SpecText(flags, width, precision, qualifier);
      ScanSpec(a + text + rest, |a|, args, k) == Spec(flags, width, precision, qualifier, |a| + |text|, k)
  {
    hide ScanFlags, ScanField, ScanQualifier, FlagText, WidthText, PrecisionText, Opt, Conversion, Qualifier, IsDigit, IsFlag, CharAt;
    var f, w, p, q := FlagText(flags, 0), WidthText(width), PrecisionText(precision), Opt(qualifier != '\0', qualifier);
    var fmt := a + SpecText(flags, width, precision, qualifier) + rest;
    SpecShape(a, f, w, p, q, rest);
    PartsStart(width, precision, qualifier, rest);
    FlagsReadBack(a, flags, 0, w + (p + (q + rest)));
    Regroup(a, f, w + (p + (q + rest)));
    WidthReadsBack(fmt, a + f, width, p + (q + rest), args, k);
    PrecisionReadsBack(fmt, a + f + w, precision, q + rest, args, k);
    QualifierReadsBack(fmt, a + f + w + p, qualifier, rest);
    EmptyPrecision(precision, a + f + w);
  }

  /** Stars take width and precision from the next two arguments: a negative width means left, a negative precision none of the text. */
  lemma StarsReadBack(a: string, rest: string, args: nat -> Arg, k: nat)
    requires Conversion(CharAt(rest, 0))
    ensures var w, p := IntOf(args(k).word), IntOf(args(k + 1).word);
      ScanSpec(a + "*.*" + rest, |a|, args, k) ==
      Spec(NO_FLAGS.(left := w < 0), if w < 0 then 0 - w else w, if p < 0 then 0 else p, '\0', |a| + 3, k + 2)
  {
    hide IntOf;
    var fmt := a + "*.*" + rest;
    assert fmt[|a|] == '*' && fmt[|a| + 1] == '.' && fmt[|a| + 2] == '*';
    AfterHead(a + "*.*", rest);
    NoMoreFlags(fmt, |a|, NO_FLAGS);
    assert ScanQualifier(fmt, |a| + 3) == ('\0', |a| + 3);
  }

  lemma EmptyPrecision(precision: int, a: string)
    ensures precision == -1 ==> a + PrecisionText(precision) == a
  {
  }
}
