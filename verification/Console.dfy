/**
 * Console output: the rings shared with the console daemon, and printing with every newline
 * expanded to carriage return and line feed.
 */
module Console {
  import opened ByteRings
  import opened Common

  const LF: Byte := 10
  const CR: Byte := 13

  /** One direction of the console interface, with free-running indices. */
  class Ring {
    const data: array<Byte>
    var prod: nat
    var cons: nat
    ghost var written: seq<Byte>     // everything ever put in
    ghost var read: seq<Byte>        // everything ever taken out

    ghost predicate Valid()
      reads this, data
    {
      && data.Length > 0 && cons <= prod <= cons + data.Length
      && written == read + Between(data[..], cons, prod)
    }

    constructor (size: nat)
      requires size > 0
      ensures Valid() && fresh(data) && data.Length == size && written == [] && read == []
    {
      data := new Byte[size];
      prod, cons := 0, 0;
      written, read := [], [];
    }

    /** xencons_ring_send_no_notify: as much of the text as there is room for. */
    method Send(text: seq<Byte>) returns (sent: nat)
      requires Valid()
      modifies this`prod, this`written, data
      ensures Valid() && sent == Min(|text|, data.Length - (old(prod) - cons))
      ensures written == old(written) + text[..sent]
    {
      hide Between, Slot;
      var p := prod;
      ghost var unread := Between(data[..], cons, prod);
      sent := 0;
      assert unread + text[..0] == unread;
      while sent < |text| && p - cons < data.Length
        invariant sent <= |text| && p == prod + sent && cons <= p <= cons + data.Length
        invariant prod == old(prod) && written == old(written)
        invariant Between(data[..], cons, p) == unread + text[..sent]
      {
        SendNext(data[..], cons, p, unread, text, sent);
        data[Slot(p, data.Length)] := text[sent];
        p := p + 1;
        sent := sent + 1;
      }
      prod := p;
      written := written + text[..sent];
      Regroup(read, unread, text[..sent]);
    }

    /** The other side takes up to n bytes. */
    method Drain(n: nat)
      requires Valid()
      modifies this`cons, this`read
      ensures Valid() && cons == old(cons) + Min(n, prod - old(cons))
    {
      hide Between;
      var taken := Min(n, prod - cons);
      BetweenSplits(data[..], cons, cons + taken, prod);
      Regroup(read, Between(data[..], cons, cons + taken), Between(data[..], cons + taken, prod));
      read := read + Between(data[..], cons, cons + taken);
      cons := cons + taken;
    }

    /** xencons_ring_recv: the oldest unread bytes, at most as many as fit the buffer. */
    method Receive(buf: array<Byte>) returns (filled: nat)
      requires Valid() && buf != data
      modifies this`cons, this`read, buf
      ensures Valid() && filled == Min(buf.Length, prod - old(cons))
      ensures read == old(read) + buf[..filled] && read <= written
    {
      hide Between, Slot;
      filled := 0;
      while filled < buf.Length && cons + filled != prod
        invariant filled <= buf.Length && cons + filled <= prod
        invariant cons == old(cons) && read == old(read)
        invariant buf[..filled] == Between(data[..], cons, cons + filled)
      {
        ReceiveNext(data[..], cons, cons + filled);
        ghost var got := buf[..filled];
        buf[filled] := data[Slot(cons + filled, data.Length)];
        filled := filled + 1;
        assert buf[..filled] == got + [buf[filled - 1]];
      }
      BetweenSplits(data[..], cons, cons + filled, prod);
      Regroup(read, buf[..filled], Between(data[..], cons + filled, prod));
      cons := cons + filled;
      read := read + buf[..filled];
    }
  }

  // ---------- Printing ----------

  /** The text with every newline replaced by carriage return and line feed. */
  function Expand(text: seq<Byte>): seq<Byte> {
    if text == [] then []
    else Expand(text[..|text| - 1]) + if text[|text| - 1] == LF then [CR, LF] else [text[|text| - 1]]
  }

  lemma {:induction false} ExpandConcat(a: seq<Byte>, b: seq<Byte>)
    ensures Expand(a + b) == Expand(a) + Expand(b)
  {
    if b == [] {
      assert a + b == a;
    } else {
      ExpandConcat(a, b[..|b| - 1]);
      assert (a + b)[..|a + b| - 1] == a + b[..|b| - 1];
    }
  }

  lemma {:induction false} ExpandPlain(a: seq<Byte>)
    requires LF !in a
    ensures Expand(a) == a
  {
    if a != [] {
      ExpandPlain(a[..|a| - 1]);
      assert a == a[..|a| - 1] + [a[|a| - 1]];
    }
  }

  /** A line of plain text and its newline. */
  lemma ExpandLine(text: seq<Byte>, start: nat, at: nat)
    requires start <= at < |text| && LF !in text[start..at] && text[at] == LF
    ensures Expand(text[..at + 1]) == Expand(text[..start]) + (text[start..at] + [CR, LF])
  {
    hide Expand;
    ExpandRest(text, start, at);
    ExpandNewline(text[..at]);
    assert text[..at + 1] == text[..at] + [LF];
  }

  lemma ExpandRest(text: seq<Byte>, start: nat, at: nat)
    requires start <= at <= |text| && LF !in text[start..at]
    ensures Expand(text[..at]) == Expand(text[..start]) + text[start..at]
  {
    hide Expand;
    assert text[..at] == text[..start] + text[start..at];
    ExpandConcat(text[..start], text[start..at]);
    ExpandPlain(text[start..at]);
  }

  lemma ExpandNewline(a: seq<Byte>)
    ensures Expand(a + [LF]) == Expand(a) + [CR, LF]
  {
  }

  /** The daemon is not idle forever: next(i) is the first turn from i on at which it takes bytes. */
  ghost predicate Fair(drains: nat -> nat, next: nat -> nat) {
    forall i: nat :: next(i) >= i && drains(next(i)) > 0 && (next(i) > i ==> next(i + 1) == next(i))
  }

  class Printer {
    const out: Ring
    const drains: nat -> nat          // how much the daemon takes before the i-th call
    ghost const next: nat -> nat
    var turn: nat
    var dying: bool

    ghost predicate Valid()
      reads this, out, out.data
    {
      out.Valid() && Fair(drains, next)
    }

    constructor (out: Ring, drains: nat -> nat, ghost next: nat -> nat)
      requires out.Valid() && Fair(drains, next)
      ensures Valid() && this.out == out && this.drains == drains && !dying
    {
      this.out, this.drains, this.next := out, drains, next;
      turn, dying := 0, false;
    }

    /** checked_print: send until all is sent, while the daemon empties the ring at its own pace. */
    method CheckedPrint(text: seq<Byte>)
      requires Valid()
      modifies this`turn, out, out.data
      ensures Valid() && out.written == old(out.written) + text
    {
      hide Between;
      var rest := text;
      assert text[..0] + rest == text;
      ghost var done: seq<Byte> := [];
      while |rest| > 0
        invariant Valid() && done + rest == text && out.written == old(out.written) + done
        decreases |rest|, next(turn) - turn
      {
        ghost var was := out.written;
        out.Drain(drains(turn));
        turn := turn + 1;
        var printed := out.Send(rest);
        SentSome(old(out.written), done, rest, printed, text);
        done := done + rest[..printed];
        rest := rest[printed..];
      }
      assert done == text;
    }

    /** At an embedded newline: print the line with CR LF written over it and the next character, and put both back. */
    method PrintLine(buf: array<Byte>, data: nat, curr: nat)
      requires Valid() && data <= curr < buf.Length - 1 && buf[curr] == LF && buf != out.data
      modifies this`turn, out, out.data, buf
      ensures Valid() && buf[..] == old(buf[..])
      ensures out.written == old(out.written) + (old(buf[data..curr]) + [CR, LF])
    {
      hide Between;
      var saved := buf[curr + 1];
      buf[curr] := CR;
      buf[curr + 1] := LF;
      assert buf[data..curr + 2] == old(buf[data..curr]) + [CR, LF];
      CheckedPrint(buf[data..curr + 2]);
      buf[curr + 1] := saved;
      buf[curr] := LF;
    }

    /** What follows the last embedded newline. */
    method PrintLast(buf: array<Byte>, data: nat, length: nat)
      requires Valid() && 0 < length && data + length <= buf.Length && buf != out.data
      modifies this`turn, out, out.data
      ensures Valid() && out.written == old(out.written) + LastOut(buf[..], data, data + length)
    {
      hide Between;
      assert buf[..][data..data + length - 1] == buf[data..data + length - 1];
      assert buf[..][data..data + length] == buf[data..data + length];
      if buf[data + length - 1] == LF {
        CheckedPrint(buf[data..data + length - 1]);
        CheckedPrint([CR, LF]);
        Regroup(old(out.written), buf[data..data + length - 1], [CR, LF]);
      } else {
        CheckedPrint(buf[data..data + length]);
      }
    }

    /** console_print after initialisation; the buffer is edited in place and put back. */
    method Print(buf: array<Byte>, len: nat)
      requires Valid() && 0 < len <= buf.Length && buf != out.data
      modifies this`turn, out, out.data, buf
      ensures Valid() && buf[..] == old(buf[..])
      ensures out.written == old(out.written) + if dying then [] else Expand(old(buf[..])[..len])
    {
      hide Expand, Between, Fair, LastOut;
      if dying {
        return;
      }
      ghost var text := buf[..];
      var data: nat, length: nat, curr: nat := 0, len, 0;
      ExpandNothing(text);
      while curr < data + length - 1
        invariant Valid() && data + length == len && data <= curr < len && buf[..] == old(buf[..])
        invariant LF !in text[data..curr] && out.written == old(out.written) + Expand(text[..data])
      {
        if buf[curr] == LF {
          ExpandLine(text, data, curr);
          Regroup(old(out.written), Expand(text[..data]), text[data..curr] + [CR, LF]);
          assert text[data..curr] == buf[data..curr];
          PrintLine(buf, data, curr);
          length := length - (curr - data + 1);
          data := curr + 1;
        } else {
          StillPlain(text, data, curr);
        }
        curr := curr + 1;
      }
      ExpandLast(text, data, len);
      Regroup(old(out.written), Expand(text[..data]), LastOut(text, data, len));
      PrintLast(buf, data, length);
    }
  }

  /** The expansion of text[data..end], which has no newline except maybe at its end. */
  function LastOut(text: seq<Byte>, data: nat, end: nat): seq<Byte>
    requires data < end <= |text|
  {
    if text[end - 1] == LF then text[data..end - 1] + [CR, LF] else text[data..end]
  }

  lemma ExpandLast(text: seq<Byte>, data: nat, end: nat)
    requires data < end <= |text| && LF !in text[data..end - 1]
    ensures Expand(text[..end]) == Expand(text[..data]) + LastOut(text, data, end)
  {
    hide Expand;
    if text[end - 1] == LF {
      ExpandLine(text, data, end - 1);
    } else {
      StillPlain(text, data, end - 1);
      ExpandRest(text, data, end);
    }
  }

  lemma StillPlain(text: seq<Byte>, data: nat, at: nat)
    requires data <= at < |text| && LF !in text[data..at] && text[at] != LF
    ensures LF !in text[data..at + 1]
  {
    assert text[data..at + 1] == text[data..at] + [text[at]];
  }

  lemma ExpandNothing(text: seq<Byte>)
    ensures Expand(text[..0]) == []
  {
  }

  lemma SentSome(before: seq<Byte>, done: seq<Byte>, rest: seq<Byte>, n: nat, text: seq<Byte>)
    requires n <= |rest| && done + rest == text
    ensures (done + rest[..n]) + rest[n..] == text
    ensures (before + done) + rest[..n] == before + (done + rest[..n])
  {
    assert rest == rest[..n] + rest[n..];
  }

  lemma SendNext(ring: seq<Byte>, from: nat, end: nat, unread: seq<Byte>, text: seq<Byte>, sent: nat)
    requires from <= end < from + |ring| && sent < |text| && Between(ring, from, end) == unread + text[..sent]
    ensures Between(ring[Slot(end, |ring|) := text[sent]], from, end + 1) == unread + text[..sent + 1]
  {
    hide Between, Slot;
    PutAppends(ring, from, end, text[sent]);
    assert text[..sent + 1] == text[..sent] + [text[sent]];
  }

  lemma ReceiveNext(ring: seq<Byte>, from: nat, end: nat)
    requires |ring| > 0 && from <= end
    ensures Between(ring, from, end + 1) == Between(ring, from, end) + [ring[Slot(end, |ring|)]]
  {
  }

  lemma Regroup(a: seq<Byte>, b: seq<Byte>, c: seq<Byte>)
    ensures (a + b) + c == a + (b + c)
  {
  }
}
