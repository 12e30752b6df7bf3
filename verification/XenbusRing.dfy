/** The ring that carries requests to the xenstore daemon. */
module XenbusRing {
  import opened ByteRings
  import opened Common

  const SIZE := 1024                       // XENSTORE_RING_SIZE
  const WORD32 := 0x1_0000_0000

  /** The bytes of a 32-bit field, least significant first. */
  function Field(x: nat): seq<Byte> { [x % 256, x / 0x100 % 256, x / 0x1_0000 % 256, x / 0x100_0000 % 256] }

  /** struct xsd_sockmsg */
  function Header(kind: nat, reqId: nat, txId: nat, len: nat): (h: seq<Byte>)
    ensures |h| == 16
  {
    Field(kind) + Field(reqId) + Field(txId) + Field(len)
  }

  function Flatten(parts: seq<seq<Byte>>): seq<Byte> {
    if parts == [] then [] else Flatten(parts[..|parts| - 1]) + parts[|parts| - 1]
  }

  /** What the daemon is meant to see: a header that gives the length of the rest, and the segments. */
  function Message(kind: nat, reqId: nat, txId: nat, segments: seq<seq<Byte>>): seq<Byte> {
    Header(kind, reqId, txId, |Flatten(segments)|) + Flatten(segments)
  }

  lemma {:induction false} FlattenConcat(a: seq<seq<Byte>>, b: seq<seq<Byte>>)
    ensures Flatten(a + b) == Flatten(a) + Flatten(b)
  {
    if b == [] {
      assert a + b == a;
    } else {
      FlattenConcat(a, b[..|b| - 1]);
      assert (a + b)[..|a + b| - 1] == a + b[..|b| - 1];
    }
  }

  lemma FlattenNext(parts: seq<seq<Byte>>, k: nat)
    requires k < |parts|
    ensures Flatten(parts[..k + 1]) == Flatten(parts[..k]) + parts[k]
  {
    assert parts[..k + 1][..k] == parts[..k];
  }

  lemma FlattenPrefix(parts: seq<seq<Byte>>, k: nat)
    requires k <= |parts|
    ensures |Flatten(parts[..k])| <= |Flatten(parts)|
    ensures Flatten(parts[..k]) == Flatten(parts)[..|Flatten(parts[..k])|]
  {
    assert parts == parts[..k] + parts[k..];
    FlattenConcat(parts[..k], parts[k..]);
  }

  /** The segments copied so far: all before `cur`, and `off` bytes of that one. */
  function Copied(parts: seq<seq<Byte>>, cur: nat, off: nat): seq<Byte>
    requires cur <= |parts| && (if cur < |parts| then off <= |parts[cur]| else off == 0)
  {
    Flatten(parts[..cur]) + if cur < |parts| then parts[cur][..off] else []
  }

  lemma CopyMore(parts: seq<seq<Byte>>, cur: nat, off: nat, chunk: nat)
    requires cur < |parts| && off + chunk <= |parts[cur]|
    ensures Copied(parts, cur, off + chunk) == Copied(parts, cur, off) + parts[cur][off..off + chunk]
    ensures off + chunk == |parts[cur]| ==> Copied(parts, cur + 1, 0) == Copied(parts, cur, off + chunk)
  {
    hide Flatten;
    assert parts[cur][..off + chunk] == parts[cur][..off] + parts[cur][off..off + chunk];
    if off + chunk == |parts[cur]| {
      FlattenNext(parts, cur);
      assert parts[cur][..off + chunk] == parts[cur];
    }
  }

  /** What is copied is a prefix of the message, and all of it once its length is reached. */
  lemma CopiedIsPrefix(parts: seq<seq<Byte>>, cur: nat, off: nat)
    requires cur <= |parts| && (if cur < |parts| then off <= |parts[cur]| else off == 0)
    ensures |Copied(parts, cur, off)| <= |Flatten(parts)|
    ensures |Copied(parts, cur, off)| == |Flatten(parts)| ==> Copied(parts, cur, off) == Flatten(parts)
    ensures cur == |parts| ==> Copied(parts, cur, off) == Flatten(parts)
    ensures |Copied(parts, cur, off)| == |Flatten(parts)| && cur < |parts| && off < |parts[cur]| ==> false
  {
    hide Flatten;
    if cur < |parts| {
      FlattenNext(parts, cur);
      FlattenPrefix(parts, cur + 1);
    } else {
      assert parts[..cur] == parts;
    }
  }

  /** memcpy into a buffer */
  method MemCpy(dest: array<Byte>, at: nat, data: seq<Byte>)
    requires at + |data| <= dest.Length
    modifies dest
    ensures dest[..] == Overwrite(old(dest[..]), at, data)
  {
    var i := 0;
    while i < |data|
      invariant 0 <= i <= |data|
      invariant forall j: nat :: j < dest.Length ==> dest[j] == if at <= j < at + i then data[j - at] else old(dest[j])
    {
      dest[at + i] := data[i];
      i := i + 1;
    }
  }

  /** memcpy_from_ring: len bytes of the ring from slot `off` on, across its end if need be. */
  method MemCpyFromRing(ring: seq<Byte>, dest: array<Byte>, off: nat, len: nat)
    requires |ring| == SIZE && off < SIZE && len <= SIZE && len <= dest.Length
    modifies dest
    ensures dest[..len] == Between(ring, off, off + len)
    ensures dest[len..] == old(dest[len..])
  {
    hide Between, Slot;
    var c1 := if len < SIZE - off then len else SIZE - off;
    var c2 := len - c1;
    MemCpy(dest, 0, ring[off..off + c1]);
    MemCpy(dest, c1, ring[..c2]);
    forall k: nat | k < len
      ensures dest[k] == ring[Slot(off + k, SIZE)]
    {
      SlotOfSlot(off);
      if k < c1 {
        SlotStep(off, k, SIZE);
      } else {
        SlotWraps(off, k, SIZE);
      }
    }
  }

  lemma SlotOfSlot(i: nat)
    requires i < SIZE
    ensures Slot(i, SIZE) == i
  {
  }

  class Ring {
    const req: array<Byte>
    var prod: nat     // req_prod
    var cons: nat     // req_cons

    ghost predicate Valid()
      reads this
    {
      req.Length == SIZE && cons <= prod <= cons + SIZE
    }

    /** The bytes the daemon has not read yet. */
    ghost function Unread(): seq<Byte>
      requires Valid()
      reads this, req
    {
      Between(req[..], cons, prod)
    }

    constructor ()
      ensures Valid() && fresh(req) && Unread() == []
    {
      req := new Byte[SIZE];
      prod, cons := 0, 0;
    }

    /** The copying loop of xb_write: in chunks that end with a segment or with the ring. */
    method CopyIn(all: seq<seq<Byte>>, len: nat)
      requires Valid() && len == |Flatten(all)| && prod + len - cons <= SIZE
      modifies req
      ensures Between(req[..], cons, prod + len) == old(Unread()) + Flatten(all)
    {
      hide Between, Slot, Flatten, Copied, Overwrite;
      var at: nat, totalOff: nat, reqOff: nat, cur: nat := prod, 0, 0, 0;
      NothingCopied(all);
      while totalOff < len
        invariant at == prod + totalOff && totalOff <= len && cur <= |all|
        invariant if cur < |all| then reqOff <= |all[cur]| && (reqOff > 0 ==> reqOff < |all[cur]|) else reqOff == 0
        invariant totalOff == |Copied(all, cur, reqOff)|
        invariant Between(req[..], cons, at) == old(Unread()) + Copied(all, cur, reqOff)
        decreases |all| - cur, if cur < |all| then |all[cur]| - reqOff else 0
      {
        CopiedIsPrefix(all, cur, reqOff);
        var room := SIZE - Slot(at, SIZE);
        var chunk := if |all[cur]| - reqOff < room then |all[cur]| - reqOff else room;
        CopyMore(all, cur, reqOff, chunk);
        CopiedIsPrefix(all, cur, reqOff + chunk);
        ghost var data := all[cur][reqOff..reqOff + chunk];
        ChunkAppends(req[..], cons, at, data);
        MemCpy(req, Slot(at, SIZE), all[cur][reqOff..reqOff + chunk]);
        at := at + chunk;
        reqOff := reqOff + chunk;
        totalOff := totalOff + chunk;
        if reqOff == |all[cur]| {
          reqOff := 0;
          cur := cur + 1;
        }
      }
      CopiedIsPrefix(all, cur, reqOff);
      assert reqOff == 0 && totalOff == len && at <= cons + SIZE;    // the BUG_ON tests
    }

    /** xb_write once there is room for the message: it is appended to what is unread. */
    method Write(kind: nat, reqId: nat, txId: nat, segments: seq<seq<Byte>>)
      requires Valid() && kind < WORD32 && reqId < WORD32 && txId < WORD32
      requires prod + 16 + |Flatten(segments)| - cons <= SIZE
      modifies this`prod, req
      ensures Valid() && prod == old(prod) + 16 + |Flatten(segments)|
      ensures Unread() == old(Unread()) + Message(kind, reqId, txId, segments)
      ensures Between(req[..], old(prod), prod) == Message(kind, reqId, txId, segments)
    {
      hide Between, Slot, Flatten, Header;
      var len := SumLengths(segments);
      var header := Header(kind, reqId, txId, len);
      WholeMessage(header, segments);
      CopyIn([header] + segments, len + |header|);
      Appended(req[..], cons, prod, prod + len + |header|, old(Unread()), header + Flatten(segments));
      prod := prod + len + |header|;
    }

    /** Copying the message back out from the slot where it started gives the same bytes. */
    method WriteAndReadBack(kind: nat, reqId: nat, txId: nat, segments: seq<seq<Byte>>, dest: array<Byte>)
      requires Valid() && kind < WORD32 && reqId < WORD32 && txId < WORD32 && dest != req
      requires prod + 16 + |Flatten(segments)| - cons <= SIZE && dest.Length == 16 + |Flatten(segments)|
      modifies this`prod, req, dest
      ensures Valid() && dest[..] == Message(kind, reqId, txId, segments)
    {
      hide Between, Slot, Flatten, Header;
      ghost var at := prod;
      var off := Slot(prod, SIZE);
      Write(kind, reqId, txId, segments);
      MemCpyFromRing(req[..], dest, off, dest.Length);
      SameSlots(req[..], at, dest.Length);
      assert dest[..dest.Length] == dest[..];
    }
  }

  lemma Appended(ring: seq<Byte>, from: nat, mid: nat, end: nat, before: seq<Byte>, data: seq<Byte>)
    requires |ring| > 0 && from <= mid <= end && |before| == mid - from && Between(ring, from, end) == before + data
    ensures Between(ring, mid, end) == data
  {
    hide Between;
    BetweenSplits(ring, from, mid, end);
    var all := Between(ring, from, end);
    assert all[mid - from..] == data;
    assert all[mid - from..] == Between(ring, mid, end);
  }

  /** Reading from an index or from its slot is the same. */
  lemma SameSlots(ring: seq<Byte>, at: nat, len: nat)
    requires |ring| == SIZE && len <= SIZE
    ensures Between(ring, Slot(at, SIZE), Slot(at, SIZE) + len) == Between(ring, at, at + len)
  {
    hide Between, Slot;
    var off := Slot(at, SIZE);
    var here, there := Between(ring, off, off + len), Between(ring, at, at + len);
    SlotOfSlot(off);
    forall k: nat | k < len
      ensures here[k] == there[k]
    {
      if off + k < SIZE {
        SlotStep(at, k, SIZE);
        SlotStep(off, k, SIZE);
      } else {
        SlotWraps(at, k, SIZE);
        SlotWraps(off, k, SIZE);
      }
    }
  }

  method SumLengths(segments: seq<seq<Byte>>) returns (len: nat)
    ensures len == |Flatten(segments)|
  {
    hide Flatten;
    len := 0;
    var r := 0;
    FlattenEmpty(segments);
    while r < |segments|
      invariant 0 <= r <= |segments| && len == |Flatten(segments[..r])|
    {
      FlattenNext(segments, r);
      len := len + |segments[r]|;
      r := r + 1;
    }
    assert segments[..r] == segments;
  }

  lemma FlattenEmpty(parts: seq<seq<Byte>>)
    ensures Flatten(parts[..0]) == []
  {
  }

  lemma NothingCopied(parts: seq<seq<Byte>>)
    ensures Copied(parts, 0, 0) == []
  {
  }

  lemma WholeMessage(header: seq<Byte>, segments: seq<seq<Byte>>)
    ensures Flatten([header] + segments) == header + Flatten(segments)
  {
    FlattenConcat([header], segments);
    assert Flatten([header]) == Flatten([header][..0]) + header;
  }
}
