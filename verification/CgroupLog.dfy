/**
 The record stream of `lscgroup`: a fixed header followed by a NUL-terminated name, records
 back to back. A dump that was cut short ends in an incomplete record.
 */
module CgroupLog {
  import opened Seqs
  import opened Bytes

  /** sizeof(struct BpfData). */
  const HEADER := 64

  datatype Entry = Entry(header: seq<Byte>, name: seq<Byte>)

  predicate Wf(e: Entry) {
    |e.header| == HEADER && 0 !in e.name
  }

  function Encode(e: Entry): seq<Byte> {
    e.header + (e.name + [0])
  }

  function EncodeAll(es: seq<Entry>): seq<Byte> {
    if es == [] then [] else Encode(es[0]) + EncodeAll(es[1..])
  }

  /** No complete record starts here: less than a header, or a name without its end. */
  predicate Incomplete(s: seq<Byte>) {
    |s| < HEADER || Strnlen(s[HEADER..]) == |s| - HEADER
  }

  datatype Decoded = Decoded(entries: seq<Entry>, left: seq<Byte>)

  function FirstEntry(buf: seq<Byte>): (e: Entry)
    requires !Incomplete(buf)
    ensures Wf(e) && |Encode(e)| <= |buf|
  {
    Entry(buf[..HEADER], buf[HEADER..HEADER + Strnlen(buf[HEADER..])])
  }

  function Decode(buf: seq<Byte>): Decoded {
    if Incomplete(buf) then Decoded([], buf)
    else
      var e := FirstEntry(buf);
      var d := Decode(buf[|Encode(e)|..]);
      Decoded([e] + d.entries, d.left)
  }

  lemma FirstOfEncoded(e: Entry, rest: seq<Byte>)
    requires Wf(e)
    ensures !Incomplete(Encode(e) + rest) && FirstEntry(Encode(e) + rest) == e
    ensures (Encode(e) + rest)[|Encode(e)|..] == rest
  {
    var buf := Encode(e) + rest;
    assert buf[..HEADER] == e.header;
    assert buf[HEADER..] == e.name + ([0] + rest);
    StrnlenAt(e.name, rest);
    assert buf[HEADER..HEADER + |e.name|] == e.name;
  }

  lemma FirstIsPrefix(buf: seq<Byte>)
    requires !Incomplete(buf)
    ensures buf == Encode(FirstEntry(buf)) + buf[|Encode(FirstEntry(buf))|..]
  {
    var e := FirstEntry(buf);
    var n := HEADER + |e.name|;
    assert buf[n] == buf[HEADER..][|e.name|] == 0;
    assert buf[..n] == e.header + e.name;
    Snoc(buf, n);
    Assoc(e.header, e.name, [0]);
    assert buf == buf[..n + 1] + buf[n + 1..];
  }

  /**
   Decoding inverts encoding, and an incomplete tail changes nothing but what is left over.
   */
  lemma {:induction false} RoundTrip(es: seq<Entry>, tail: seq<Byte>)
    requires (forall i :: 0 <= i < |es| ==> Wf(es[i])) && Incomplete(tail)
    ensures Decode(EncodeAll(es) + tail) == Decoded(es, tail)
  {
    if es == [] {
      assert EncodeAll(es) + tail == tail;
    } else {
      Assoc(Encode(es[0]), EncodeAll(es[1..]), tail);
      FirstOfEncoded(es[0], EncodeAll(es[1..]) + tail);
      RoundTrip(es[1..], tail);
      assert es == [es[0]] + es[1..];
    }
  }

  /** A record cut short anywhere is incomplete. */
  lemma TruncatedIsIncomplete(e: Entry, n: nat)
    requires Wf(e) && n < |Encode(e)|
    ensures Incomplete(Encode(e)[..n])
  {
    if n >= HEADER {
      var name := e.name[..n - HEADER];
      assert Encode(e)[..n][HEADER..] == name;
      assert 0 !in name;
      StrnlenAt(name, []);
    }
  }

  /** A dump cut anywhere inside its last record decodes to all records before it. */
  lemma TruncatedDump(es: seq<Entry>, e: Entry, n: nat)
    requires (forall i :: 0 <= i < |es| ==> Wf(es[i])) && Wf(e) && n < |Encode(e)|
    ensures Decode(EncodeAll(es) + Encode(e)[..n]) == Decoded(es, Encode(e)[..n])
  {
    TruncatedIsIncomplete(e, n);
    RoundTrip(es, Encode(e)[..n]);
  }

  /**
   For every buffer whatsoever: the entries decoded are well formed, their encoding is exactly
   the part of the buffer before the leftover, and the leftover holds no complete record.
   */
  lemma {:induction false} Sound(buf: seq<Byte>)
    ensures forall i :: 0 <= i < |Decode(buf).entries| ==> Wf(Decode(buf).entries[i])
    ensures EncodeAll(Decode(buf).entries) + Decode(buf).left == buf
    ensures Incomplete(Decode(buf).left)
  {
    if Incomplete(buf) {
      assert [] + buf == buf;
    } else {
      var e := FirstEntry(buf);
      var rest := buf[|Encode(e)|..];
      Sound(rest);
      FirstIsPrefix(buf);
      Assoc(Encode(e), EncodeAll(Decode(rest).entries), Decode(rest).left);
      assert Decode(buf).entries[1..] == Decode(rest).entries;
    }
  }

  /** So the decoding is the only way to read the buffer as complete records and an incomplete rest. */
  lemma Maximal(buf: seq<Byte>, es: seq<Entry>, tail: seq<Byte>)
    requires (forall i :: 0 <= i < |es| ==> Wf(es[i])) && Incomplete(tail) && EncodeAll(es) + tail == buf
    ensures Decode(buf) == Decoded(es, tail)
  {
    RoundTrip(es, tail);
  }

  ghost predicate Continues(all: Decoded, done: seq<Entry>, rest: seq<Byte>) {
    all == Decoded(done + Decode(rest).entries, Decode(rest).left)
  }

  lemma DecodeStep(all: Decoded, done: seq<Entry>, buf: seq<Byte>)
    requires Continues(all, done, buf)
    ensures Incomplete(buf) ==> all == Decoded(done, buf)
    ensures !Incomplete(buf) ==>
              Continues(all, done + [FirstEntry(buf)], buf[|Encode(FirstEntry(buf))|..])
  {
    if Incomplete(buf) {
      assert done + [] == done;
    } else {
      Assoc(done, [FirstEntry(buf)], Decode(buf[|Encode(FirstEntry(buf))|..]).entries);
    }
  }

  /** One round of the loop, on what is left of the buffer. */
  method NextEntry(rest: seq<Byte>, ghost all: Decoded, ghost done: seq<Entry>)
    returns (complete: bool, e: Entry, logSz: nat)
    requires |rest| >= HEADER && Continues(all, done, rest)
    ensures !complete ==> all == Decoded(done, rest)
    ensures complete ==> 0 < logSz <= |rest| && Continues(all, done + [e], rest[logSz..])
  {
    DecodeStep(all, done, rest);
    if Incomplete(rest) {
      return false, Entry([], []), 0;
    }
    complete, e := true, FirstEntry(rest);
    logSz := HEADER + |e.name| + 1;
  }

  /** The decode loop of `process_log`. It never reads or consumes past the end. */
  method ProcessLog(buf: seq<Byte>) returns (entries: seq<Entry>, off: nat)
    ensures off <= |buf|
    ensures Decode(buf) == Decoded(entries, buf[off..])
  {
    entries, off := [], 0;
    var bsz: nat := |buf|;
    ghost var whole := Decode(buf);
    assert buf[0..] == buf;
    while bsz >= HEADER
      invariant off + bsz == |buf|
      invariant Continues(whole, entries, buf[off..])
      decreases bsz
    {
      var complete, e, logSz := NextEntry(buf[off..], whole, entries);
      if !complete {
        return;
      }
      DropDrop(buf, off, logSz);
      entries := entries + [e];
      bsz := bsz - logSz;
      off := off + logSz;
    }
    DecodeStep(whole, entries, buf[off..]);
  }

  /**
   The read loop of `main`: one read fills the buffer or returns the whole dump. The buffer is
   doubled until a read does not fill it, so the dump read is complete and fits.
   */
  method ReadDump(dump: seq<Byte>) returns (buf: seq<Byte>, bsz: nat)
    ensures buf == dump && |dump| < bsz
    ensures bsz == 8192 || bsz <= 2 * |dump|
  {
    bsz := 8192;
    var rd := if |dump| < bsz then |dump| else bsz;
    while rd == bsz
      invariant 0 < bsz && rd == if |dump| < bsz then |dump| else bsz
      invariant bsz == 8192 || bsz <= 2 * |dump|
      decreases |dump| - bsz
    {
      bsz := bsz * 2;
      rd := if |dump| < bsz then |dump| else bsz;
    }
    buf := dump[..rd];
  }

  /** Reading and decoding a dump of well-formed records recovers all of them, however large it is. */
  method ReadAndDecode(es: seq<Entry>) returns (entries: seq<Entry>)
    requires forall i :: 0 <= i < |es| ==> Wf(es[i])
    ensures entries == es
  {
    var buf, bsz := ReadDump(EncodeAll(es));
    var off;
    entries, off := ProcessLog(buf);
    assert EncodeAll(es) + [] == EncodeAll(es);
    RoundTrip(es, []);
  }
}
