/**
 The record stream of `lsock`: variable-length records, each padded to eight bytes by the
 kernel, decoded from reads that may end in the middle of a record.
 */
module RingBuf {
  import opened Seqs
  import opened Bytes

  /** sizeof(struct BpfData), and where its log type and its path length are. */
  const HEADER := 136
  const LOG_TYPE := 52
  const PATH_LEN := 132

  /** Why decoding stops. */
  datatype Stop =
    | Short       // less than a header is left
    | NeedMore    // the record at hand does not fit into what is left
    | Unknown     // its type is none of the five
    | Undefined   // its path length is between -136 and -1: the code would scan a reversed range
    | Overrun     // the padding reaches past the end, and the unsigned remaining size wraps

  datatype Dump = Accept(length: nat) | Reject(stop: Stop)

  /** `dump_log`: the length of an accepted record; everything else makes the caller stop. */
  function DumpLog(buf: seq<Byte>): (d: Dump)
    requires |buf| >= HEADER
    ensures d.Accept? ==> HEADER <= d.length <= |buf|
    ensures d.Reject? ==> d.stop.NeedMore? || d.stop.Unknown? || d.stop.Undefined?
  {
    var t := Le(buf[LOG_TYPE..LOG_TYPE + 4]);
    if t == 0 then
      var plen := I32(buf[PATH_LEN..PATH_LEN + 4]);
      // Below -136 the sum wraps to a size_t larger than any buffer.
      if plen < -HEADER || HEADER + plen > |buf| then Reject(NeedMore)
      else if plen < 0 then Reject(Undefined)
      else Accept(HEADER + plen)
    else if t <= 4 then Accept(HEADER)
    else Reject(Unknown)
  }

  /** The next multiple of eight. */
  function Padded(n: nat): (r: nat)
    ensures n <= r < n + 8
  {
    if n == 0 then 0 else if n <= 8 then 8 else 8 + Padded(n - 8)
  }

  lemma {:induction false} PaddedFormula(n: nat)
    ensures Padded(n) == if n % 8 != 0 then n + 8 - n % 8 else n
    ensures Padded(n) % 8 == 0
  {
    if n > 8 {
      PaddedFormula(n - 8);
    }
  }

  /** A path as printed: every NUL but a final one shown as `@`. */
  function ShowPath(path: seq<Byte>): (r: seq<Byte>)
    ensures |r| == |path|
    ensures forall i :: 0 <= i < |path| ==> r[i] == if i < |path| - 1 && path[i] == 0 then 64 else path[i]
  {
    seq(|path|, i requires 0 <= i < |path| => if i < |path| - 1 && path[i] == 0 then 64 else path[i])
  }

  datatype Record = Record(header: seq<Byte>, path: seq<Byte>)

  function RecordAt(buf: seq<Byte>, n: nat): Record
    requires HEADER <= n <= |buf|
  {
    Record(buf[..HEADER], ShowPath(buf[HEADER..n]))
  }

  datatype Decoded = Decoded(records: seq<Record>, left: seq<Byte>, stop: Stop)

  function Prepend(rs: seq<Record>, d: Decoded): Decoded {
    Decoded(rs + d.records, d.left, d.stop)
  }

  function Decode(buf: seq<Byte>): (d: Decoded)
    ensures |d.left| <= |buf|
  {
    if |buf| < HEADER then Decoded([], buf, Short)
    else
      match DumpLog(buf)
      case Reject(stop) => Decoded([], buf, stop)
      case Accept(n) =>
        if Padded(n) > |buf| then Decoded([RecordAt(buf, n)], buf, Overrun)
        else Prepend([RecordAt(buf, n)], Decode(buf[Padded(n)..]))
  }

  // ---------------------------------------------------------------- nothing is lost, nothing wraps

  lemma PaddedFits(n: nat, size: nat)
    requires n <= size && size % 8 == 0
    ensures Padded(n) <= size && (size - Padded(n)) % 8 == 0
  {
    PaddedFormula(n);
  }

  /** When the buffer length is a multiple of eight, the padding never reaches past the end. */
  lemma {:induction false} AlignedNeverOverruns(buf: seq<Byte>)
    requires |buf| % 8 == 0
    ensures Decode(buf).stop != Overrun && |Decode(buf).left| % 8 == 0
  {
    if |buf| >= HEADER && DumpLog(buf).Accept? {
      PaddedFits(DumpLog(buf).length, |buf|);
      AlignedNeverOverruns(buf[Padded(DumpLog(buf).length)..]);
    }
  }

  /** What is left over is the end of the buffer, untouched. */
  lemma {:induction false} LeftoverIsSuffix(buf: seq<Byte>)
    ensures Decode(buf).left == buf[|buf| - |Decode(buf).left|..]
  {
    if |buf| >= HEADER && DumpLog(buf).Accept? && Padded(DumpLog(buf).length) <= |buf| {
      LeftoverIsSuffix(buf[Padded(DumpLog(buf).length)..]);
    }
  }

  // ---------------------------------------------------------------- what the kernel writes

  /** A record as the kernel means it: a header and, for a Unix socket, a path. */
  datatype Log = Log(header: seq<Byte>, path: seq<Byte>)

  /** Four bytes of a header as a number, lowest first. */
  function FieldAt(header: seq<Byte>, i: nat): nat
    requires i + 4 <= |header|
  {
    header[i] as int + 0x100 * (header[i + 1] as int) + 0x1_0000 * (header[i + 2] as int) + 0x100_0000 * (header[i + 3] as int)
  }

  /** One of the five types; only type 0 has a path, and the header says how long it is. */
  predicate Proper(l: Log) {
    && |l.header| == HEADER && FieldAt(l.header, LOG_TYPE) <= 4
    && (if FieldAt(l.header, LOG_TYPE) == 0 then |l.path| == FieldAt(l.header, PATH_LEN) < 0x8000_0000 else l.path == [])
  }

  /** In memory the record is filled up with zeros to a multiple of eight. */
  function EncodeLog(l: Log): seq<Byte> {
    l.header + (l.path + Zeros((8 - |l.path| % 8) % 8))
  }

  function EncodeLogs(ls: seq<Log>): seq<Byte> {
    if ls == [] then [] else EncodeLog(ls[0]) + EncodeLogs(ls[1..])
  }

  /** What is printed of the records: header and path, inner NULs of the path as `@`. */
  function Printed(ls: seq<Log>): seq<Record> {
    if ls == [] then [] else [Record(ls[0].header, ShowPath(ls[0].path))] + Printed(ls[1..])
  }

  lemma FieldOf(header: seq<Byte>, rest: seq<Byte>, i: nat)
    requires i + 4 <= |header|
    ensures Le((header + rest)[i..i + 4]) == FieldAt(header, i)
  {
    LeFour((header + rest)[i..i + 4]);
  }

  lemma PaddedLog(n: nat)
    ensures Padded(HEADER + n) == HEADER + n + (8 - n % 8) % 8
  {
    PaddedFormula(HEADER + n);
    assert (HEADER + n) % 8 == n % 8;
  }

  lemma FirstLog(l: Log, rest: seq<Byte>)
    requires Proper(l)
    ensures var buf := EncodeLog(l) + rest;
            && |buf| >= HEADER && DumpLog(buf) == Accept(HEADER + |l.path|)
            && RecordAt(buf, HEADER + |l.path|) == Record(l.header, ShowPath(l.path))
            && Padded(HEADER + |l.path|) == |EncodeLog(l)| && buf[|EncodeLog(l)|..] == rest
  {
    var n := |l.path|;
    var pad := Zeros((8 - n % 8) % 8);
    var buf := EncodeLog(l) + rest;
    var more := l.path + pad + rest;
    assert buf == l.header + more;
    FieldOf(l.header, more, LOG_TYPE);
    FieldOf(l.header, more, PATH_LEN);
    assert buf[..HEADER] == l.header;
    assert buf[HEADER..HEADER + n] == l.path;
    PaddedLog(n);
    SliceRight(EncodeLog(l), rest);
  }

  /** Decoding inverts what the kernel writes, whatever follows. */
  lemma {:induction false} LogsDecoded(ls: seq<Log>, tail: seq<Byte>)
    requires forall i :: 0 <= i < |ls| ==> Proper(ls[i])
    ensures Decode(EncodeLogs(ls) + tail) == Prepend(Printed(ls), Decode(tail))
  {
    if ls == [] {
      assert EncodeLogs(ls) + tail == tail;
      assert Printed(ls) + Decode(tail).records == Decode(tail).records;
    } else {
      var more := EncodeLogs(ls[1..]) + tail;
      Assoc(EncodeLog(ls[0]), EncodeLogs(ls[1..]), tail);
      FirstLog(ls[0], more);
      LogsDecoded(ls[1..], tail);
      Assoc([Record(ls[0].header, ShowPath(ls[0].path))], Printed(ls[1..]), Decode(tail).records);
    }
  }

  /** So a whole stream of records comes back, and a tail shorter than a header is left for the next read. */
  lemma RoundTrip(ls: seq<Log>, tail: seq<Byte>)
    requires (forall i :: 0 <= i < |ls| ==> Proper(ls[i])) && |tail| < HEADER
    ensures Decode(EncodeLogs(ls) + tail) == Decoded(Printed(ls), tail, Short)
  {
    LogsDecoded(ls, tail);
    assert Printed(ls) + [] == Printed(ls);
  }

  /** At a header of another type the decoding stops for good, and at a path that is not all there it waits. */
  lemma StopsAt(header: seq<Byte>, rest: seq<Byte>)
    requires |header| == HEADER
    ensures FieldAt(header, LOG_TYPE) > 4 ==> Decode(header + rest) == Decoded([], header + rest, Unknown)
    ensures FieldAt(header, LOG_TYPE) == 0 && |rest| < FieldAt(header, PATH_LEN) < 0x8000_0000 ==>
              Decode(header + rest) == Decoded([], header + rest, NeedMore)
  {
    FieldOf(header, rest, LOG_TYPE);
    FieldOf(header, rest, PATH_LEN);
  }

  // ---------------------------------------------------------------- which buffers the code leaves

  /** What `dump_log` is called on: the rest of the buffer at each record the decoding meets. */
  function Met(buf: seq<Byte>): seq<seq<Byte>> {
    if |buf| < HEADER then []
    else
      match DumpLog(buf)
      case Reject(_) => [buf]
      case Accept(n) => if Padded(n) > |buf| then [buf] else [buf] + Met(buf[Padded(n)..])
  }

  /** A Unix record with a negative path length that still passes the size test, since the sum is not negative. */
  predicate Backwards(log: seq<Byte>)
    requires |log| >= HEADER
  {
    Le(log[LOG_TYPE..LOG_TYPE + 4]) == 0 && -HEADER <= I32(log[PATH_LEN..PATH_LEN + 4]) < 0
  }

  /** A record that fits while its padding does not. */
  predicate PaddingCut(log: seq<Byte>)
    requires |log| >= HEADER
  {
    DumpLog(log).Accept? && Padded(DumpLog(log).length) > |log|
  }

  /**
   For every buffer: the code scans backwards exactly when a record that is met has a path
   length in -136..-1, and its remaining size wraps exactly when the padding of one is cut.
   */
  lemma {:induction false} UndefinedExact(buf: seq<Byte>)
    ensures Decode(buf).stop == Undefined <==> exists log :: log in Met(buf) && |log| >= HEADER && Backwards(log)
    ensures Decode(buf).stop == Overrun <==> exists log :: log in Met(buf) && |log| >= HEADER && PaddingCut(log)
  {
    if |buf| >= HEADER {
      assert buf in Met(buf);
      assert Backwards(buf) <==> DumpLog(buf) == Reject(Undefined);
      if DumpLog(buf).Accept? && !PaddingCut(buf) {
        UndefinedExact(buf[Padded(DumpLog(buf).length)..]);
      }
    }
  }

  // Buffers that show the conditions below to be exact.

  lemma LeLow(b: Byte)
    ensures Le([b, 0, 0, 0]) == b
  {
    assert [b, 0, 0, 0][1..] == [0, 0, 0] && [0, 0, 0][1..] == [0, 0] && [0, 0][1..] == [0] && [0][1..] == [];
  }

  /** A Unix record that fills a buffer of a given length exactly. */
  function Filling(n: nat): (buf: seq<Byte>)
    requires HEADER <= n < 2 * HEADER
    ensures |buf| == n
  {
    seq(n, i => if i == PATH_LEN then n - HEADER else 0)
  }

  lemma FillingFits(n: nat)
    requires HEADER <= n < 2 * HEADER
    ensures DumpLog(Filling(n)) == Accept(n)
  {
    var buf := Filling(n);
    assert buf[LOG_TYPE..LOG_TYPE + 4] == [0, 0, 0, 0];
    assert buf[PATH_LEN..PATH_LEN + 4] == [n - HEADER, 0, 0, 0];
    LeLow(0);
    LeLow(n - HEADER);
  }

  /** A header of a type that has no path. */
  function Bare(): (buf: seq<Byte>)
    ensures |buf| == HEADER
  {
    seq(HEADER, i => if i == LOG_TYPE then 1 else 0)
  }

  lemma BareFits(rest: seq<Byte>)
    ensures DumpLog(Bare() + rest) == Accept(HEADER) && Padded(HEADER) == HEADER
    ensures (Bare() + rest)[HEADER..] == rest
  {
    assert (Bare() + rest)[LOG_TYPE..LOG_TYPE + 4] == [1, 0, 0, 0];
    LeLow(1);
    PaddedFormula(HEADER);
  }

  /** Headers without a path, and a record that ends where the buffer does. */
  function Stuffed(n: nat): (buf: seq<Byte>)
    requires n >= HEADER
    ensures |buf| == n
  {
    if n < 2 * HEADER then Filling(n) else Bare() + Stuffed(n - HEADER)
  }

  lemma {:induction false} StuffedOverruns(n: nat)
    requires n >= HEADER && n % 8 != 0
    ensures Decode(Stuffed(n)).stop == Overrun
  {
    if n < 2 * HEADER {
      FillingFits(n);
      PaddedFormula(n);
    } else {
      assert (n - HEADER) % 8 == n % 8;
      BareFits(Stuffed(n - HEADER));
      StuffedOverruns(n - HEADER);
    }
  }

  /**
   Alignment is exactly what keeps the remaining size from wrapping: buffers of a given length
   never overrun if and only if that length is a multiple of eight or too short for any record.
   */
  lemma OverrunIffMisaligned(n: nat)
    ensures (forall buf: seq<Byte> :: |buf| == n ==> Decode(buf).stop != Overrun) <==> n % 8 == 0 || n < HEADER
  {
    if n % 8 == 0 || n < HEADER {
      forall buf: seq<Byte> | |buf| == n ensures Decode(buf).stop != Overrun {
        if n % 8 == 0 {
          AlignedNeverOverruns(buf);
        }
      }
    } else {
      StuffedOverruns(n);
    }
  }

  /** One Unix record with path length -1, in a buffer of any length. */
  function Negative(n: nat): (buf: seq<Byte>)
    requires n >= HEADER
    ensures |buf| == n
  {
    seq(n, i => if PATH_LEN <= i < PATH_LEN + 4 then 255 else 0)
  }

  lemma NegativeScans(n: nat)
    requires n >= HEADER
    ensures I32(Negative(n)[PATH_LEN..PATH_LEN + 4]) == -1 && Decode(Negative(n)).stop == Undefined
  {
    var buf := Negative(n);
    assert buf[LOG_TYPE..LOG_TYPE + 4] == [0, 0, 0, 0];
    LeLow(0);
    var w: seq<Byte> := [255, 255, 255, 255];
    assert buf[PATH_LEN..PATH_LEN + 4] == w;
    assert w[1..] == [255, 255, 255] && w[1..][1..] == [255, 255] && w[1..][1..][1..] == [255] && w[1..][1..][1..][1..] == [];
    assert Le([255]) == 255 && Le([255, 255]) == 255 + 256 * Le([255]) && Le(w[1..]) == 255 + 256 * Le([255, 255]);
    assert Le(w) == 0xffff_ffff;
  }

  /**
   Alignment does not keep the code inside its buffer: a negative path length makes it scan past
   the end in an aligned buffer too. Only a buffer too short for any record is always safe.
   */
  lemma AlwaysInsideIffShort(n: nat)
    ensures (forall buf: seq<Byte> :: |buf| == n ==> Decode(buf).stop != Overrun && Decode(buf).stop != Undefined) <==> n < HEADER
  {
    if n >= HEADER {
      NegativeScans(n);
    }
  }

  /** The smallest failing input: an aligned buffer of one header. */
  lemma AlignedScansPast()
    ensures |Negative(HEADER)| % 8 == 0 && Decode(Negative(HEADER)).stop == Undefined
  {
    NegativeScans(HEADER);
  }

  // ---------------------------------------------------------------- incremental decoding

  lemma DumpSame(a: seq<Byte>, b: seq<Byte>)
    requires |a| >= HEADER
    ensures DumpLog(a).Accept? ==> DumpLog(a + b) == DumpLog(a)
    ensures DumpLog(a).Accept? ==> RecordAt(a + b, DumpLog(a).length) == RecordAt(a, DumpLog(a).length)
  {
    SliceLeft(a, b, LOG_TYPE, LOG_TYPE + 4);
    SliceLeft(a, b, PATH_LEN, PATH_LEN + 4);
    if DumpLog(a).Accept? {
      var n := DumpLog(a).length;
      SliceLeft(a, b, 0, HEADER);
      SliceLeft(a, b, HEADER, n);
    }
  }

  /**
   Decoding two reads in a row is decoding them at once: the records of `a ++ b` are those of
   `a` followed by those of what `a` left over with `b` behind it, and both end the same way.
   */
  lemma {:induction false} Incremental(a: seq<Byte>, b: seq<Byte>)
    requires Decode(a).stop != Overrun
    ensures Decode(a + b) == Prepend(Decode(a).records, Decode(Decode(a).left + b))
  {
    if |a| >= HEADER && DumpLog(a).Accept? {
      DumpSame(a, b);
      var m := Padded(DumpLog(a).length);
      assert (a + b)[m..] == a[m..] + b;
      Incremental(a[m..], b);
      Assoc([RecordAt(a, DumpLog(a).length)], Decode(a[m..]).records, Decode(Decode(a[m..]).left + b).records);
    }
  }

  function Concat(chunks: seq<seq<Byte>>): seq<Byte> {
    if chunks == [] then [] else Concat(chunks[..|chunks| - 1]) + chunks[|chunks| - 1]
  }

  /** Reading chunk after chunk, each time putting the leftover in front of the next chunk. */
  function Feed(chunks: seq<seq<Byte>>): Decoded {
    if chunks == [] then Decode([])
    else
      var before := Feed(chunks[..|chunks| - 1]);
      Prepend(before.records, Decode(before.left + chunks[|chunks| - 1]))
  }

  lemma {:induction false} ConcatAligned(chunks: seq<seq<Byte>>)
    requires forall i :: 0 <= i < |chunks| ==> |chunks[i]| % 8 == 0
    ensures |Concat(chunks)| % 8 == 0
  {
    if chunks != [] {
      ConcatAligned(chunks[..|chunks| - 1]);
      assert |chunks[|chunks| - 1]| % 8 == 0;
    }
  }

  /** However a stream is cut into reads of whole eight-byte words, the records are those of the whole stream. */
  lemma {:induction false} ChunksDoNotMatter(chunks: seq<seq<Byte>>)
    requires forall i :: 0 <= i < |chunks| ==> |chunks[i]| % 8 == 0
    ensures Feed(chunks) == Decode(Concat(chunks))
  {
    if chunks != [] {
      var init := chunks[..|chunks| - 1];
      ChunksDoNotMatter(init);
      ConcatAligned(init);
      AlignedNeverOverruns(Concat(init));
      Incremental(Concat(init), chunks[|chunks| - 1]);
    }
  }

  // ---------------------------------------------------------------- the loop

  lemma ShowPathInPlace(buf: seq<Byte>, before: seq<Byte>, n: nat)
    requires HEADER <= n <= |before| == |buf|
    requires forall i :: 0 <= i < |buf| ==>
                           buf[i] == if HEADER <= i < n - 1 && before[i] == 0 then 64 else before[i]
    ensures buf[..HEADER] == before[..HEADER] && buf[HEADER..n] == ShowPath(before[HEADER..n]) && buf[n..] == before[n..]
  {
    var shown := ShowPath(before[HEADER..n]);
    forall i | 0 <= i < n - HEADER ensures buf[HEADER..n][i] == shown[i] {
      assert before[HEADER..n][i] == before[HEADER + i];
    }
  }

  /** The `std::replace` of `dump_log`, on the record that starts at `off`. */
  method ReplaceNuls(buf: array<Byte>, off: nat, n: nat)
    requires HEADER <= n && off + n <= buf.Length
    modifies buf
    ensures buf[..off] == old(buf[..off])
    ensures RecordAt(old(buf[off..]), n) == Record(buf[off..off + HEADER], buf[off + HEADER..off + n])
    ensures buf[off + n..] == old(buf[off + n..])
  {
    ghost var before := buf[off..];
    var i := HEADER;
    while i < n - 1
      invariant HEADER <= i && (i <= n - 1 || i == HEADER)
      invariant forall k :: 0 <= k < off ==> buf[k] == old(buf[k])
      invariant forall k :: 0 <= k < |before| ==>
                              buf[off + k] == if HEADER <= k < i && before[k] == 0 then 64 else before[k]
    {
      if buf[off + i] == 0 {
        buf[off + i] := 64;
      }
      i := i + 1;
    }
    ShowPathInPlace(buf[off..], before, n);
    assert buf[off..][n..] == buf[off + n..];
    assert before[n..] == old(buf[off + n..]);
    assert buf[off..][..HEADER] == buf[off..off + HEADER];
    assert buf[off..][HEADER..n] == buf[off + HEADER..off + n];
  }

  lemma DecodeStep(buf: seq<Byte>, done: seq<Record>)
    requires |buf| >= HEADER && DumpLog(buf).Accept? && Padded(DumpLog(buf).length) <= |buf|
    ensures Prepend(done, Decode(buf)) ==
            Prepend(done + [RecordAt(buf, DumpLog(buf).length)], Decode(buf[Padded(DumpLog(buf).length)..]))
  {
    Assoc(done, [RecordAt(buf, DumpLog(buf).length)], Decode(buf[Padded(DumpLog(buf).length)..]).records);
  }

  /** What the decoder does when the loop stops: how much is left, and why. */
  lemma DecodeEnd(buf: seq<Byte>, done: seq<Record>)
    ensures |buf| < HEADER ==> Prepend(done, Decode(buf)) == Decoded(done, buf, Short)
    ensures |buf| >= HEADER && DumpLog(buf).Reject? ==> Prepend(done, Decode(buf)) == Decoded(done, buf, DumpLog(buf).stop)
    ensures |buf| >= HEADER && DumpLog(buf).Accept? && Padded(DumpLog(buf).length) > |buf| ==>
              Prepend(done, Decode(buf)) == Decoded(done + [RecordAt(buf, DumpLog(buf).length)], buf, Overrun)
  {
    assert done + [] == done;
  }

  /** Print the record at `off`; `m` bytes further on, nothing has changed. */
  method TakeRecord(buf: array<Byte>, off: nat, n: nat, ghost m: nat) returns (r: Record)
    requires HEADER <= n <= m && off + n <= buf.Length
    modifies buf
    ensures r == RecordAt(old(buf[off..]), n)
    ensures off + m <= buf.Length ==> buf[off + m..] == old(buf[off..])[m..]
  {
    ReplaceNuls(buf, off, n);
    r := Record(buf[off..off + HEADER], buf[off + HEADER..off + n]);
    if off + m <= buf.Length {
      assert buf[off + m..] == buf[off + n..][m - n..];
      assert old(buf[off..])[m..] == old(buf[off + n..])[m - n..];
    }
  }

  /** After printing some records, what the rest of the buffer decodes to completes `all`. */
  ghost predicate Continues(all: Decoded, done: seq<Record>, rest: seq<Byte>) {
    Prepend(done, Decode(rest)) == all
  }

  /** An accepted record of length `n`: it is printed, and its length is rounded up to a multiple of eight. */
  method Accepted(buf: array<Byte>, off: nat, n: nat, records: seq<Record>, ghost all: Decoded)
    returns (llen: nat, records': seq<Record>)
    requires off + HEADER <= buf.Length && Continues(all, records, buf[off..]) && DumpLog(buf[off..]) == Accept(n)
    modifies buf
    ensures 0 < llen
    ensures off + llen <= buf.Length ==> Continues(all, records', buf[off + llen..])
    ensures off + llen > buf.Length ==> all.records == records' && all.stop == Overrun
  {
    llen := RoundUp(n);
    ContinuesStep(all, records, buf[off..], n);
    var r := TakeRecord(buf, off, n, llen);
    records' := records + [r];
  }

  /** The length of a record in memory. */
  method RoundUp(n: nat) returns (llen: nat)
    ensures llen == Padded(n)
  {
    PaddedFormula(n);
    llen := n;
    if llen % 8 != 0 {
      llen := llen + 8 - llen % 8;
    }
  }

  lemma ContinuesStep(all: Decoded, done: seq<Record>, log: seq<Byte>, n: nat)
    requires |log| >= HEADER && Continues(all, done, log) && DumpLog(log) == Accept(n)
    ensures Padded(n) <= |log| ==> Continues(all, done + [RecordAt(log, n)], log[Padded(n)..])
    ensures Padded(n) > |log| ==> all.records == done + [RecordAt(log, n)] && all.stop == Overrun
  {
    if Padded(n) <= |log| {
      DecodeStep(log, done);
    } else {
      DecodeEnd(log, done);
    }
  }

  /** How one round of the loop ends. */
  datatype Round = Went(llen: nat) | Stopped(stop: Stop)

  /** The body of the loop at `off`. */
  method NextRecord(buf: array<Byte>, off: nat, records: seq<Record>, ghost all: Decoded)
    returns (round: Round, records': seq<Record>)
    requires off + HEADER <= buf.Length && Continues(all, records, buf[off..])
    modifies buf
    ensures round.Went? ==> 0 < round.llen <= buf.Length - off && Continues(all, records', buf[off + round.llen..])
    ensures round.Stopped? ==> all.records == records' && all.stop == round.stop
    ensures round.Stopped? && round.stop != Overrun ==> all.left == buf[off..]
  {
    var d := DumpLog(buf[off..]);
    if d.Reject? {
      DecodeEnd(buf[off..], records);
      return Stopped(d.stop), records;
    }
    var llen;
    llen, records' := Accepted(buf, off, d.length, records, all);
    round := if off + llen > buf.Length then Stopped(Overrun) else Went(llen);
  }

  /**
   `process_ring_buf`: it decodes the buffer, showing paths in place. Unless the remaining size
   wraps, it returns the number of bytes left over, and those bytes are unchanged.
   */
  method ProcessRingBuf(buf: array<Byte>) returns (bsz: nat, records: seq<Record>, stop: Stop)
    modifies buf
    ensures records == Decode(old(buf[..])).records && stop == Decode(old(buf[..])).stop
    ensures bsz <= buf.Length
    ensures stop != Overrun ==> buf[buf.Length - bsz..] == Decode(old(buf[..])).left
  {
    assert buf[0..] == buf[..];
    bsz, records, stop := ProcessAll(buf, Decode(buf[..]));
  }

  method ProcessAll(buf: array<Byte>, ghost all: Decoded) returns (bsz: nat, records: seq<Record>, stop: Stop)
    requires Continues(all, [], buf[0..])
    modifies buf
    ensures records == all.records && stop == all.stop && bsz <= buf.Length
    ensures stop != Overrun ==> buf[buf.Length - bsz..] == all.left
  {
    var off := 0;
    bsz, records, stop := buf.Length, [], Short;
    while bsz >= HEADER
      invariant off + bsz == buf.Length
      invariant Continues(all, records, buf[off..])
      decreases bsz
    {
      var round;
      round, records := NextRecord(buf, off, records, all);
      if round.Stopped? {
        stop := round.stop;
        return;
      }
      bsz := bsz - round.llen;
      off := off + round.llen;
    }
    DecodeEnd(buf[off..], records);
  }
}
