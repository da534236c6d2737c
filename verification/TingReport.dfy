/** ting's feedback reports: appended to a message buffer, and iterated over by the receiver. */
module TingReports {

  type Byte = x: int | 0 <= x < 256

  const HEADER: nat := 12         // bytes before the first report
  const FIXED_WORDS: nat := 6     // words of a report besides the address

  const WORD_SPACE: nat := 0x1_0000_0000

  /** A 32-bit field keeps the low 32 bits of what is stored. */
  function Word32(x: int): (w: nat)
    ensures w < WORD_SPACE
  {
    x % 0x1_0000_0000
  }

  /** Network byte order. */
  function Put16(x: nat): (b: seq<Byte>)
    requires x < 0x1_0000
    ensures |b| == 2
  {
    [x / 0x100, x % 0x100]
  }

  function Put32(x: nat): (b: seq<Byte>)
    requires x < WORD_SPACE
    ensures |b| == 4
  {
    Put16(x / 0x1_0000) + Put16(x % 0x1_0000)
  }

  function Get16(b: seq<Byte>, at: nat): nat
    requires at + 2 <= |b|
  {
    var high: int := b[at];
    0x100 * high + b[at + 1]
  }

  function Get32(b: seq<Byte>, at: nat): nat
    requires at + 4 <= |b|
  {
    0x1_0000 * Get16(b, at) + Get16(b, at + 2)
  }

  /** Reading a 32-bit field back, wherever it was written. */
  lemma GetPut32(b: seq<Byte>, at: nat, x: nat)
    requires at + 4 <= |b| && x < WORD_SPACE && b[at..at + 4] == Put32(x)
    ensures Get32(b, at) == x
  {
    var w := b[at..at + 4];
    assert b[at] == w[0] && b[at + 1] == w[1] && b[at + 2] == w[2] && b[at + 3] == w[3];
    assert w[0] == Put16(x / 0x1_0000)[0] && w[1] == Put16(x / 0x1_0000)[1];
    assert w[2] == Put16(x % 0x1_0000)[0] && w[3] == Put16(x % 0x1_0000)[1];
  }

  datatype Kind = IPv4 | IPv6

  /** A report as the application sees it; the host address is raw bytes. */
  datatype Report = Report(kind: Kind, host: seq<Byte>, port: nat, roundId: Byte,
                           refSec: nat, refUsec: nat, obsSec: nat, obsUsec: nat, rtt: nat) {

    predicate Valid() {
      && |host| == (if kind.IPv4? then 4 else 16) && port < 0x1_0000
      && refSec < WORD_SPACE && refUsec < WORD_SPACE && obsSec < WORD_SPACE
      && obsUsec < WORD_SPACE && rtt < WORD_SPACE
    }

    function Words(): nat {
      (if kind.IPv4? then 1 else 4) + FIXED_WORDS
    }
  }

  /** The wire format. */
  function Encode(r: Report): (b: seq<Byte>)
    requires r.Valid()
    ensures |b| == 4 * r.Words()
  {
    [r.Words()] + [r.roundId] + Put16(r.port) + r.host +
    Put32(r.refSec) + Put32(r.refUsec) + Put32(r.obsSec) + Put32(r.obsUsec) + Put32(r.rtt)
  }

  /** An address object: new ones are invalid and have port zero. */
  datatype Address = Invalid | Host(kind: Kind, bytes: seq<Byte>, port: nat)

  /** What the getters of a report yield: GetSrcAddress returns `ok` and sets `address`. */
  datatype Fields = Fields(ok: bool, address: Address, roundId: Byte,
                           refSec: nat, refUsec: nat, obsSec: nat, obsUsec: nat, rtt: nat)

  function AddressLength(words: nat): nat {
    if words > FIXED_WORDS then 4 * (words - FIXED_WORDS) else 0
  }

  /** GetSrcAddress into a new address object. The case of 16 bytes sets the host and runs on into the
      error case, before the port is set. */
  function DecodeAddress(b: seq<Byte>, at: nat): (bool, Address)
    requires at < |b| && at + 4 + AddressLength(b[at]) <= |b|
  {
    var len := AddressLength(b[at]);
    if len == 4 then (true, Host(IPv4, b[at + 4..at + 8], Get16(b, at + 2)))
    else if len == 16 then (false, Host(IPv6, b[at + 4..at + 20], 0))
    else (false, Invalid)
  }

  /** The getters on the report at `at`, of the length its first byte says. */
  function Decode(b: seq<Byte>, at: nat): Fields
    requires at < |b| && at + 4 + AddressLength(b[at]) + 20 <= |b|
  {
    var t := at + 4 + AddressLength(b[at]);
    var (ok, address) := DecodeAddress(b, at);
    Fields(ok, address, b[at + 1],
           Get32(b, t), Get32(b, t + 4), Get32(b, t + 8), Get32(b, t + 12), Get32(b, t + 16))
  }

  /** What the receiver gets of a report that was sent: all of it but the port, and the success, of an
      IPv6 address. */
  function Received(r: Report): Fields {
    Fields(r.kind.IPv4?, Host(r.kind, r.host, if r.kind.IPv4? then r.port else 0), r.roundId,
           r.refSec, r.refUsec, r.obsSec, r.obsUsec, r.rtt)
  }

  /** The getters yield what was stored; of an IPv6 host they leave out the port, and report failure. */
  ghost predicate Seen(f: Fields, r: Report) {
    && f.roundId == r.roundId && f.refSec == r.refSec && f.refUsec == r.refUsec
    && f.obsSec == r.obsSec && f.obsUsec == r.obsUsec && f.rtt == r.rtt
    && f.address.Host? && f.address.kind == r.kind && f.address.bytes == r.host
    && (f.ok <==> r.kind == IPv4) && f.address.port == (if r.kind == IPv4 then r.port else 0)
  }

  lemma ReceivedSeen(rs: seq<Report>)
    ensures forall i :: 0 <= i < |rs| ==> Seen(Received(rs[i]), rs[i])
  {
  }

  /** Where the wire format puts each field. */
  lemma EncodeParts(r: Report)
    requires r.Valid()
    ensures var e, t := Encode(r), 4 + |r.host|;
      && |e| == t + 20 && e[0] == r.Words() && e[1] == r.roundId && e[2..4] == Put16(r.port) && e[4..t] == r.host
      && e[t..t + 4] == Put32(r.refSec) && e[t + 4..t + 8] == Put32(r.refUsec) && e[t + 8..t + 12] == Put32(r.obsSec)
      && e[t + 12..t + 16] == Put32(r.obsUsec) && e[t + 16..t + 20] == Put32(r.rtt)
  {
    hide Put16, Put32;
    var e, t := Encode(r), 4 + |r.host|;
    var head := [r.Words()] + [r.roundId] + Put16(r.port) + r.host;
    var times := Put32(r.refSec) + Put32(r.refUsec) + Put32(r.obsSec) + Put32(r.obsUsec);
    assert e == head + times + Put32(r.rtt);
    assert e[..t] == head && e[t..t + 16] == times;
    assert e[2..4] == head[2..4] && e[4..t] == head[4..];
    assert e[t..t + 4] == times[..4] && e[t + 4..t + 8] == times[4..8];
    assert e[t + 8..t + 12] == times[8..12] && e[t + 12..t + 16] == times[12..];
  }

  lemma FieldAt(b: seq<Byte>, at: nat, e: seq<Byte>, i: nat, x: nat)
    requires at + |e| <= |b| && i + 4 <= |e| && x < WORD_SPACE && e[i..i + 4] == Put32(x)
    requires forall k :: 0 <= k < |e| ==> b[at + k] == e[k]
    ensures Get32(b, at + i) == x
  {
    assert b[at + i..at + i + 4] == e[i..i + 4];
    GetPut32(b, at + i, x);
  }

  /** The number in the four bytes at `i`, the most significant first. */
  ghost predicate Holds32(b: seq<Byte>, i: nat, x: nat) {
    && i + 4 <= |b|
    && 0x100_0000 * b[i] as int + 0x1_0000 * b[i + 1] as int + 0x100 * b[i + 2] as int + b[i + 3] as int == x
  }

  lemma Put32Holds(b: seq<Byte>, i: nat, x: nat)
    requires i + 4 <= |b| && x < WORD_SPACE && b[i..i + 4] == Put32(x)
    ensures Holds32(b, i, x)
  {
    GetPut32(b, i, x);
  }

  /** The wire format byte by byte: length in words, round id, port, host, then the five numbers. */
  lemma WireLayout(r: Report)
    requires r.Valid()
    ensures var e, t := Encode(r), if r.kind.IPv4? then 8 else 20;
      && |e| == t + 20 && e[0] == (if r.kind.IPv4? then 7 else 10) && e[1] == r.roundId
      && 0x100 * e[2] as int + e[3] as int == r.port && e[4..t] == r.host
      && Holds32(e, t, r.refSec) && Holds32(e, t + 4, r.refUsec) && Holds32(e, t + 8, r.obsSec)
      && Holds32(e, t + 12, r.obsUsec) && Holds32(e, t + 16, r.rtt)
  {
    hide Put32, Holds32, Encode;
    var e, t := Encode(r), 4 + |r.host|;
    EncodeParts(r);
    assert e[2] == e[2..4][0] && e[3] == e[2..4][1];
    Put32Holds(e, t, r.refSec);
    Put32Holds(e, t + 4, r.refUsec);
    Put32Holds(e, t + 8, r.obsSec);
    Put32Holds(e, t + 12, r.obsUsec);
    Put32Holds(e, t + 16, r.rtt);
  }

  /** A 32-bit field holds a number that fits as it is, and of any other the part below 2^32. */
  ghost predicate Kept(x: int, w: nat) {
    w < 0x1_0000_0000 && (0 <= x < 0x1_0000_0000 ==> w == x) && (x - w) % 0x1_0000_0000 == 0
  }

  lemma Word32Keeps(x: int)
    ensures Kept(x, Word32(x))
  {
  }

  lemma AllKept(refSec: int, refUsec: int, obsSec: int, obsUsec: int, rtt: int)
    ensures Kept(refSec, Word32(refSec)) && Kept(refUsec, Word32(refUsec)) && Kept(obsSec, Word32(obsSec))
    ensures Kept(obsUsec, Word32(obsUsec)) && Kept(rtt, Word32(rtt))
  {
    hide *;
    Word32Keeps(refSec);
    Word32Keeps(refUsec);
    Word32Keeps(obsSec);
    Word32Keeps(obsUsec);
    Word32Keeps(rtt);
  }

  /** Decoding undoes encoding at any place of a buffer, but for the port of an IPv6 address. */
  lemma DecodeEncode(b: seq<Byte>, at: nat, r: Report)
    requires r.Valid() && at + 4 * r.Words() <= |b| && b[at..at + 4 * r.Words()] == Encode(r)
    ensures b[at] == r.Words() && Decode(b, at) == Received(r)
  {
    hide Get32, Put32, Encode;
    var e, t := Encode(r), 4 + |r.host|;
    EncodeParts(r);
    forall i | 0 <= i < |e| ensures b[at + i] == e[i] {
      assert b[at..at + 4 * r.Words()][i] == e[i];
    }
    FieldAt(b, at, e, t, r.refSec);
    FieldAt(b, at, e, t + 4, r.refUsec);
    FieldAt(b, at, e, t + 8, r.obsSec);
    FieldAt(b, at, e, t + 12, r.obsUsec);
    FieldAt(b, at, e, t + 16, r.rtt);
    assert Get16(b, at + 2) == r.port by {
      assert b[at + 2] == e[2..4][0] && b[at + 3] == e[2..4][1];
    }
    assert b[at + 4..at + t] == e[4..t];
  }

  /** The host always survives the trip; port and success do exactly for IPv4, or a port of zero. */
  lemma HostRoundTrips(b: seq<Byte>, at: nat, r: Report)
    requires r.Valid() && at + 4 * r.Words() <= |b| && b[at..at + 4 * r.Words()] == Encode(r)
    ensures var f := Decode(b, at);
            && f.address.Host? && f.address.kind == r.kind && f.address.bytes == r.host
            && (f.ok <==> r.kind.IPv4?) && (f.address.port == r.port <==> r.kind.IPv4? || r.port == 0)
  {
    DecodeEncode(b, at, r);
    hide Decode, Encode;
  }

  ghost predicate AllValid(rs: seq<Report>) {
    forall i :: 0 <= i < |rs| ==> rs[i].Valid()
  }

  function EncodeAll(rs: seq<Report>): seq<Byte>
    requires AllValid(rs)
  {
    if rs == [] then [] else EncodeAll(rs[..|rs| - 1]) + Encode(rs[|rs| - 1])
  }

  /** Where report `k` of a message starts. */
  ghost function Boundary(rs: seq<Report>, k: nat): nat
    requires AllValid(rs) && k <= |rs|
  {
    HEADER + |EncodeAll(rs[..k])|
  }

  /** Report `k` sits between its boundary and the next. */
  lemma {:induction false} ReportAt(b: seq<Byte>, rs: seq<Report>, k: nat)
    requires AllValid(rs) && k < |rs| && HEADER + |EncodeAll(rs)| <= |b|
    requires b[HEADER..HEADER + |EncodeAll(rs)|] == EncodeAll(rs)
    ensures Boundary(rs, k + 1) == Boundary(rs, k) + 4 * rs[k].Words() <= HEADER + |EncodeAll(rs)|
    ensures b[Boundary(rs, k)..Boundary(rs, k + 1)] == Encode(rs[k])
    ensures Boundary(rs, 0) == HEADER && Boundary(rs, |rs|) == HEADER + |EncodeAll(rs)|
    decreases |rs|
  {
    hide Encode, Report.Words;
    var front, last := rs[..|rs| - 1], rs[|rs| - 1];
    var all, part := EncodeAll(rs), EncodeAll(front);
    var body := b[HEADER..HEADER + |all|];
    assert rs[..|rs|] == rs && all == part + Encode(last);
    if k < |rs| - 1 {
      assert front[..k] == rs[..k] && front[..k + 1] == rs[..k + 1];
      assert b[HEADER..HEADER + |part|] == body[..|part|] == part;
      ReportAt(b, front, k);
    } else {
      assert b[HEADER + |part|..HEADER + |all|] == body[|part|..] == Encode(last);
    }
  }

  /** A report encoded behind the others extends the message by one report. */
  lemma Appended(before: seq<Byte>, after: seq<Byte>, length: nat, rs: seq<Report>, r: Report)
    requires AllValid(rs) && r.Valid() && HEADER <= length <= |before| == |after| && length + 4 * r.Words() <= |after|
    requires before[HEADER..length] == EncodeAll(rs) && after[..length] == before[..length]
    requires after[length..length + 4 * r.Words()] == Encode(r)
    ensures AllValid(rs + [r]) && |EncodeAll(rs + [r])| == |EncodeAll(rs)| + 4 * r.Words()
    ensures after[HEADER..length + 4 * r.Words()] == EncodeAll(rs + [r])
  {
    hide Encode, Report.Words;
    assert (rs + [r])[..|rs|] == rs;
    assert after[HEADER..length] == after[..length][HEADER..] == before[..length][HEADER..];
    assert after[HEADER..length + 4 * r.Words()] == after[HEADER..length] + after[length..length + 4 * r.Words()];
  }

  /** The report object of the receiver: where the last report it held starts. */
  datatype Cursor = NoReport | At(offset: nat)

  class TingMessage {
    const buffer: array<Byte>
    var pktLength: nat
    ghost var reports: seq<Report>

    /** The bytes behind the header are the encodings of the reports appended so far. */
    ghost predicate Valid()
      reads this, buffer
    {
      && AllValid(reports)
      && pktLength == HEADER + |EncodeAll(reports)| <= buffer.Length
      && buffer[HEADER..pktLength] == EncodeAll(reports)
    }

    constructor (numBytes: nat)
      requires numBytes >= HEADER
      ensures Valid() && reports == [] && pktLength == 12 && buffer.Length == numBytes && fresh(buffer)
    {
      buffer := new Byte[numBytes](_ => 0);
      pktLength, reports := HEADER, [];
    }

    /** Writes bytes at an offset. */
    method Put(at: nat, bytes: seq<Byte>)
      requires at + |bytes| <= buffer.Length
      modifies buffer
      ensures buffer[..at] == old(buffer[..at])
      ensures buffer[at..at + |bytes|] == bytes
      ensures buffer[at + |bytes|..] == old(buffer[at + |bytes|..])
    {
      forall k | 0 <= k < |bytes| { buffer[at + k] := bytes[k]; }
    }

    /** Writes bytes behind those written since `from`. */
    method Extend(from: nat, written: nat, bytes: seq<Byte>)
      requires from <= written && written + |bytes| <= buffer.Length
      modifies buffer
      ensures buffer[..from] == old(buffer[..from])
      ensures buffer[from..written + |bytes|] == old(buffer[from..written]) + bytes
    {
      Put(written, bytes);
      assert buffer[..from] == buffer[..written][..from];
      assert buffer[from..written] == buffer[..written][from..];
      assert buffer[from..written + |bytes|] == buffer[from..written] + buffer[written..written + |bytes|];
      assert old(buffer[..written][..from]) == old(buffer[..from]);
      assert old(buffer[..written][from..]) == old(buffer[from..written]);
    }

    /** AppendReport: written in full behind the last report, or refused for lack of room. */
    method AppendReport(kind: Kind, host: seq<Byte>, port: nat, roundId: Byte,
                        refSec: int, refUsec: int, obsSec: int, obsUsec: int, rtt: int) returns (ok: bool)
      requires Valid() && port < 0x1_0000 && |host| == (if kind.IPv4? then 4 else 16)
      modifies this, buffer
      ensures Valid() && ok == (old(pktLength) + |host| + 24 <= buffer.Length)
      ensures pktLength == old(pktLength) + if ok then |host| + 24 else 0
      ensures reports == if !ok then old(reports)
                         else old(reports) + [Report(kind, host, port, roundId, Word32(refSec), Word32(refUsec),
                                                     Word32(obsSec), Word32(obsUsec), Word32(rtt))]
      ensures ok ==> |reports| == |old(reports)| + 1 && reports[..|old(reports)|] == old(reports)
      ensures ok ==> var r := reports[|old(reports)|];
                && r.kind == kind && r.host == host && r.port == port && r.roundId == roundId
                && Kept(refSec, r.refSec) && Kept(refUsec, r.refUsec) && Kept(obsSec, r.obsSec)
                && Kept(obsUsec, r.obsUsec) && Kept(rtt, r.rtt)
    {
      AllKept(refSec, refUsec, obsSec, obsUsec, rtt);
      hide Encode, EncodeAll, Word32, Kept;
      var reportLength := |host| + 24;
      if reportLength > buffer.Length - pktLength {
        return false;
      }
      ghost var r := Report(kind, host, port, roundId, Word32(refSec), Word32(refUsec),
                            Word32(obsSec), Word32(obsUsec), Word32(rtt));
      ghost var before := buffer[..];
      WriteReport(pktLength, kind, host, port, roundId, refSec, refUsec, obsSec, obsUsec, rtt);
      Appended(before, buffer[..], pktLength, reports, r);
      pktLength := pktLength + reportLength;
      reports := reports + [r];
      return true;
    }

    /** The setters of Report, in the order AppendReport calls them. */
    method WriteReport(at: nat, kind: Kind, host: seq<Byte>, port: nat, roundId: Byte,
                       refSec: int, refUsec: int, obsSec: int, obsUsec: int, rtt: int)
      requires port < 0x1_0000 && |host| == (if kind.IPv4? then 4 else 16) && at + |host| + 24 <= buffer.Length
      modifies buffer
      ensures buffer[..at] == old(buffer[..at])
      ensures buffer[at..at + |host| + 24] ==
              Encode(Report(kind, host, port, roundId, Word32(refSec), Word32(refUsec),
                            Word32(obsSec), Word32(obsUsec), Word32(rtt)))
    {
      hide Put16, Put32, Word32;
      var words := FIXED_WORDS + (if kind.IPv4? then 1 else 4);
      var t := at + 4 + |host|;
      WriteHead(at, roundId, port, words);
      Extend(at, at + 4, host);
      Extend(at, t, Put32(Word32(refSec)));
      Extend(at, t + 4, Put32(Word32(refUsec)));
      Extend(at, t + 8, Put32(Word32(obsSec)));
      Extend(at, t + 12, Put32(Word32(obsUsec)));
      Extend(at, t + 16, Put32(Word32(rtt)));
    }

    /** InitIntoBuffer clears the length byte; SetRoundId and SetSrcAddress fill the first word. */
    method WriteHead(at: nat, roundId: Byte, port: nat, words: Byte)
      requires port < 0x1_0000 && at + 4 <= buffer.Length
      modifies buffer
      ensures buffer[..at] == old(buffer[..at])
      ensures buffer[at..at + 4] == [words] + [roundId] + Put16(port)
    {
      buffer[at] := 0;
      buffer[at + 1] := roundId;
      buffer[at + 2], buffer[at + 3] := Put16(port)[0], Put16(port)[1];
      buffer[at] := words;
    }

    /** The receiver's report object after `k` reports have been read. */
    ghost function CursorAt(k: nat): Cursor
      requires AllValid(reports) && k <= |reports|
      reads this
    {
      if k == 0 then NoReport else At(Boundary(reports, k - 1))
    }

    /** The getters, applied at the cursor, give report `k`. */
    ghost predicate Holds(c: Cursor, k: nat)
      requires Valid() && k < |reports|
      reads this, buffer
    {
      && c.At? && c.offset + 4 + AddressLength(reports[k].Words()) + 20 <= buffer.Length
      && buffer[c.offset] == reports[k].Words()
      && Decode(buffer[..], c.offset) == Received(reports[k])
    }

    lemma BoundaryHolds(k: nat)
      requires Valid() && k < |reports|
      ensures Boundary(reports, k + 1) == Boundary(reports, k) + 4 * reports[k].Words() <= pktLength
      ensures Boundary(reports, |reports|) == pktLength && Boundary(reports, 0) == HEADER
      ensures Holds(At(Boundary(reports, k)), k)
    {
      var b := buffer[..];
      assert b[HEADER..pktLength] == buffer[HEADER..pktLength];
      ReportAt(b, reports, k);
      DecodeEncode(b, Boundary(reports, k), reports[k]);
    }

    /** Where the iteration goes on from a report object. */
    ghost function NextOffset(c: Cursor): nat
      requires c.At? ==> c.offset < buffer.Length
      reads buffer
    {
      if c.NoReport? then HEADER else c.offset + 4 * (buffer[c.offset] as int)
    }

    /** GetNextReport, on any message: an empty rest or an overlong report stops the iteration. */
    method GetNextReport(c: Cursor) returns (ok: bool, next: Cursor)
      requires pktLength <= buffer.Length && (c.At? ==> c.offset < buffer.Length)
      ensures next == Next(c)
      ensures ok <==> next.At? && NextOffset(next) <= pktLength
    {
      var nextOffset := HEADER;
      if c.At? {
        var words: int := buffer[c.offset];
        nextOffset := c.offset + 4 * words;
      }
      var space := if nextOffset < pktLength then pktLength - nextOffset else 0;
      if space == 0 {
        return false, NoReport;
      }
      var reportWords: int := buffer[nextOffset];
      return 4 * reportWords <= space, At(nextOffset);
    }

    /** What GetNextReport leaves in the report object. */
    ghost function Next(c: Cursor): Cursor
      requires pktLength <= buffer.Length && (c.At? ==> c.offset < buffer.Length)
      reads this, buffer
    {
      if NextOffset(c) < pktLength then At(NextOffset(c)) else NoReport
    }

    /** After `k` reports the iteration goes on to the next one appended, and stops behind the last. */
    lemma Continues(k: nat)
      requires Valid() && k <= |reports|
      ensures pktLength <= buffer.Length && (CursorAt(k).At? ==> CursorAt(k).offset < buffer.Length)
      ensures var next := Next(CursorAt(k)); k < |reports| <==> next.At? && NextOffset(next) <= pktLength
      ensures k < |reports| ==> Next(CursorAt(k)) == CursorAt(k + 1) && Holds(CursorAt(k + 1), k)
    {
      hide Encode, Decode, Received, Get16, Get32, Report.Valid;
      if k > 0 {
        BoundaryHolds(k - 1);
      }
      if k < |reports| {
        BoundaryHolds(k);
      }
      assert reports[..|reports|] == reports && reports[..0] == [];
    }

    /** The receiver's loop sees the reports appended, in order, and stops. */
    method ReadReports() returns (seen: seq<Fields>)
      requires Valid()
      ensures |seen| == |reports|
      ensures forall i :: 0 <= i < |reports| ==> Seen(seen[i], reports[i])
    {
      ReceivedSeen(reports);
      hide Encode, EncodeAll, Boundary, NextOffset, Received, Seen, Get16, Get32, Report.Valid, Report.Words;
      seen := [];
      Continues(0);
      var ok, c := GetNextReport(NoReport);
      while ok
        invariant |seen| <= |reports| && (ok <==> |seen| < |reports|)
        invariant ok ==> c == CursorAt(|seen| + 1) && Holds(c, |seen|)
        invariant forall i :: 0 <= i < |seen| ==> seen[i] == Received(reports[i])
        decreases |reports| - |seen|
      {
        Continues(|seen| + 1);
        seen := seen + [Decode(buffer[..], c.offset)];
        ok, c := GetNextReport(c);
      }
    }
  }
}
