/** MainWindow::writePcapFile: the classic libpcap capture file the packet
    list is exported to (the "File Header" and "Packet Record" sections of
    the PCAP capture file format draft, draft-ietf-opsawg-pcap). A QDataStream set to
    little-endian writes every header field; the frame bytes follow each
    record header verbatim. Records without raw bytes are skipped.

    The file is modelled as the byte sequence written to it; whether it
    could be opened is an input. */
module Pcap {
  import opened Common
  import opened Packet
  import opened Decoder

  const MAGIC: u32 := 0xa1b2c3d4
  const VERSION_MAJOR: u16 := 2
  const VERSION_MINOR: u16 := 4
  const SNAPLEN: u32 := 65535
  const LINKTYPE_ETHERNET: u32 := 1
  const GLOBAL_HEADER_LEN: nat := 24
  const RECORD_HEADER_LEN: nat := 16

  // ---------------------------------------------------------------------
  // Little-endian fields

  /** `out << quint16(v)` on a little-endian stream. */
  function LE16(v: u16): (s: seq<byte>)
    ensures |s| == 2
  {
    [v % 256, v / 256]
  }

  /** `out << quint32(v)` (or qint32 for v below 2^31) on a little-endian
      stream. */
  function LE32(v: u32): (s: seq<byte>)
    ensures |s| == 4
  {
    LE16(v % 0x1_0000) + LE16(v / 0x1_0000)
  }

  function ReadLE16(s: seq<byte>, off: nat): u16
    requires off + 2 <= |s|
  {
    s[off] as int + 256 * s[off + 1] as int
  }

  function ReadLE32(s: seq<byte>, off: nat): u32
    requires off + 4 <= |s|
  {
    ReadLE16(s, off) + 0x1_0000 * ReadLE16(s, off + 2)
  }

  lemma LE16RoundTrip(v: u16)
    ensures ReadLE16(LE16(v), 0) == v
  {
  }

  lemma LE32RoundTrip(v: u32)
    ensures ReadLE32(LE32(v), 0) == v
  {
    var s := LE32(v);
    LE16RoundTrip(v % 0x1_0000);
    LE16RoundTrip(v / 0x1_0000);
    assert s[..2] == LE16(v % 0x1_0000) && s[2..] == LE16(v / 0x1_0000);
    assert ReadLE16(s, 0) == ReadLE16(LE16(v % 0x1_0000), 0);
    assert ReadLE16(s, 2) == ReadLE16(LE16(v / 0x1_0000), 0);
  }

  /** A field is read from the four bytes at its offset and nothing else. */
  lemma ReadLE32At(s: seq<byte>, off: nat, v: u32)
    requires off + 4 <= |s| && s[off..off + 4] == LE32(v)
    ensures ReadLE32(s, off) == v
  {
    LE32RoundTrip(v);
    var t := LE32(v);
    assert s[off] == t[0] && s[off + 1] == t[1] && s[off + 2] == t[2] && s[off + 3] == t[3];
  }

  // ---------------------------------------------------------------------
  // The file the writer produces

  /** The global header: magic, version 2.4, zero time zone and accuracy,
      snapshot length 65535 and Ethernet link type. */
  function GlobalHeader(): (h: seq<byte>)
    ensures |h| == GLOBAL_HEADER_LEN
  {
    LE32(MAGIC) + LE16(VERSION_MAJOR) + LE16(VERSION_MINOR) + LE32(0) + LE32(0)
      + LE32(SNAPLEN) + LE32(LINKTYPE_ETHERNET)
  }

  /** quint32 ts_sec = timestampMicros / 1000000 (truncated to 32 bits). */
  function TsSec(p: PacketInfo): u32
  {
    (p.timestampMicros / 1000000) % TWO_TO_THE_32
  }

  /** quint32 ts_usec = timestampMicros % 1000000. */
  function TsUsec(p: PacketInfo): (u: u32)
    ensures u < 1000000
  {
    p.timestampMicros % 1000000
  }

  /** quint32 incl_len = rawData.size(). */
  function InclLen(p: PacketInfo): u32
  {
    |p.rawData| % TWO_TO_THE_32
  }

  /** quint32 orig_len = length, converted from int. */
  function OrigLen(p: PacketInfo): u32
  {
    p.length % TWO_TO_THE_32
  }

  /** The sixteen-byte header of one record. */
  function RecordHeader(p: PacketInfo): (h: seq<byte>)
    ensures |h| == RECORD_HEADER_LEN
  {
    LE32(TsSec(p)) + LE32(TsUsec(p)) + LE32(InclLen(p)) + LE32(OrigLen(p))
  }

  /** What the loop writes for one record: nothing when it has no raw
      bytes, otherwise its header and its bytes. */
  function RecordBytes(p: PacketInfo): seq<byte>
  {
    if p.rawData == [] then [] else RecordHeader(p) + p.rawData
  }

  /** The records of a list, in list order. */
  function Records(ps: seq<PacketInfo>): seq<byte>
  {
    if ps == [] then [] else RecordBytes(ps[0]) + Records(ps[1..])
  }

  /** The whole file. */
  function PcapFile(ps: seq<PacketInfo>): seq<byte>
  {
    GlobalHeader() + Records(ps)
  }

  /** One more record writes its bytes after the others. */
  lemma {:induction false} RecordsSnoc(ps: seq<PacketInfo>, k: nat)
    requires k < |ps|
    ensures Records(ps[..k + 1]) == Records(ps[..k]) + RecordBytes(ps[k])
    decreases k
  {
    if k > 0 {
      RecordsSnoc(ps[1..], k - 1);
      assert ps[1..][..k] == ps[..k + 1][1..];
      assert ps[1..][..k - 1] == ps[..k][1..];
    }
  }

  /** Proof helper: regrouping a concatenation of three byte sequences. */
  lemma AssocBytes(a: seq<byte>, b: seq<byte>, c: seq<byte>)
    ensures a + b + c == a + (b + c)
  {
  }

  /** MainWindow::writePcapFile: false and nothing written when the file
      cannot be opened; otherwise the global header, then one record per
      packet with raw bytes, in list order, and true. */
  method WritePcapFile(opens: bool, packets: seq<PacketInfo>) returns (ok: bool, out: seq<byte>)
    ensures ok == opens
    ensures ok ==> out == PcapFile(packets)
    ensures !ok ==> out == []
  {
    if !opens {
      return false, [];
    }
    out := WriteGlobalHeader();
    for k := 0 to |packets|
      invariant out == GlobalHeader() + Records(packets[..k])
    {
      var packet := packets[k];
      RecordsSnoc(packets, k);
      if packet.rawData == [] {
        continue;
      }
      out := WriteRecord(out, packet);
      AssocBytes(GlobalHeader(), Records(packets[..k]), RecordBytes(packet));
    }
    assert packets[..|packets|] == packets;
    return true, out;
  }

  /** The seven header fields pushed one after another. */
  method WriteGlobalHeader() returns (out: seq<byte>)
    ensures out == GlobalHeader()
  {
    out := [];
    out := out + LE32(MAGIC);
    out := out + LE16(VERSION_MAJOR);
    out := out + LE16(VERSION_MINOR);
    out := out + LE32(0);
    out := out + LE32(0);
    out := out + LE32(SNAPLEN);
    out := out + LE32(LINKTYPE_ETHERNET);
  }

  /** One pass of the record loop for a packet with raw bytes: the four
      header fields, then the bytes. */
  method WriteRecord(out: seq<byte>, packet: PacketInfo) returns (next: seq<byte>)
    requires packet.rawData != []
    ensures next == out + RecordBytes(packet)
  {
    var tsSec: u32 := (packet.timestampMicros / 1000000) % TWO_TO_THE_32;
    var tsUsec: u32 := packet.timestampMicros % 1000000;
    var inclLen: u32 := |packet.rawData| % TWO_TO_THE_32;
    var origLen: u32 := packet.length % TWO_TO_THE_32;
    next := out + LE32(tsSec);
    next := next + LE32(tsUsec);
    next := next + LE32(inclLen);
    next := next + LE32(origLen);
    assert next == out + RecordHeader(packet);
    next := next + packet.rawData;
  }

  // ---------------------------------------------------------------------
  // Reading the file back

  /** The global header's fields. */
  datatype FileHeader = FileHeader(magic: u32, major: u16, minor: u16, thisZone: u32,
                                   sigFigs: u32, snapLen: u32, network: u32)

  /** One record's header fields and its frame bytes. */
  datatype Record = Record(tsSec: u32, tsUsec: u32, inclLen: u32, origLen: u32, data: seq<byte>)

  function ReadHeader(b: seq<byte>): FileHeader
    requires |b| >= GLOBAL_HEADER_LEN
  {
    FileHeader(ReadLE32(b, 0), ReadLE16(b, 4), ReadLE16(b, 6), ReadLE32(b, 8),
      ReadLE32(b, 12), ReadLE32(b, 16), ReadLE32(b, 20))
  }

  /** Reads records up to the end of the bytes: each a sixteen-byte header
      and then incl_len bytes of frame. */
  function ParseRecords(b: seq<byte>): Option<seq<Record>>
    decreases |b|
  {
    if b == [] then Some([])
    else if |b| < RECORD_HEADER_LEN then None
    else
      var incl := ReadLE32(b, 8);
      if |b| < RECORD_HEADER_LEN + incl then None
      else
        match ParseRecords(b[RECORD_HEADER_LEN + incl..])
        case None => None
        case Some(rest) =>
          Some([Record(ReadLE32(b, 0), ReadLE32(b, 4), incl, ReadLE32(b, 12),
            b[RECORD_HEADER_LEN..RECORD_HEADER_LEN + incl])] + rest)
  }

  /** A classic little-endian capture file: its header and its records. */
  function ParsePcap(b: seq<byte>): Option<(FileHeader, seq<Record>)>
  {
    if |b| < GLOBAL_HEADER_LEN || ReadLE32(b, 0) != MAGIC then None
    else
      match ParseRecords(b[GLOBAL_HEADER_LEN..])
      case None => None
      case Some(rs) => Some((ReadHeader(b), rs))
  }

  /** The record a packet with raw bytes should read back as. */
  function ExpectedRecord(p: PacketInfo): Record
  {
    Record(TsSec(p), TsUsec(p), InclLen(p), OrigLen(p), p.rawData)
  }

  /** The records the file should hold: one per packet with raw bytes. */
  function Expected(ps: seq<PacketInfo>): seq<Record>
  {
    if ps == [] then []
    else (if ps[0].rawData == [] then [] else [ExpectedRecord(ps[0])]) + Expected(ps[1..])
  }

  predicate Fits(ps: seq<PacketInfo>)
  {
    forall i :: 0 <= i < |ps| ==> |ps[i].rawData| < TWO_TO_THE_32
  }

  /** The header fields of one record read back from it. */
  lemma RecordFields(p: PacketInfo, rest: seq<byte>)
    requires p.rawData != [] && |p.rawData| < TWO_TO_THE_32
    ensures var b := RecordBytes(p) + rest;
      && |b| >= RECORD_HEADER_LEN + |p.rawData|
      && ReadLE32(b, 0) == TsSec(p) && ReadLE32(b, 4) == TsUsec(p)
      && ReadLE32(b, 8) == |p.rawData| && ReadLE32(b, 12) == OrigLen(p)
      && b[RECORD_HEADER_LEN..RECORD_HEADER_LEN + |p.rawData|] == p.rawData
      && b[RECORD_HEADER_LEN + |p.rawData|..] == rest
  {
    var b := RecordBytes(p) + rest;
    var h := RecordHeader(p);
    assert b == h + p.rawData + rest;
    assert b[0..4] == h[0..4] == LE32(TsSec(p));
    assert b[4..8] == h[4..8] == LE32(TsUsec(p));
    assert b[8..12] == h[8..12] == LE32(InclLen(p));
    assert b[12..16] == h[12..16] == LE32(OrigLen(p));
    ReadLE32At(b, 0, TsSec(p));
    ReadLE32At(b, 4, TsUsec(p));
    ReadLE32At(b, 8, InclLen(p));
    ReadLE32At(b, 12, OrigLen(p));
  }

  /** Reading one record in front of records already readable. */
  lemma ParseRecordStep(p: PacketInfo, rest: seq<byte>, rs: seq<Record>)
    requires p.rawData != [] && |p.rawData| < TWO_TO_THE_32
    requires ParseRecords(rest) == Some(rs)
    ensures ParseRecords(RecordBytes(p) + rest) == Some([ExpectedRecord(p)] + rs)
  {
    RecordFields(p, rest);
  }

  /** The records read back as the packets with raw bytes, in order, with
      their header fields and their bytes verbatim. */
  lemma {:induction false} RecordsRoundTrip(ps: seq<PacketInfo>)
    requires Fits(ps)
    ensures ParseRecords(Records(ps)) == Some(Expected(ps))
    decreases |ps|
  {
    if ps != [] {
      var p, tail := ps[0], ps[1..];
      assert Fits(tail) by {
        forall i | 0 <= i < |tail|
          ensures |tail[i].rawData| < TWO_TO_THE_32
        {
          assert tail[i] == ps[i + 1];
        }
      }
      RecordsRoundTrip(tail);
      assert Records(ps) == RecordBytes(p) + Records(tail);
      if p.rawData != [] {
        assert |p.rawData| < TWO_TO_THE_32;
        assert Expected(ps) == [ExpectedRecord(p)] + Expected(tail);
        ParseRecordStep(p, Records(tail), Expected(tail));
      } else {
        assert Records(ps) == Records(tail);
        assert Expected(ps) == Expected(tail);
      }
    }
  }

  /** The header of a written file reads back as the constants. */
  lemma GlobalHeaderFields(rest: seq<byte>)
    ensures ReadHeader(GlobalHeader() + rest) == FileHeader(MAGIC, 2, 4, 0, 0, 65535, 1)
  {
    var b := GlobalHeader() + rest;
    var h := GlobalHeader();
    assert b[0..4] == h[0..4] == LE32(MAGIC);
    assert b[4..6] == LE16(2) && b[6..8] == LE16(4);
    assert b[8..12] == h[8..12] == LE32(0);
    assert b[12..16] == h[12..16] == LE32(0);
    assert b[16..20] == h[16..20] == LE32(SNAPLEN);
    assert b[20..24] == h[20..24] == LE32(LINKTYPE_ETHERNET);
    ReadLE32At(b, 0, MAGIC);
    ReadLE32At(b, 8, 0);
    ReadLE32At(b, 12, 0);
    ReadLE32At(b, 16, SNAPLEN);
    ReadLE32At(b, 20, LINKTYPE_ETHERNET);
    LE16RoundTrip(2);
    LE16RoundTrip(4);
  }

  /** A written file parses as classic pcap: the constant global header,
      then the packets with raw bytes, in list order, each with its
      timestamp, lengths and bytes. */
  lemma PcapRoundTrip(ps: seq<PacketInfo>)
    requires Fits(ps)
    ensures ParsePcap(PcapFile(ps)) == Some((FileHeader(MAGIC, 2, 4, 0, 0, 65535, 1), Expected(ps)))
  {
    var b := PcapFile(ps);
    GlobalHeaderFields(Records(ps));
    assert b[GLOBAL_HEADER_LEN..] == Records(ps);
    RecordsRoundTrip(ps);
  }

  /** The size of the records, counted independently of their bytes: 16
      plus the frame for each packet with raw bytes. */
  function RecordsSize(ps: seq<PacketInfo>): nat
  {
    if ps == [] then 0
    else (if ps[0].rawData == [] then 0 else RECORD_HEADER_LEN + |ps[0].rawData|) + RecordsSize(ps[1..])
  }

  /** The file is 24 bytes of header plus 16 + n bytes per non-empty
      record, with no padding. */
  lemma {:induction false} PcapLength(ps: seq<PacketInfo>)
    ensures |PcapFile(ps)| == GLOBAL_HEADER_LEN + RecordsSize(ps)
    decreases |ps|
  {
    if ps != [] {
      PcapLength(ps[1..]);
    }
  }

  /** Packets without raw bytes leave no trace in the file. */
  lemma {:induction false} EmptyPacketsVanish(ps: seq<PacketInfo>)
    requires forall i :: 0 <= i < |ps| ==> ps[i].rawData == []
    ensures PcapFile(ps) == GlobalHeader()
    decreases |ps|
  {
    if ps != [] {
      EmptyPacketsVanish(ps[1..]);
    }
  }

  /** A frame decoded with a capture time of `sec` seconds (fitting in 32
      bits) and `usec` microseconds is exported with exactly that time and
      with its wire length. */
  lemma DecodedTimestamp(f: seq<byte>, length: nat, sec: nat, usec: nat, clock: string)
    requires Readable(f) && length <= |f|
    requires sec < TWO_TO_THE_32 && usec < 1000000 && length < TWO_TO_THE_32
    ensures var p := DecodeFrame(f, length, sec, usec, clock);
      TsSec(p) == sec && TsUsec(p) == usec && OrigLen(p) == length && InclLen(p) == length
  {
    MicrosSplit(sec, usec);
  }
}
