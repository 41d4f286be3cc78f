/** CaptureThread::parseRawPacket: the decoding of one Ethernet frame into a
    PacketInfo record. The frame is the buffer libpcap hands over; `length`
    is header.len, the frame's length on the wire, of which the buffer must
    hold at least that many bytes. The source reads fixed offsets without
    checking the buffer's size, so the bytes it reads are a precondition
    (Readable below).

    Offsets: the Ethernet header is 14 bytes with the EtherType in bytes
    12-13 (big-endian); the IPv4 header follows with the header length in
    32-bit words in the low nibble of its first byte, the protocol in its
    byte 9 and the addresses in its bytes 12-15 and 16-19; TCP and UDP both
    start with the source and destination ports, big-endian. */
module Decoder {
  import opened Common
  import opened Text
  import opened HexFormat
  import opened Packet

  const ETHER_HEADER_LEN: nat := 14
  const ETHERTYPE_IP: nat := 0x0800
  const ETHERTYPE_ARP: nat := 0x0806
  const IPPROTO_ICMP: nat := 1
  const IPPROTO_TCP: nat := 6
  const IPPROTO_UDP: nat := 17

  // ---------------------------------------------------------------------
  // Fields of the frame

  /** ntohs of the two bytes at `off`. */
  function BE16(s: seq<byte>, off: nat): (v: u16)
    requires off + 2 <= |s|
  {
    s[off] as int * 256 + s[off + 1] as int
  }

  /** The two bytes of v in network order. */
  function EncodeBE16(v: u16): (s: seq<byte>)
    ensures |s| == 2
  {
    [v / 256, v % 256]
  }

  lemma BE16RoundTrip(v: u16)
    ensures BE16(EncodeBE16(v), 0) == v
  {
  }

  lemma EncodeBE16RoundTrip(s: seq<byte>, off: nat)
    requires off + 2 <= |s|
    ensures EncodeBE16(BE16(s, off)) == s[off..off + 2]
  {
  }

  function EtherType(f: seq<byte>): u16
    requires |f| >= ETHER_HEADER_LEN
  {
    BE16(f, 12)
  }

  /** iph->ip_hl * 4: the IP header length in bytes, 0 to 60. */
  function IpHeaderLen(f: seq<byte>): (n: nat)
    requires |f| > ETHER_HEADER_LEN
    ensures n % 4 == 0 && n <= 60
  {
    (f[14] % 16) * 4
  }

  function IpProto(f: seq<byte>): byte
    requires |f| >= 34
  {
    f[23]
  }

  /** Where the TCP or UDP header starts. */
  function TransportOffset(f: seq<byte>): nat
    requires |f| > ETHER_HEADER_LEN
  {
    ETHER_HEADER_LEN + IpHeaderLen(f)
  }

  predicate CarriesPorts(f: seq<byte>)
    requires |f| >= 34
  {
    IpProto(f) == IPPROTO_TCP || IpProto(f) == IPPROTO_UDP
  }

  /** The buffer holds every byte parseRawPacket reads from it: the Ethernet
      header; for IPv4 the IP header up to the destination address; for TCP
      and UDP the two ports. */
  predicate Readable(f: seq<byte>)
  {
    && |f| >= ETHER_HEADER_LEN
    && (EtherType(f) == ETHERTYPE_IP ==>
          |f| >= 34 && (CarriesPorts(f) ==> TransportOffset(f) + 4 <= |f|))
  }

  // ---------------------------------------------------------------------
  // What the frame is

  /** QString("%1 → %2").arg(srcPort).arg(dstPort) after the protocol name. */
  function PortInfo(proto: string, sport: u16, dport: u16): string
  {
    proto + " " + Dec(sport) + " → " + Dec(dport)
  }

  /** The fields parseRawPacket derives from the headers. */
  datatype Summary = Summary(
    protocol: string,
    source: string,
    destination: string,
    srcPort: int,
    dstPort: int,
    info: string)

  /** The headers' reading: IPv4 gives the dotted addresses, and TCP or UDP
      the ports too; ARP only names itself; any other frame stays
      "Unknown". */
  function Classify(f: seq<byte>): Summary
    requires Readable(f)
  {
    if EtherType(f) == ETHERTYPE_IP then
      var src, dst := DottedQuad(f[26..30]), DottedQuad(f[30..34]);
      if IpProto(f) == IPPROTO_TCP || IpProto(f) == IPPROTO_UDP then
        var proto := if IpProto(f) == IPPROTO_TCP then "TCP" else "UDP";
        var sport, dport := BE16(f, TransportOffset(f)), BE16(f, TransportOffset(f) + 2);
        Summary(proto, src, dst, sport, dport, PortInfo(proto, sport, dport))
      else if IpProto(f) == IPPROTO_ICMP then
        Summary("ICMP", src, dst, 0, 0, "ICMP packet")
      else
        Summary("Unknown", src, dst, 0, 0, "")
    else if EtherType(f) == ETHERTYPE_ARP then
      Summary("ARP", "Unknown", "Unknown", 0, 0, "ARP packet")
    else
      Summary("Unknown", "Unknown", "Unknown", 0, 0, "")
  }

  /** (quint64)tv_sec * 1000000 + tv_usec, in unsigned 64-bit arithmetic. */
  function Micros(sec: int, usec: int): (t: u64)
  {
    (sec * 1000000 + usec) % TWO_TO_THE_64
  }

  /** The record parseRawPacket returns. `clock` is the wall-clock time of
      day it formats; `number` is left for CaptureThread::run to set. */
  function DecodeFrame(f: seq<byte>, length: nat, sec: int, usec: int, clock: string): PacketInfo
    requires Readable(f) && length <= |f|
  {
    var s := Classify(f);
    PacketInfo(0, clock, s.source, s.destination, s.srcPort, s.dstPort, s.protocol,
      length, s.info, Preview(f, length), f[..length], Micros(sec, usec))
  }

  /** CaptureThread::parseRawPacket. */
  method ParseRawPacket(packet: seq<byte>, length: int, sec: int, usec: int, clock: string)
    returns (info: PacketInfo)
    requires Readable(packet) && 0 <= length <= |packet|
    ensures info == DecodeFrame(packet, length, sec, usec, clock)
  {
    info := PacketInfo(0, clock, "Unknown", "Unknown", 0, 0, "Unknown", length, "", "",
      packet[..length], Micros(sec, usec));
    var etherType := BE16(packet, 12);
    if etherType == ETHERTYPE_IP {
      info := info.(source := DottedQuad(packet[26..30]), destination := DottedQuad(packet[30..34]));
      var ipHeaderLen := (packet[14] % 16) * 4;
      var proto := packet[23];
      if proto == IPPROTO_TCP {
        var sport, dport := BE16(packet, 14 + ipHeaderLen), BE16(packet, 14 + ipHeaderLen + 2);
        info := info.(protocol := "TCP", srcPort := sport, dstPort := dport,
          info := PortInfo("TCP", sport, dport));
      } else if proto == IPPROTO_UDP {
        var sport, dport := BE16(packet, 14 + ipHeaderLen), BE16(packet, 14 + ipHeaderLen + 2);
        info := info.(protocol := "UDP", srcPort := sport, dstPort := dport,
          info := PortInfo("UDP", sport, dport));
      } else if proto == IPPROTO_ICMP {
        info := info.(protocol := "ICMP", info := "ICMP packet");
      }
    } else if etherType == ETHERTYPE_ARP {
      info := info.(protocol := "ARP", info := "ARP packet");
    }
    var hex := InlinePreview(packet, length);
    info := info.(data := hex);
  }

  // ---------------------------------------------------------------------
  // Properties of the decoding

  /** The record keeps exactly the first `length` bytes for export and the
      wire length, and its preview is the inline hex preview of them. */
  lemma DecodeKeepsBytes(f: seq<byte>, length: nat, sec: int, usec: int, clock: string)
    requires Readable(f) && length <= |f|
    ensures var p := DecodeFrame(f, length, sec, usec, clock);
      && p.rawData == f[..length] && |p.rawData| == p.length == length
      && p.data == Preview(p.rawData, length)
      && ('.' in p.data <==> length > 128)
  {
    PreviewOfPrefix(f, length);
    PreviewShape(f, length);
  }

  /** ARP, or IPv4 carrying TCP, UDP or ICMP. */
  predicate Recognized(f: seq<byte>)
    requires Readable(f)
  {
    || EtherType(f) == ETHERTYPE_ARP
    || (EtherType(f) == ETHERTYPE_IP && IpProto(f) in {IPPROTO_TCP, IPPROTO_UDP, IPPROTO_ICMP})
  }

  /** The protocol names the kind of frame: each name holds exactly for its
      EtherType and IP protocol number. */
  lemma ProtocolIff(f: seq<byte>)
    requires Readable(f)
    ensures var p := Classify(f).protocol;
      && (p == "ARP" <==> EtherType(f) == ETHERTYPE_ARP)
      && (p == "TCP" <==> EtherType(f) == ETHERTYPE_IP && IpProto(f) == IPPROTO_TCP)
      && (p == "UDP" <==> EtherType(f) == ETHERTYPE_IP && IpProto(f) == IPPROTO_UDP)
      && (p == "ICMP" <==> EtherType(f) == ETHERTYPE_IP && IpProto(f) == IPPROTO_ICMP)
      && (p == "Unknown" <==> !Recognized(f))
  {
  }

  /** "ICMP packet" is the info exactly for an IPv4 frame carrying ICMP, and
      such a frame has no ports. */
  lemma {:induction false} IcmpInfo(f: seq<byte>, length: nat, sec: int, usec: int, clock: string)
    requires Readable(f) && length <= |f|
    ensures var p := DecodeFrame(f, length, sec, usec, clock);
      && (p.info == "ICMP packet" <==> EtherType(f) == ETHERTYPE_IP && IpProto(f) == IPPROTO_ICMP)
      && (p.info == "ICMP packet" ==> p.protocol == "ICMP" && p.srcPort == 0 && p.dstPort == 0)
  {
    var s := Classify(f);
    if EtherType(f) == ETHERTYPE_IP && (IpProto(f) == IPPROTO_TCP || IpProto(f) == IPPROTO_UDP) {
      var proto := if IpProto(f) == IPPROTO_TCP then "TCP" else "UDP";
      var sport, dport := BE16(f, TransportOffset(f)), BE16(f, TransportOffset(f) + 2);
      assert s.info == PortInfo(proto, sport, dport);
      assert s.info[0] == proto[0] != 'I';
    }
  }

  /** A frame that is neither IPv4 nor ARP keeps every default: protocol and
      both addresses "Unknown", no ports, no info, and the wire length. */
  lemma UnrecognisedFrame(f: seq<byte>, length: nat, sec: int, usec: int, clock: string)
    requires Readable(f) && length <= |f|
    requires EtherType(f) != ETHERTYPE_IP && EtherType(f) != ETHERTYPE_ARP
    ensures var p := DecodeFrame(f, length, sec, usec, clock);
      && p.protocol == p.source == p.destination == "Unknown"
      && p.srcPort == 0 && p.dstPort == 0 && p.info == "" && p.length == length
  {
  }

  /** Ports are reported only for TCP and UDP, and are zero otherwise. */
  lemma PortsOnlyForTransport(f: seq<byte>)
    requires Readable(f)
    ensures var s := Classify(f);
      s.protocol != "TCP" && s.protocol != "UDP" ==> s.srcPort == 0 && s.dstPort == 0
    ensures var s := Classify(f);
      s.protocol == "TCP" || s.protocol == "UDP" ==>
        && s.srcPort == BE16(f, TransportOffset(f))
        && s.dstPort == BE16(f, TransportOffset(f) + 2)
  {
  }

  /** A dotted address never reads "Unknown", so the source field tells
      whether the frame was IPv4, and then reads back as the address bytes. */
  lemma AddressesIff(f: seq<byte>)
    requires Readable(f)
    ensures var s := Classify(f);
      && (s.source != "Unknown" <==> EtherType(f) == ETHERTYPE_IP)
      && (s.destination != "Unknown" <==> EtherType(f) == ETHERTYPE_IP)
    ensures var s := Classify(f);
      EtherType(f) == ETHERTYPE_IP ==>
        && ParseDottedQuad(s.source) == Some(f[26..30])
        && ParseDottedQuad(s.destination) == Some(f[30..34])
  {
    if EtherType(f) == ETHERTYPE_IP {
      DottedQuadStartsWithDigit(f[26..30]);
      DottedQuadStartsWithDigit(f[30..34]);
      DottedQuadRoundTrip(f[26..30]);
      DottedQuadRoundTrip(f[30..34]);
    }
  }

  lemma DottedQuadStartsWithDigit(a: seq<byte>)
    requires |a| == 4
    ensures DottedQuad(a) != "Unknown"
  {
    assert DottedQuad(a)[0] == Dec(a[0])[0];
  }

  /** Reads the protocol and the two ports back from an info line. */
  function ParsePortInfo(info: string): Option<(string, nat, nat)>
  {
    var parts := Split(info, ' ');
    if |parts| == 4 && parts[2] == "→"
      && |parts[1]| >= 1 && AllDigits(parts[1]) && |parts[3]| >= 1 && AllDigits(parts[3])
    then Some((parts[0], DigitsValue(parts[1]), DigitsValue(parts[3])))
    else None
  }

  /** The TCP and UDP info line reads back as its protocol and ports, so two
      different port pairs never print alike. */
  lemma PortInfoRoundTrip(proto: string, sport: u16, dport: u16)
    requires ' ' !in proto
    ensures ParsePortInfo(PortInfo(proto, sport, dport)) == Some((proto, sport as nat, dport as nat))
  {
    var d1, d3 := Dec(sport), Dec(dport);
    DigitsHaveNoDot(d1);
    DigitsHaveNoDot(d3);
    DecRoundTrip(sport);
    DecRoundTrip(dport);
    SplitFour(proto, d1, "→", d3, ' ');
    assert PortInfo(proto, sport, dport) == proto + [' '] + d1 + [' '] + "→" + [' '] + d3;
  }

  /** The info line of a TCP or UDP frame reads back as the ports the record
      carries. */
  lemma InfoMatchesPorts(f: seq<byte>)
    requires Readable(f)
    ensures var s := Classify(f);
      s.protocol == "TCP" || s.protocol == "UDP" ==>
        ParsePortInfo(s.info) == Some((s.protocol, s.srcPort as nat, s.dstPort as nat))
  {
    var s := Classify(f);
    if s.protocol == "TCP" || s.protocol == "UDP" {
      PortInfoRoundTrip(s.protocol, BE16(f, TransportOffset(f)), BE16(f, TransportOffset(f) + 2));
    }
  }

  /** With a seconds count that fits and microseconds below a million, the
      64-bit timestamp splits back into seconds and microseconds. */
  lemma MicrosSplit(sec: nat, usec: nat)
    requires usec < 1000000 && sec * 1000000 + usec < TWO_TO_THE_64
    ensures Micros(sec, usec) / 1000000 == sec && Micros(sec, usec) % 1000000 == usec
  {
    DivModUnique(sec * 1000000 + usec, 1000000, sec, usec);
  }

  // ---------------------------------------------------------------------
  // Building frames

  function Zeros(n: nat): (z: seq<byte>)
    ensures |z| == n
  {
    seq(n, i => 0)
  }

  /** An IPv4 header of `ihl` 32-bit words (version 4), carrying `proto`
      from `src` to `dst`; the fields the sniffer does not read are zero,
      except a TTL of 64. */
  function IpHeader(ihl: nat, proto: byte, src: seq<byte>, dst: seq<byte>): (h: seq<byte>)
    requires 5 <= ihl < 16 && |src| == 4 && |dst| == 4
    ensures |h| == 4 * ihl
  {
    [0x40 + ihl, 0, 0, 0, 0, 0, 0, 0, 64, proto, 0, 0] + src + dst + Zeros(4 * ihl - 20)
  }

  /** An Ethernet frame carrying an IPv4 packet whose transport header
      starts with the ports `sport` and `dport`. */
  function IpFrame(macs: seq<byte>, ihl: nat, proto: byte, src: seq<byte>, dst: seq<byte>,
                   sport: u16, dport: u16, payload: seq<byte>): seq<byte>
    requires |macs| == 12 && 5 <= ihl < 16 && |src| == 4 && |dst| == 4
  {
    macs + [8, 0] + IpHeader(ihl, proto, src, dst) + EncodeBE16(sport) + EncodeBE16(dport) + payload
  }

  /** The bytes parseRawPacket reads from a built IPv4 frame are the ones
      it was built from. */
  lemma IpFrameFields(macs: seq<byte>, ihl: nat, proto: byte, src: seq<byte>, dst: seq<byte>,
                      sport: u16, dport: u16, payload: seq<byte>)
    requires |macs| == 12 && 5 <= ihl < 16 && |src| == 4 && |dst| == 4
    ensures var f := IpFrame(macs, ihl, proto, src, dst, sport, dport, payload);
      && |f| == 14 + 4 * ihl + 4 + |payload|
      && EtherType(f) == ETHERTYPE_IP && IpHeaderLen(f) == 4 * ihl && IpProto(f) == proto
      && f[26..30] == src && f[30..34] == dst
      && f[14 + 4 * ihl..14 + 4 * ihl + 2] == EncodeBE16(sport)
      && f[14 + 4 * ihl + 2..14 + 4 * ihl + 4] == EncodeBE16(dport)
  {
    var h := IpHeader(ihl, proto, src, dst);
    var f := IpFrame(macs, ihl, proto, src, dst, sport, dport, payload);
    var head := macs + [8, 0];
    assert f == head + h + EncodeBE16(sport) + EncodeBE16(dport) + payload;
    assert f[12] == 8 && f[13] == 0 && f[14] == 0x40 + ihl && f[23] == proto;
    assert f[26..30] == h[12..16] == src;
    assert f[30..34] == h[16..20] == dst;
    assert f[14 + 4 * ihl..14 + 4 * ihl + 2] == EncodeBE16(sport);
    assert f[14 + 4 * ihl + 2..14 + 4 * ihl + 4] == EncodeBE16(dport);
  }

  /** Decoding a built TCP or UDP frame gives back its addresses, its ports
      and its protocol. */
  lemma IpFrameRoundTrip(macs: seq<byte>, ihl: nat, proto: byte, src: seq<byte>, dst: seq<byte>,
                         sport: u16, dport: u16, payload: seq<byte>)
    requires |macs| == 12 && 5 <= ihl < 16 && |src| == 4 && |dst| == 4
    requires proto == IPPROTO_TCP || proto == IPPROTO_UDP
    ensures var f := IpFrame(macs, ihl, proto, src, dst, sport, dport, payload);
      && Readable(f)
      && var s := Classify(f);
      && s.protocol == (if proto == IPPROTO_TCP then "TCP" else "UDP")
      && ParseDottedQuad(s.source) == Some(src) && ParseDottedQuad(s.destination) == Some(dst)
      && s.srcPort == sport && s.dstPort == dport
  {
    var f := IpFrame(macs, ihl, proto, src, dst, sport, dport, payload);
    IpFrameFields(macs, ihl, proto, src, dst, sport, dport, payload);
    EncodeBE16RoundTrip(f, 14 + 4 * ihl);
    EncodeBE16RoundTrip(f, 14 + 4 * ihl + 2);
    BE16RoundTrip(sport);
    BE16RoundTrip(dport);
    DottedQuadRoundTrip(src);
    DottedQuadRoundTrip(dst);
  }

  /** A TCP segment from port 443 to port 51000 is listed as
      "TCP 443 → 51000". */
  lemma TcpExample(macs: seq<byte>, src: seq<byte>, dst: seq<byte>, payload: seq<byte>)
    requires |macs| == 12 && |src| == 4 && |dst| == 4
    ensures var s := Classify(IpFrame(macs, 5, IPPROTO_TCP, src, dst, 443, 51000, payload));
      s.protocol == "TCP" && s.srcPort == 443 && s.dstPort == 51000 && s.info == "TCP 443 → 51000"
  {
    var f := IpFrame(macs, 5, IPPROTO_TCP, src, dst, 443, 51000, payload);
    IpFrameRoundTrip(macs, 5, IPPROTO_TCP, src, dst, 443, 51000, payload);
    assert Classify(f).info == PortInfo("TCP", 443, 51000);
    ExampleInfo();
  }

  lemma ExampleInfo()
    ensures PortInfo("TCP", 443, 51000) == "TCP 443 → 51000"
  {
    ExampleDec();
    assert "TCP" + " " + "443" == "TCP 443";
    assert "TCP 443" + " → " == "TCP 443 → ";
    assert "TCP 443 → " + "51000" == "TCP 443 → 51000";
  }

  lemma ExampleDec()
    ensures Dec(443) == "443" && Dec(51000) == "51000"
  {
    assert Dec(4) == "4" && Dec(44) == "44";
    assert Dec(5) == "5" && Dec(51) == "51" && Dec(510) == "510" && Dec(5100) == "5100";
  }

  /** Every frame with EtherType 0x0806 is reported as ARP, whatever
      follows the Ethernet header. */
  lemma ArpFrame(macs: seq<byte>, payload: seq<byte>)
    requires |macs| == 12
    ensures var f := macs + [8, 6] + payload;
      Readable(f) && Classify(f) == Summary("ARP", "Unknown", "Unknown", 0, 0, "ARP packet")
  {
    var f := macs + [8, 6] + payload;
    assert f[12] == 8 && f[13] == 6;
  }
}
