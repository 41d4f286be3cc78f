/** The capture session of PacketSniffer: the `capturing` and `packetCount`
    fields that startCapture, stopCapture and parsePacket update, and the
    per-packet numbering of the capture thread. The capture thread (Linux)
    and the UDP socket (Android) are abstract: a ghost flag records whether
    one exists, and what they deliver arrives as plain inputs. */
module Sniffer {
  import opened Common
  import opened Text
  import opened HexFormat
  import opened Packet
  import opened Decoder

  /** The two builds of startCapture. */
  datatype Platform = Linux | Android

  /** A datagram read by onSocketReadyRead, with the wall-clock reading
      taken when parsePacket handled it (the time of day as text and the
      milliseconds since the epoch). */
  datatype Datagram = Datagram(data: seq<byte>, sender: string, port: u16, clock: string, msecs: int)

  /** The record parsePacket builds for datagram `d` before numbering it:
      the sender and its port, an unknown destination, the whole datagram as
      raw bytes and its byteArrayToHex dump. */
  function UdpFields(d: Datagram): PacketInfo
  {
    PacketInfo(0, d.clock, d.sender, "Unknown", d.port, 0, "UDP", |d.data|,
      "UDP packet from " + d.sender + ":" + Dec(d.port), HexDump(d.data), d.data,
      (d.msecs * 1000) % TWO_TO_THE_64)
  }

  /** The record parsePacket emits for datagram `d` as packet number `n`. */
  function UdpRecord(n: int, d: Datagram): PacketInfo
  {
    UdpFields(d).(number := n)
  }

  class PacketSniffer {
    var capturing: bool
    var packetCount: int
    /** Whether the UDP socket exists (udpSocket is not null). */
    var socketOpen: bool
    /** Whether a capture thread or a bound socket is in place. */
    ghost var worker: bool

    /** A worker exists exactly while capturing, a socket only while
        capturing, and the count never goes negative. */
    ghost predicate Valid()
      reads this
    {
      worker == capturing && (socketOpen ==> capturing) && packetCount >= 0
    }

    constructor ()
      ensures Valid() && !capturing && !socketOpen && packetCount == 0
    {
      capturing := false;
      packetCount := 0;
      socketOpen := false;
      worker := false;
    }

    /** startCapture: refused while a capture is running; on Linux it starts
        the capture thread and succeeds without creating a socket; on
        Android it succeeds exactly when the socket binds, and a socket that
        does not bind is deleted again. A success restarts the packet
        count. */
    method StartCapture(iface: string, platform: Platform, binds: bool) returns (ok: bool)
      requires Valid()
      modifies this
      ensures Valid()
      ensures ok <==> !old(capturing) && (platform == Linux || binds)
      ensures ok ==> capturing && packetCount == 0 && socketOpen == (platform == Android)
      ensures !ok ==> capturing == old(capturing) && packetCount == old(packetCount) && socketOpen == old(socketOpen)
    {
      if capturing {
        return false;
      }
      if platform == Linux {
        worker := true;
        capturing := true;
        packetCount := 0;
        return true;
      }
      if binds {
        socketOpen := true;
        worker := true;
        capturing := true;
        packetCount := 0;
        return true;
      }
      socketOpen := false;
      return false;
    }

    /** stopCapture: does nothing unless capturing; otherwise stops and
        drops the worker and the socket. Either way the session is stopped
        afterwards and the count is kept. */
    method StopCapture()
      requires Valid()
      modifies this
      ensures Valid() && !capturing && !socketOpen && packetCount == old(packetCount)
      ensures !old(capturing) ==> worker == old(worker)
    {
      if !capturing {
        return;
      }
      socketOpen := false;
      worker := false;
      capturing := false;
    }

    /** parsePacket: numbers the datagram with the incremented count and
        emits its record. */
    method ParsePacket(d: Datagram) returns (packet: PacketInfo)
      requires Valid()
      modifies this
      ensures Valid() && capturing == old(capturing) && socketOpen == old(socketOpen)
      ensures packetCount == old(packetCount) + 1
      ensures packet == UdpRecord(old(packetCount) + 1, d)
    {
      packetCount := packetCount + 1;
      var hex := ByteArrayToHex(d.data);
      packet := PacketInfo(packetCount, d.clock, d.sender, "Unknown", d.port, 0, "UDP", |d.data|,
        "UDP packet from " + d.sender + ":" + Dec(d.port), hex, d.data,
        (d.msecs * 1000) % TWO_TO_THE_64);
      assert packet == UdpFields(d).(number := packetCount);
    }

    /** onSocketReadyRead: without a socket nothing is read; otherwise
        parsePacket on every pending datagram in turn, numbered on from the
        current count. */
    method OnSocketReadyRead(pending: seq<Datagram>) returns (emitted: seq<PacketInfo>)
      requires Valid()
      modifies this
      ensures Valid() && capturing == old(capturing) && socketOpen == old(socketOpen)
      ensures !socketOpen ==> emitted == [] && packetCount == old(packetCount)
      ensures socketOpen ==> packetCount == old(packetCount) + |pending|
      ensures socketOpen ==> emitted == NumberedBy(UdpRecord, old(packetCount), pending, |pending|)
    {
      emitted := [];
      if !socketOpen {
        return;
      }
      ghost var start := packetCount;
      var k := 0;
      while k < |pending|
        invariant 0 <= k <= |pending| && Valid() && capturing == old(capturing) && socketOpen
        invariant packetCount == start + k
        invariant emitted == NumberedBy(UdpRecord, start, pending, k)
      {
        ghost var n := packetCount;
        var packet := ParsePacket(pending[k]);
        NumberedStep(start, pending, k, n, packet, emitted);
        emitted := emitted + [packet];
        k := k + 1;
      }
    }
  }

  /** The records `f` makes of the first k datagrams of `ds` in turn,
      numbered on from `start`. */
  function NumberedBy<T>(f: (int, Datagram) -> T, start: int, ds: seq<Datagram>, k: nat): (r: seq<T>)
    requires k <= |ds|
    ensures |r| == k
  {
    if k == 0 then [] else NumberedBy(f, start, ds, k - 1) + [f(start + k, ds[k - 1])]
  }

  /** The record of one more datagram, numbered after the others, extends
      the batch. */
  lemma NumberedStep(start: int, ds: seq<Datagram>, k: nat, n: int, packet: PacketInfo, emitted: seq<PacketInfo>)
    requires k < |ds| && n == start + k && packet == UdpRecord(n + 1, ds[k])
    requires emitted == NumberedBy(UdpRecord, start, ds, k)
    ensures emitted + [packet] == NumberedBy(UdpRecord, start, ds, k + 1)
  {
    NumberedSnoc(UdpRecord, start, ds, k, n + 1);
  }

  /** One more datagram appends its record, numbered after the others. */
  lemma NumberedSnoc<T>(f: (int, Datagram) -> T, start: int, ds: seq<Datagram>, k: nat, num: int)
    requires k < |ds| && num == start + k + 1
    ensures NumberedBy(f, start, ds, k + 1) == NumberedBy(f, start, ds, k) + [f(num, ds[k])]
  {
  }

  /** Record i of a batch is made of datagram i with number start + i + 1. */
  lemma {:induction false} NumberedAt<T>(f: (int, Datagram) -> T, start: int, ds: seq<Datagram>, k: nat, i: nat)
    requires i < k <= |ds|
    ensures NumberedBy(f, start, ds, k)[i] == f(start + i + 1, ds[i])
    decreases k
  {
    if i < k - 1 {
      NumberedAt(f, start, ds, k - 1, i);
    }
  }

  /** A session started and then handed datagrams: on Android they are
      numbered 1, 2, 3, ...; on Linux there is no socket and none is read
      (the capture thread numbers its frames itself, see CaptureLoop). */
  method StartThenReceive(s: PacketSniffer, iface: string, platform: Platform, pending: seq<Datagram>)
    returns (ok: bool, emitted: seq<PacketInfo>)
    requires s.Valid() && !s.capturing
    modifies s
    ensures ok && s.Valid() && s.capturing && s.socketOpen == (platform == Android)
    ensures platform == Linux ==> emitted == [] && s.packetCount == 0
    ensures platform == Android ==> |emitted| == |pending| == s.packetCount
    ensures platform == Android ==> forall i :: 0 <= i < |emitted| ==> emitted[i].number == i + 1
  {
    ok := s.StartCapture(iface, platform, true);
    emitted := s.OnSocketReadyRead(pending);
    if platform == Android {
      forall i | 0 <= i < |emitted|
        ensures emitted[i].number == i + 1
      {
        NumberedAt(UdpRecord, 0, pending, |pending|, i);
      }
    }
  }

  // ---------------------------------------------------------------------
  // CaptureThread::run

  /** One frame pcap_next returned, with its pcap header: the wire length
      and the capture time, and the time of day the thread formats. */
  datatype Capture = Capture(frame: seq<byte>, len: int, sec: int, usec: int, clock: string)

  predicate Decodable(c: Capture)
  {
    Readable(c.frame) && 0 <= c.len <= |c.frame|
  }

  function Decode(c: Capture): PacketInfo
    requires Decodable(c)
  {
    DecodeFrame(c.frame, c.len, c.sec, c.usec, c.clock)
  }

  /** The frames among the results of successive pcap_next calls (None is a
      null return: a timeout with no frame). */
  function Frames(polls: seq<Option<Capture>>): (fs: seq<Capture>)
    ensures |fs| <= |polls|
  {
    if polls == [] then []
    else Frames(polls[..|polls| - 1]) + (if polls[|polls| - 1].Some? then [polls[|polls| - 1].value] else [])
  }

  /** The capture loop of CaptureThread::run over the results of pcap_next
      until the stop request: each frame is decoded and numbered from 1 on;
      null results are skipped and do not use up a number. */
  method CaptureLoop(polls: seq<Option<Capture>>) returns (emitted: seq<PacketInfo>)
    requires forall i :: 0 <= i < |polls| && polls[i].Some? ==> Decodable(polls[i].value)
    ensures |emitted| == |Frames(polls)|
    ensures forall i :: 0 <= i < |emitted| ==>
      Decodable(Frames(polls)[i]) && emitted[i] == Decode(Frames(polls)[i]).(number := i + 1)
  {
    emitted := [];
    var packetNumber := 0;
    var k := 0;
    while k < |polls|
      invariant 0 <= k <= |polls|
      invariant packetNumber == |emitted| == |Frames(polls[..k])|
      invariant forall i :: 0 <= i < |emitted| ==>
        Decodable(Frames(polls[..k])[i]) && emitted[i] == Decode(Frames(polls[..k])[i]).(number := i + 1)
    {
      assert polls[..k + 1][..k] == polls[..k];
      if polls[k].Some? {
        var c := polls[k].value;
        var info := ParseRawPacket(c.frame, c.len, c.sec, c.usec, c.clock);
        packetNumber := packetNumber + 1;
        info := info.(number := packetNumber);
        emitted := emitted + [info];
      }
      k := k + 1;
    }
    assert polls[..k] == polls;
  }

  /** Frames keeps every frame, in order: the result is exactly the present
      values, and nothing else. */
  lemma {:induction false} FramesSound(polls: seq<Option<Capture>>)
    ensures forall c :: c in Frames(polls) <==> Some(c) in polls
    decreases |polls|
  {
    if polls != [] {
      var n := |polls| - 1;
      FramesSound(polls[..n]);
      assert polls == polls[..n] + [polls[n]];
    }
  }

  /** Polls without a null result keep their number of frames. */
  lemma {:induction false} FramesAllPresent(polls: seq<Option<Capture>>)
    requires forall i :: 0 <= i < |polls| ==> polls[i].Some?
    ensures |Frames(polls)| == |polls|
    ensures forall i :: 0 <= i < |polls| ==> Frames(polls)[i] == polls[i].value
    decreases |polls|
  {
    if polls != [] {
      FramesAllPresent(polls[..|polls| - 1]);
    }
  }
}
