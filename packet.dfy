/** The decoded-frame record handed from the capture side to the packet
    list and the capture-file writer (struct PacketInfo, packetsniffer.h). */
module Packet {
  import opened Common

  /** One captured frame. `data` is the display-only hex preview; `rawData`
      holds the frame bytes kept for export; `timestampMicros` is a quint64. */
  datatype PacketInfo = PacketInfo(
    number: int,
    timestamp: string,
    source: string,
    destination: string,
    srcPort: int,
    dstPort: int,
    protocol: string,
    length: int,
    info: string,
    data: string,
    rawData: seq<byte>,
    timestampMicros: u64)

  /** `PacketInfo()`: a value-initialised record, every number zero and every
      string and byte array empty. */
  const DefaultPacket: PacketInfo := PacketInfo(0, "", "", "", 0, 0, "", 0, "", "", [], 0)
}
