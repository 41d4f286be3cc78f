# Packet sniffer core, modelled in Dafny

This project models the deterministic core of a small Qt packet sniffer and
proves properties of it. It has five parts:

- **Frame decoder** (`CaptureThread::parseRawPacket`) — turns a captured
  Ethernet frame into a `PacketInfo` record: EtherType, IPv4 addresses,
  TCP/UDP ports, protocol name, info line, the raw bytes kept for export and
  a bounded hex preview.
- **Hex formatters** — `PacketSniffer::byteArrayToHex` (offset-prefixed
  lines over the first 256 bytes) and the inline preview of
  `parseRawPacket` (bare tokens over the first 128 bytes).
- **Capture session** — the `capturing` / `packetCount` state machine of
  `startCapture`, `stopCapture` and `parsePacket`, plus the per-frame
  numbering of the capture thread.
- **Packet list** (`PacketModel`) — a list that prepends new records and
  answers rows, roles and bounds-checked lookups.
- **Capture-file writer** (`MainWindow::writePcapFile`) — the classic
  little-endian libpcap file: a 24-byte global header, then a 16-byte
  record header and the raw bytes for each record that has raw bytes. A
  parser for the same format is included, and the writer is proved to
  round-trip through it. The interface-name guard of
  `MainWindow::onStartCapture` is modelled with it.

Files and modules:

| file | module | contents |
|---|---|---|
| `common.dfy` | `Common` | bytes, `u16`/`u32`/`u64`, `Option`, `Min` |
| `packet.dfy` | `Packet` | the `PacketInfo` record and its value-initialised default |
| `text.dfy` | `Text` | `QString::arg` decimal and zero-padded hex, `inet_ntop` dotted quads, `QString::contains`, with readers that invert them |
| `concat.dfy` | `Concat` | `Join` of text pieces and where each piece lands |
| `hexformat.dfy` | `HexFormat` | `byteArrayToHex` and the inline preview: loop methods, the functions they are proved equal to, and layout lemmas |
| `decoder.dfy` | `Decoder` | `parseRawPacket`, its specification `DecodeFrame`, and frame builders with round trips |
| `sniffer.dfy` | `Sniffer` | class `PacketSniffer`; the capture loop's numbering |
| `store.dfy` | `Store` | class `PacketModel` |
| `pcap.dfy` | `Pcap` | `writePcapFile`, the file layout, the parser and the round trip |
| `mainwindow.dfy` | `MainWindow` | the interface-name guard and `onStartCapture` |

Each loop of the source is a method whose `ensures` equates its result with
a specification function. Lemmas then prove what the source promises about
that function: layout, bounds, inverses and order.

Behaviour of the code worth noting:

- the info line uses the arrow U+2192 (`"TCP 443 → 51000"`);
- the packet list prepends, so row 0 is the newest record and
  `getAllPackets` returns the records newest first;
- "Save to pcap" (mainwindow.cpp:175, 193) writes what `getAllPackets`
  returns, so the exported file holds the records in reverse capture order
  (`Store.PacketModel.GetAllPackets` with `Pcap.RecordsRoundTrip`);
- an out-of-range `getPacket` returns a value-initialised record;
- the packet numbers of the sniffer restart at every successful
  `startCapture`; clearing the list leaves them alone;
- the check that refuses placeholder interface names is in the window, and
  `startCapture` accepts any name;
- the decoder reads the frame without checking its size, so the bytes it
  reads are a precondition (`Decoder.Readable`, plus `length <= |frame|`);
- every frame is decoded as Ethernet: the capture has no cooked-capture
  path;
- on Linux no socket is created, so `onSocketReadyRead` emits nothing there
  and the capture thread numbers its frames with its own counter.

## Model

| member | source | states |
|---|---|---|
| Text.Dec | packetsniffer.cpp:227 | `QString::arg` of a port: at least one digit, all digits, and no leading zero unless the number is 0 |
| Text.DecRoundTrip | packetsniffer.cpp:227 | the decimal digits of n read back as n |
| Text.DecInjective | packetsniffer.cpp:233 | different ports never print alike |
| Text.HexPadded | packetsniffer.cpp:128 | the low `width` lower-case hex digits of n are exactly `width` characters |
| Text.HexPaddedIsArg | packetsniffer.cpp:128 | for n below 16^width (width at least 1), the padded digits are exactly what `arg(n, width, 16, '0')` prints: all of n's digits, left-padded with '0' to `width`; n's digits fit the width |
| Text.HexPaddedRoundTrip | packetsniffer.cpp:132 | for n below 16^width, the zero-padded lower-case hex is all hex digits and reads back as n |
| Text.Hex2RoundTrip | packetsniffer.cpp:132 | a byte prints as two hex digits that read back as the byte |
| Text.Hex4RoundTrip | packetsniffer.cpp:128 | a line offset prints as four hex digits that read back as the offset |
| Text.ReadHex2 | packetsniffer.cpp:247 | two hex digits of a byte found anywhere in a text read back as that byte |
| Text.ContainsIff | mainwindow.cpp:105 | `contains(t)` holds exactly when t occurs at some position |
| Text.DottedQuadRoundTrip | packetsniffer.cpp:214-218 | the `inet_ntop` text of a 4-byte address splits on dots into four octets that read back as the address |
| HexFormat.Token | packetsniffer.cpp:132 | each byte is written as a three-character token |
| HexFormat.LineTokens | packetsniffer.cpp:131 | a line holds min(16, maxBytes − i) tokens, so at most sixteen and none past the cap |
| HexFormat.OffsetLabel | packetsniffer.cpp:128 | the offset label is six characters |
| HexFormat.DumpLines | packetsniffer.cpp:127 | the dump of m bytes has ceil(m / 16) lines |
| HexFormat.ByteArrayToHex | packetsniffer.cpp:122-143 | the method's result is `HexDump(data)`, the function the lemmas below describe |
| HexFormat.DumpLoop | packetsniffer.cpp:127-136 | the outer loop produces the lines for bytes 0, 16, 32, … below maxBytes, joined |
| HexFormat.AppendLine | packetsniffer.cpp:128-135 | one outer pass appends exactly that line: label, tokens, newline |
| HexFormat.AppendTokens | packetsniffer.cpp:131-133 | the inner loop appends the tokens of the bytes from the line's offset on, at most sixteen and none past the cap |
| HexFormat.PreviewCells | packetsniffer.cpp:246 | the preview has one cell per byte up to the cap |
| HexFormat.InlinePreview | packetsniffer.cpp:244-253 | the preview loop's result is `Preview(packet, length)` |
| HexFormat.LineShape | packetsniffer.cpp:128-135 | a line of n tokens is 7 + 3n characters: the label at 0, the tokens at 6, the newline at 6 + 3n |
| HexFormat.LineToken | packetsniffer.cpp:132 | byte b's token sits at column 6 + 3(b − i) of its line |
| HexFormat.FullLines | packetsniffer.cpp:127-136 | every line before the last is 55 characters |
| HexFormat.LineInBody | packetsniffer.cpp:127-136 | line L starts at character 55L of the dump body |
| HexFormat.DumpLineLabel | packetsniffer.cpp:128 | line L begins with the zero-padded hex offset 16L and ": " |
| HexFormat.DumpLineEnd | packetsniffer.cpp:135 | line L ends with a newline right after its last token |
| HexFormat.DumpTokenLayout | packetsniffer.cpp:131-133 | byte b on line L is written at 55L + 6 + 3(b − 16L) |
| HexFormat.DumpBodyShape | packetsniffer.cpp:127-136 | the lines contain no dot, and are empty only for an empty array |
| HexFormat.HexDumpPrefix | packetsniffer.cpp:138-140 | the suffix comes after all the lines |
| HexFormat.HexDumpDot | packetsniffer.cpp:138-140 | the "more bytes" suffix (the only place with a dot) is present iff the array exceeds 256 bytes |
| HexFormat.HexDumpEmpty | packetsniffer.cpp:122-143 | the result is empty iff the array is empty |
| HexFormat.HexDumpLabel | packetsniffer.cpp:128 | in the full result, line L starts at 55L with the offset label of 16L |
| HexFormat.HexDumpByte | packetsniffer.cpp:131-133 | in the full result, each byte below the cap appears at its column as two hex digits that read back as the byte |
| HexFormat.PreviewLength | packetsniffer.cpp:246-249 | the first k cells take 3k + k / 16 characters |
| HexFormat.PreviewCellAt | packetsniffer.cpp:246-249 | cell k starts at 3k + k / 16 |
| HexFormat.PreviewByte | packetsniffer.cpp:247 | byte k of the preview is written at 3k + k / 16 as two hex digits that read back as the byte |
| HexFormat.PreviewNewline | packetsniffer.cpp:248 | every sixteenth token is followed by a newline |
| HexFormat.PreviewShape | packetsniffer.cpp:245-252 | min(n, 128) tokens occupy 3·min(n, 128) + min(n, 128) / 16 characters at the head; the suffix is present iff n > 128 |
| HexFormat.PreviewOfPrefix | packetsniffer.cpp:244-249 | the preview reads only the first `length` bytes |
| Decoder.BE16RoundTrip | packetsniffer.cpp:225-226 | `ntohs` of a port's two network-order bytes gives the port back |
| Decoder.EncodeBE16RoundTrip | packetsniffer.cpp:208 | any two bytes are the network-order encoding of what `ntohs` reads from them |
| Decoder.IpHeaderLen | packetsniffer.cpp:220 | `ip_hl * 4` is a multiple of 4 no greater than 60 |
| Decoder.ParseRawPacket | packetsniffer.cpp:189-256 | the method's record is `DecodeFrame(...)`, the function the lemmas below describe |
| Decoder.DecodeKeepsBytes | packetsniffer.cpp:194-253 | rawData is exactly the first `length` bytes; `length` is the wire length; the preview is that of rawData and has the suffix iff length > 128 |
| Decoder.ProtocolIff | packetsniffer.cpp:208-241 | the protocol is "ARP", "TCP", "UDP" or "ICMP" exactly for its EtherType and IP protocol number, and "Unknown" for everything else |
| Decoder.UnrecognisedFrame | packetsniffer.cpp:194-200 | a frame neither IPv4 nor ARP keeps "Unknown" protocol and addresses, zero ports, empty info and the wire length |
| Decoder.IcmpInfo | packetsniffer.cpp:234-236 | the info is "ICMP packet" exactly for an IPv4 frame with protocol number 1, and such a frame is "ICMP" with zero ports |
| Decoder.PortsOnlyForTransport | packetsniffer.cpp:222-237 | ports are zero unless TCP or UDP, and then are read big-endian at 14 + IHL·4 and 14 + IHL·4 + 2 |
| Decoder.AddressesIff | packetsniffer.cpp:208-218 | the addresses differ from "Unknown" iff the frame is IPv4, and then read back as bytes 26–29 and 30–33 |
| Decoder.PortInfoRoundTrip | packetsniffer.cpp:227 | the info line "P s → d" splits on spaces back into P, s and d |
| Decoder.InfoMatchesPorts | packetsniffer.cpp:225-233 | a TCP or UDP record's info line reads back as its protocol and its two ports |
| Decoder.MicrosSplit | packetsniffer.cpp:193 | `tv_sec * 1000000 + tv_usec` splits back into seconds and microseconds when it fits in 64 bits |
| Decoder.IpFrameFields | packetsniffer.cpp:206-224 | a frame built from MACs, an IPv4 header and two ports has those bytes where the decoder reads them, for any IHL from 5 to 15 |
| Decoder.IpFrameRoundTrip | packetsniffer.cpp:208-233 | decoding a built TCP or UDP frame gives back its protocol, addresses and ports, for any IHL from 5 to 15 |
| Decoder.TcpExample | packetsniffer.cpp:222-227 | a TCP segment from port 443 to 51000 is listed as "TCP 443 → 51000" |
| Decoder.ArpFrame | packetsniffer.cpp:238-241 | any frame with EtherType 0x0806 is "ARP" / "ARP packet" with unknown addresses and zero ports |
| Sniffer.PacketSniffer.constructor | packetsniffer.cpp:16-26 | a new sniffer is not capturing and has counted nothing |
| Sniffer.PacketSniffer.StartCapture | packetsniffer.cpp:33-64 | refused without any change while capturing; otherwise succeeds on Linux, and on Android iff the socket binds; success sets capturing and resets the count, and leaves a socket open exactly on Android |
| Sniffer.PacketSniffer.StopCapture | packetsniffer.cpp:66-88 | afterwards not capturing and no socket open; the worker is dropped when capturing and untouched otherwise; the count is kept |
| Sniffer.PacketSniffer.ParsePacket | packetsniffer.cpp:98-115 | increments the count and emits the datagram's record numbered with it, with `byteArrayToHex` of its bytes |
| Sniffer.PacketSniffer.OnSocketReadyRead | packetsniffer.cpp:90-96 | without a socket nothing is emitted and the count is kept; with one, the records emitted are the pending datagrams' records in order, numbered on from the count, and the count grows by their number |
| Sniffer.NumberedStep | packetsniffer.cpp:92-94 | parsing one more datagram with the next number extends the batch by exactly its record |
| Sniffer.NumberedAt | packetsniffer.cpp:92-94 | record i of a batch is the record of datagram i numbered start + i + 1 |
| Sniffer.StartThenReceive | packetsniffer.cpp:39-57 | the start succeeds and leaves a valid capturing sniffer with a socket exactly on Android; there the datagrams are numbered 1, 2, 3, …; after a Linux start no socket exists and no datagram is read |
| Sniffer.CaptureLoop | packetsniffer.cpp:174-183 | each frame pcap_next returns is decoded and numbered from 1; null results are skipped without using a number |
| Sniffer.FramesSound | packetsniffer.cpp:177-179 | the frames numbered are exactly the non-null results |
| Sniffer.FramesAllPresent | packetsniffer.cpp:177-179 | with no null result, frame i is poll i |
| Store.ReversedAt | packetmodel.cpp:58 | row i of a list built by prepending is the (n − 1 − i)-th record added |
| Store.ReversedTwice | packetmodel.cpp:79 | reading the list back to front recovers the order of the calls |
| Store.RoleValue | packetmodel.cpp:22-35 | a role yields a value exactly when it names a field of the record |
| Store.RolesSeparate | packetmodel.cpp:22-35 | two records that agree on every role agree on every field shown |
| Store.PacketModel.constructor | packetmodel.cpp:3-6 | a new list is empty |
| Store.PacketModel.RowCount | packetmodel.cpp:8-12 | the row count is the number of records added since the last clear |
| Store.PacketModel.AddPacket | packetmodel.cpp:55-60 | the new record is row 0, the count grows by one, every old row i moves unchanged to i + 1 |
| Store.PacketModel.Clear | packetmodel.cpp:62-67 | no rows afterwards |
| Store.PacketModel.GetPacket | packetmodel.cpp:69-75 | when 0 ≤ row < count, the record on the row, which is the (count − 1 − row)-th record added; otherwise the value-initialised record |
| Store.PacketModel.GetAllPackets | packetmodel.cpp:77-80 | all rows, newest first: the reverse of the order of the addPacket calls |
| Store.PacketModel.Data | packetmodel.cpp:14-36 | the empty value for an invalid index or a row past the end, otherwise the field the role names |
| Pcap.LE32RoundTrip | mainwindow.cpp:213 | a 32-bit field written little-endian reads back |
| Pcap.LE16RoundTrip | mainwindow.cpp:217-218 | a 16-bit field written little-endian reads back |
| Pcap.GlobalHeader | mainwindow.cpp:216-222 | the global header is 24 bytes |
| Pcap.TsUsec | mainwindow.cpp:231 | `ts_usec` is below one million |
| Pcap.RecordHeader | mainwindow.cpp:235-239 | a record header is 16 bytes |
| Pcap.WritePcapFile | mainwindow.cpp:205-247 | false with nothing written when the file cannot be opened; otherwise true and exactly `PcapFile(packets)` |
| Pcap.WriteGlobalHeader | mainwindow.cpp:216-222 | the seven fields pushed in turn form the global header |
| Pcap.WriteRecord | mainwindow.cpp:230-242 | one pass writes ts_sec, ts_usec, incl_len, orig_len and the raw bytes |
| Pcap.RecordsSnoc | mainwindow.cpp:225-243 | records are written in list order |
| Pcap.RecordFields | mainwindow.cpp:230-242 | each header field of a record reads back from its offset, followed by the raw bytes and then the next record |
| Pcap.RecordsRoundTrip | mainwindow.cpp:225-243 | the records parse back as the packets with raw bytes, in order, with their four fields and bytes |
| Pcap.GlobalHeaderFields | mainwindow.cpp:216-222 | the header reads back as magic 0xa1b2c3d4, version 2.4, zone 0, accuracy 0, snaplen 65535, link type 1 |
| Pcap.PcapRoundTrip | mainwindow.cpp:205-247 | a written file parses as classic pcap: the constant header and one record per packet with raw bytes |
| Pcap.PcapLength | mainwindow.cpp:225-243 | the file is 24 + Σ(16 + raw size) bytes over the packets with raw bytes |
| Pcap.EmptyPacketsVanish | mainwindow.cpp:226-228 | packets without raw bytes leave only the global header |
| Pcap.DecodedTimestamp | mainwindow.cpp:230-233 | for capture seconds below 2^32, microseconds below 1000000 and a length below 2^32, a decoded frame is exported with those seconds and microseconds and its wire length as both lengths (past 2^32 seconds `ts_sec` wraps) |
| MainWindow.ValidInterfaceIff | mainwindow.cpp:105 | a name is accepted iff it is non-empty and "No" occurs nowhere in it |
| MainWindow.RejectsNo | mainwindow.cpp:105 | any name containing "No" is refused |
| MainWindow.ChosenFallback | mainwindow.cpp:99-103 | the displayed text is checked only when the item data is empty |
| MainWindow.OnStartCapture | mainwindow.cpp:97-119 | a refused name warns and leaves the sniffer untouched; otherwise the outcome is Started exactly when startCapture succeeds, after which the sniffer is capturing with a zero count and a socket exactly on Android, and Failed leaves capturing, count and socket as they were |

## Left out

- Wall-clock time (`formatTimestamp`, `QDateTime::currentDateTime`) is an input: the time of day as text and the seconds, microseconds or milliseconds as numbers.
- `CaptureThread::run`'s device handling (`pcap_open_live`, `pcap_close`, the cross-thread `stopRequested` flag) is left out. Only its numbering loop is modelled, over the finite sequence of `pcap_next` results seen before the stop.
- The UDP socket of the Android build is a `binds` input to `StartCapture` and a sequence of received datagrams. A sender address is the text `QHostAddress::toString` gives for it.
- The capture thread is a ghost `worker` flag and the socket a `socketOpen` flag; signals are return values.
- `PacketModel::roleNames`, and the `TimestampSecsRole` and `InterfaceRole` cases of `data`, are left out. Those cases read fields the record does not have, so the model answers them as it answers any other role without a field: with the empty value.
- Qt's model-change notifications (`beginInsertRows`, `beginResetModel`) and all widgets, dialogs and message boxes are left out.
- QFile and QDataStream are modelled as the byte sequence written; a failed open is a boolean input.
- Decoder.ParseRawPacket: the frame must hold the bytes the source reads, because the source does not check the size. The model does not say what happens on a short frame (the source reads past the buffer).
- Decoder.DecodeFrame: `number` is 0 in the model. The source leaves it indeterminate and `CaptureThread::run` overwrites it.
- Sniffer.PacketSniffer.ParsePacket: the info text is modelled as a plain concatenation of the sender, ":" and the port. The chained `QString::arg` of packetsniffer.cpp:110 also puts the port in place of a `%` and digits that the sender text brings in (an IPv6 scope id such as `fe80::1%2`); such sender texts are not modelled.
- Sniffer.PacketSniffer.ParsePacket: `++packetCount` and the `int` fields are unbounded integers; the `int` overflow after 2^31 packets is not modelled.
- Pcap.RecordsRoundTrip: the raw bytes must be shorter than 2^32, the range of `incl_len`.
- Main program start-up, interface enumeration and the detail pane of the window are outside the model.
