/** The two bounded hex previews of a frame: PacketSniffer::byteArrayToHex
    (offset-prefixed lines over the first 256 bytes) and the inline preview
    at the end of CaptureThread::parseRawPacket (bare tokens over the first
    128 bytes). Each is a loop appending to a string, proved equal to a
    specification function built with Concat.Join, whose layout the lemmas
    below pin down.

    Both print sixteen bytes per line. A full byteArrayToHex line
    "oooo: " + 16 * "xx " + "\n" is 55 characters long. */
module HexFormat {
  import opened Common
  import opened Text
  import opened Concat

  /** One byte as "xx ". */
  function Token(b: byte): (t: string)
    ensures |t| == 3
  {
    Hex2(b) + " "
  }

  /** The suffix noting how many bytes past the cap were left out. */
  function MoreBytes(k: nat): string
  {
    "\n... (" + Dec(k) + " more bytes)"
  }

  /** Proof helper: regrouping a concatenation of three strings. */
  lemma Assoc(a: string, b: string, c: string)
    ensures a + b + c == a + (b + c)
  {
  }

  // ---------------------------------------------------------------------
  // byteArrayToHex

  /** Number of lines needed for m bytes at sixteen per line. */
  function LineCount(m: nat): nat
  {
    (m + 15) / 16
  }

  /** The tokens of the line starting at byte i of the first m bytes of d:
      at most sixteen, and none past m. */
  function LineTokens(d: seq<byte>, m: nat, i: nat): (ts: seq<string>)
    requires i < m <= |d|
    ensures |ts| == Min(i + 16, m) - i
  {
    seq(Min(i + 16, m) - i, k requires 0 <= k < Min(i + 16, m) - i => Token(d[i + k]))
  }

  /** The zero-padded four-digit offset of a line and ": ". */
  function OffsetLabel(i: u16): (s: string)
    ensures |s| == 6
  {
    Hex4(i) + ": "
  }

  /** The line starting at byte i: its offset label, the tokens, newline. */
  function DumpLine(d: seq<byte>, m: nat, i: nat): string
    requires i < m <= |d| && m <= 256
  {
    OffsetLabel(i) + Join(LineTokens(d, m, i)) + "\n"
  }

  /** The lines of the dump of the first m bytes of d. */
  function DumpLines(d: seq<byte>, m: nat): (lines: seq<string>)
    requires m <= |d| && m <= 256
    ensures |lines| == LineCount(m)
  {
    seq(LineCount(m), L requires 0 <= L < LineCount(m) => DumpLine(d, m, 16 * L))
  }

  /** Everything byteArrayToHex prints before the suffix. */
  function DumpBody(data: seq<byte>): string
  {
    Join(DumpLines(data, Min(|data|, 256)))
  }

  /** What byteArrayToHex returns for `data`. */
  function HexDump(data: seq<byte>): string
  {
    DumpBody(data) + (if |data| > 256 then MoreBytes(|data| - 256) else "")
  }

  /** PacketSniffer::byteArrayToHex: at most 256 bytes are dumped, and the
      suffix names how many were left out. */
  method ByteArrayToHex(data: seq<byte>) returns (hex: string)
    ensures hex == HexDump(data)
  {
    var maxBytes := Min(|data|, 256);
    hex := DumpLoop(data, maxBytes);
    if |data| > maxBytes {
      hex := hex + MoreBytes(|data| - maxBytes);
    }
  }

  /** The outer loop of byteArrayToHex: one line per sixteen bytes (its body
      is AppendLine below). */
  method DumpLoop(data: seq<byte>, maxBytes: nat) returns (hex: string)
    requires maxBytes <= |data| && maxBytes <= 256
    ensures hex == Join(DumpLines(data, maxBytes))
  {
    ghost var lines := DumpLines(data, maxBytes);
    hex := "";
    var i := 0;
    ghost var line := 0;
    while i < maxBytes
      invariant i == 16 * line && line <= |lines|
      invariant hex == Join(lines[..line])
      decreases maxBytes - i
    {
      hex := AppendLine(data, maxBytes, i, hex);
      JoinTake(lines, line);
      i := i + 16;
      line := line + 1;
    }
    assert lines[..line] == lines;
  }

  /** One pass of the outer loop of byteArrayToHex: the offset label, then
      the inner loop over at most sixteen bytes, then the newline. */
  method AppendLine(data: seq<byte>, maxBytes: nat, i: nat, hex: string) returns (out: string)
    requires i < maxBytes <= |data| && maxBytes <= 256
    ensures out == hex + DumpLine(data, maxBytes, i)
  {
    out := AppendTokens(data, maxBytes, i, hex + OffsetLabel(i));
    out := out + "\n";
    Assoc(hex, OffsetLabel(i), Join(LineTokens(data, maxBytes, i)));
    Assoc(hex, OffsetLabel(i) + Join(LineTokens(data, maxBytes, i)), "\n");
  }

  /** The inner loop of byteArrayToHex: the tokens of the bytes from i on,
      stopping after sixteen or at the cap. */
  method AppendTokens(data: seq<byte>, maxBytes: nat, i: nat, start: string) returns (out: string)
    requires i < maxBytes <= |data|
    ensures out == start + Join(LineTokens(data, maxBytes, i))
  {
    ghost var tokens := LineTokens(data, maxBytes, i);
    out := start;
    var j := 0;
    while j < 16 && i + j < maxBytes
      invariant 0 <= j <= |tokens|
      invariant out == start + Join(tokens[..j])
    {
      out := out + Token(data[i + j]);
      JoinTake(tokens, j);
      Assoc(start, Join(tokens[..j]), tokens[j]);
      j := j + 1;
    }
    assert tokens[..j] == tokens;
  }

  // ---------------------------------------------------------------------
  // Inline preview of parseRawPacket

  /** The token of byte k, followed by a newline when it is the sixteenth of
      its line. */
  function PreviewCell(b: byte, k: nat): string
  {
    Token(b) + (if (k + 1) % 16 == 0 then "\n" else "")
  }

  /** The cells of the first n bytes of d. */
  function PreviewCells(d: seq<byte>, n: nat): (cells: seq<string>)
    requires n <= |d|
    ensures |cells| == n
  {
    seq(n, k requires 0 <= k < n => PreviewCell(d[k], k))
  }

  /** The preview parseRawPacket stores in `data` for a frame buffer of
      which `length` bytes are taken. */
  function Preview(d: seq<byte>, length: nat): string
    requires length <= |d|
  {
    Join(PreviewCells(d, Min(length, 128))) + (if length > 128 then MoreBytes(length - 128) else "")
  }

  /** The preview loop of parseRawPacket over the first `length` bytes of the
      frame buffer. */
  method InlinePreview(packet: seq<byte>, length: int) returns (hex: string)
    requires 0 <= length <= |packet|
    ensures hex == Preview(packet, length)
  {
    var maxBytes := Min(length, 128);
    ghost var cells := PreviewCells(packet, maxBytes);
    hex := "";
    var i := 0;
    while i < maxBytes
      invariant 0 <= i <= maxBytes
      invariant hex == Join(cells[..i])
    {
      ghost var before := hex;
      hex := hex + Token(packet[i]);
      if (i + 1) % 16 == 0 {
        hex := hex + "\n";
      }
      JoinTake(cells, i);
      assert hex == before + cells[i];
      i := i + 1;
    }
    assert cells[..i] == cells;
    if length > maxBytes {
      hex := hex + MoreBytes(length - maxBytes);
    }
  }

  // ---------------------------------------------------------------------
  // Characters that never occur in a dump body

  /** Hex digits are neither newlines nor dots. */
  lemma {:induction false} HexNoDot(n: nat, width: nat)
    ensures '\n' !in HexPadded(n, width) && '.' !in HexPadded(n, width)
    decreases width
  {
    if width > 0 {
      HexNoDot(n / 16, width - 1);
    }
  }

  lemma TokensNoDot(ts: seq<string>, d: seq<byte>, i: nat)
    requires i + |ts| <= |d|
    requires forall k :: 0 <= k < |ts| ==> ts[k] == Token(d[i + k])
    ensures '.' !in Join(ts)
  {
    forall k | 0 <= k < |ts|
      ensures '.' !in ts[k]
    {
      HexNoDot(d[i + k], 2);
    }
    JoinExcludes(ts, '.');
  }

  lemma DumpLineNoDot(d: seq<byte>, m: nat, i: nat)
    requires i < m <= |d| && m <= 256
    ensures '.' !in DumpLine(d, m, i)
  {
    TokensNoDot(LineTokens(d, m, i), d, i);
    HexNoDot(i, 4);
  }

  // ---------------------------------------------------------------------
  // Layout of byteArrayToHex

  /** A token starts with the byte's two hex digits. */
  lemma TokenDigits(b: byte)
    ensures OccursAt(Token(b), Hex2(b), 0)
  {
    assert (Hex2(b) + " ")[0..2] == Hex2(b);
  }

  /** The line starting at byte i holds n = min(i + 16, m) - i tokens and is
      3n + 7 characters long: the offset label, the tokens, the newline. */
  lemma LineShape(d: seq<byte>, m: nat, i: nat)
    requires i < m <= |d| && m <= 256
    ensures var line, n := DumpLine(d, m, i), Min(i + 16, m) - i;
      && |line| == 7 + 3 * n
      && OccursAt(line, OffsetLabel(i), 0)
      && OccursAt(line, Join(LineTokens(d, m, i)), 6)
      && OccursAt(line, "\n", 6 + 3 * n)
  {
    var ts := LineTokens(d, m, i);
    forall k | 0 <= k < |ts|
      ensures |ts[k]| == 3
    {
      assert ts[k] == Token(d[i + k]);
    }
    JoinUniformLength(ts, 3);
    Middle(OffsetLabel(i), Join(ts), "\n");
  }

  /** Byte b's token sits at column 6 + 3 * (b - i) of the line starting at
      byte i. */
  lemma LineToken(d: seq<byte>, m: nat, i: nat, b: nat)
    requires i < m <= |d| && m <= 256 && i <= b < Min(i + 16, m)
    ensures OccursAt(DumpLine(d, m, i), Token(d[b]), 6 + 3 * (b - i))
  {
    var ts := LineTokens(d, m, i);
    forall k | 0 <= k < b - i
      ensures |ts[k]| == 3
    {
      assert ts[k] == Token(d[i + k]);
    }
    JoinAt(ts, b - i, 3);
    assert ts[b - i] == Token(d[b]);
    LineShape(d, m, i);
    OccursWithin(DumpLine(d, m, i), Join(ts), Token(d[b]), 6, 3 * (b - i));
  }

  /** Every line but a short last one is 55 characters long. */
  lemma FullLines(d: seq<byte>, m: nat, k: nat)
    requires m <= |d| && m <= 256 && 16 * k <= m
    ensures k <= |DumpLines(d, m)|
    ensures forall L :: 0 <= L < k ==> |DumpLines(d, m)[L]| == 55
  {
    forall L | 0 <= L < k
      ensures |DumpLines(d, m)[L]| == 55
    {
      LineShape(d, m, 16 * L);
    }
  }

  /** Line L of the dump starts at character 55 * L, every line before it
      being full. */
  lemma LineInBody(d: seq<byte>, m: nat, L: nat)
    requires m <= |d| && m <= 256 && 16 * L < m
    ensures L < |DumpLines(d, m)|
    ensures OccursAt(Join(DumpLines(d, m)), DumpLine(d, m, 16 * L), 55 * L)
  {
    FullLines(d, m, L);
    JoinAt(DumpLines(d, m), L, 55);
  }

  /** Line L (the line of bytes 16L to 16L + 15) starts at character 55 * L
      with the offset label of 16 * L. */
  lemma DumpLineLabel(d: seq<byte>, m: nat, L: nat)
    requires m <= |d| && m <= 256 && 16 * L < m
    ensures OccursAt(Join(DumpLines(d, m)), OffsetLabel(16 * L), 55 * L)
  {
    LineInBody(d, m, L);
    LineShape(d, m, 16 * L);
    OccursAtHead(Join(DumpLines(d, m)), DumpLine(d, m, 16 * L), OffsetLabel(16 * L), 55 * L);
  }

  /** A line of n tokens ends with its newline at column 6 + 3n. */
  lemma LineEnd(d: seq<byte>, m: nat, i: nat, n: nat)
    requires i < m <= |d| && m <= 256 && n == Min(i + 16, m) - i
    ensures OccursAt(DumpLine(d, m, i), "\n", 6 + 3 * n)
  {
    LineShape(d, m, i);
  }

  /** Line L, of n tokens, ends with a newline right after its last
      token. */
  lemma DumpLineEnd(d: seq<byte>, m: nat, L: nat, n: nat)
    requires m <= |d| && m <= 256 && 16 * L < m && n == Min(16 * L + 16, m) - 16 * L
    ensures OccursAt(Join(DumpLines(d, m)), "\n", 55 * L + (6 + 3 * n))
  {
    LineInBody(d, m, L);
    LineEnd(d, m, 16 * L, n);
    OccursWithin(Join(DumpLines(d, m)), DumpLine(d, m, 16 * L), "\n", 55 * L, 6 + 3 * n);
  }

  /** Byte b, on line L, has its token at column 6 + 3 * (b - 16L) of that
      line. */
  lemma DumpTokenLayout(d: seq<byte>, m: nat, L: nat, b: nat)
    requires m <= |d| && m <= 256 && 16 * L <= b < m && b < 16 * L + 16
    ensures OccursAt(Join(DumpLines(d, m)), Token(d[b]), 55 * L + (6 + 3 * (b - 16 * L)))
  {
    LineInBody(d, m, L);
    LineToken(d, m, 16 * L, b);
    OccursWithin(Join(DumpLines(d, m)), DumpLine(d, m, 16 * L), Token(d[b]), 55 * L, 6 + 3 * (b - 16 * L));
  }

  /** The dump body is free of dots, and empty only for an empty array. */
  lemma DumpBodyShape(data: seq<byte>)
    ensures '.' !in DumpBody(data)
    ensures DumpBody(data) == "" <==> data == []
  {
    var m := Min(|data|, 256);
    var lines := DumpLines(data, m);
    forall L | 0 <= L < |lines|
      ensures '.' !in lines[L] && lines[L] != ""
    {
      DumpLineNoDot(data, m, 16 * L);
    }
    JoinExcludes(lines, '.');
    JoinEmpty(lines);
  }

  /** byteArrayToHex prints the dump body first. */
  lemma HexDumpPrefix(data: seq<byte>)
    ensures OccursAt(HexDump(data), DumpBody(data), 0)
  {
    var sfx := if |data| > 256 then MoreBytes(|data| - 256) else "";
    assert (DumpBody(data) + sfx)[0..|DumpBody(data)|] == DumpBody(data);
  }

  /** The "more bytes" suffix is there exactly when n > 256: it is the only
      place a dot can appear. */
  lemma HexDumpDot(data: seq<byte>)
    ensures '.' in HexDump(data) <==> |data| > 256
  {
    DumpBodyShape(data);
    if |data| > 256 {
      var sfx := MoreBytes(|data| - 256);
      assert sfx[1] == '.';
      assert HexDump(data)[|DumpBody(data)| + 1] == '.';
    }
  }

  /** An empty array gives the empty string, and nothing else does. */
  lemma HexDumpEmpty(data: seq<byte>)
    ensures HexDump(data) == "" <==> data == []
  {
    DumpBodyShape(data);
  }

  /** Line L of byteArrayToHex's output starts at character 55 * L with the
      offset label of 16 * L. */
  lemma HexDumpLabel(data: seq<byte>, L: nat)
    requires 16 * L < |data| && 16 * L < 256
    ensures OccursAt(HexDump(data), OffsetLabel(16 * L), 55 * L)
  {
    var sfx := if |data| > 256 then MoreBytes(|data| - 256) else "";
    DumpLineLabel(data, Min(|data|, 256), L);
    OccursInPrefix(DumpBody(data), sfx, OffsetLabel(16 * L), 55 * L);
  }

  /** Each byte b before the cap, on line L (so 16L <= b < 16L + 16), is
      printed in byteArrayToHex's output at column 6 + 3 * (b - 16L) of that
      line as two hex digits that read back as the byte. */
  lemma HexDumpByte(data: seq<byte>, L: nat, b: nat)
    requires b < |data| && b < 256 && 16 * L <= b < 16 * L + 16
    ensures var out, at := HexDump(data), 55 * L + (6 + 3 * (b - 16 * L));
      && OccursAt(out, Hex2(data[b]), at)
      && AllHex(out[at..at + 2]) && HexValue(out[at..at + 2]) == data[b]
  {
    var at := 55 * L + (6 + 3 * (b - 16 * L));
    var sfx := if |data| > 256 then MoreBytes(|data| - 256) else "";
    DumpTokenLayout(data, Min(|data|, 256), L, b);
    OccursInPrefix(DumpBody(data), sfx, Token(data[b]), at);
    TokenDigits(data[b]);
    OccursAtHead(HexDump(data), Token(data[b]), Hex2(data[b]), at);
    ReadHex2(HexDump(data), data[b], at);
  }

  // ---------------------------------------------------------------------
  // Layout of the inline preview

  /** The first k cells take three characters per token plus one per
      newline already emitted. */
  lemma {:induction false} PreviewLength(d: seq<byte>, n: nat, k: nat)
    requires k <= n <= |d|
    ensures |Join(PreviewCells(d, n)[..k])| == 3 * k + k / 16
    decreases k
  {
    if k > 0 {
      PreviewLength(d, n, k - 1);
      JoinTake(PreviewCells(d, n), k - 1);
    }
  }

  /** Proof helper: k lies in the sixteen-byte block q. */
  lemma DivBy16(k: nat, q: nat)
    requires 16 * q <= k < 16 * q + 16
    ensures k / 16 == q
  {
  }

  /** Cell k of the preview starts at 3k + q, q = k / 16 being the number of
      newlines before it. */
  lemma PreviewCellAt(d: seq<byte>, n: nat, k: nat, q: nat)
    requires k < n <= |d| && 16 * q <= k < 16 * q + 16
    ensures OccursAt(Join(PreviewCells(d, n)), PreviewCell(d[k], k), 3 * k + q)
  {
    PreviewLength(d, n, k);
    DivBy16(k, q);
    JoinPieceAt(PreviewCells(d, n), k);
  }

  /** Byte k of the preview is written at 3k + q as two hex digits that read
      back as the byte. */
  lemma PreviewByte(d: seq<byte>, n: nat, k: nat, q: nat)
    requires k < n <= |d| && 16 * q <= k < 16 * q + 16
    ensures var out, at := Join(PreviewCells(d, n)), 3 * k + q;
      && OccursAt(out, Hex2(d[k]), at)
      && AllHex(out[at..at + 2]) && HexValue(out[at..at + 2]) == d[k]
  {
    var out, at := Join(PreviewCells(d, n)), 3 * k + q;
    var nl := if (k + 1) % 16 == 0 then "\n" else "";
    PreviewCellAt(d, n, k, q);
    Middle(Token(d[k]), nl, "");
    assert Token(d[k]) + nl + "" == PreviewCell(d[k], k);
    TokenDigits(d[k]);
    OccursAtHead(PreviewCell(d[k], k), Token(d[k]), Hex2(d[k]), 0);
    OccursAtHead(out, PreviewCell(d[k], k), Hex2(d[k]), at);
    ReadHex2(out, d[k], at);
  }

  /** Every sixteenth token of the preview is followed by a newline. */
  lemma PreviewNewline(d: seq<byte>, n: nat, k: nat, q: nat)
    requires k < n <= |d| && 16 * q <= k < 16 * q + 16 && (k + 1) % 16 == 0
    ensures OccursAt(Join(PreviewCells(d, n)), "\n", 3 * k + q + 3)
  {
    PreviewCellAt(d, n, k, q);
    Middle(Token(d[k]), "\n", "");
    assert Token(d[k]) + "\n" + "" == PreviewCell(d[k], k);
    OccursWithin(Join(PreviewCells(d, n)), PreviewCell(d[k], k), "\n", 3 * k + q, 3);
  }

  /** The inline preview of a length-n frame shows min(n, 128) tokens in
      3 * min(n, 128) + min(n, 128) / 16 characters, and carries the "more
      bytes" suffix (the only place a dot can appear) exactly when n > 128. */
  lemma PreviewShape(d: seq<byte>, length: nat)
    requires length <= |d|
    ensures var body := Join(PreviewCells(d, Min(length, 128)));
      && |body| == 3 * Min(length, 128) + Min(length, 128) / 16
      && Preview(d, length)[..|body|] == body
    ensures '.' in Preview(d, length) <==> length > 128
  {
    var m := Min(length, 128);
    var cells := PreviewCells(d, m);
    PreviewLength(d, m, m);
    assert cells[..m] == cells;
    forall k | 0 <= k < m
      ensures '.' !in cells[k]
    {
      HexNoDot(d[k], 2);
    }
    JoinExcludes(cells, '.');
    if length > 128 {
      assert MoreBytes(length - 128)[1] == '.';
    }
  }

  /** The preview reads only the bytes the record keeps as rawData. */
  lemma PreviewOfPrefix(d: seq<byte>, length: nat)
    requires length <= |d|
    ensures Preview(d[..length], length) == Preview(d, length)
  {
    var m := Min(length, 128);
    assert PreviewCells(d[..length], m) == PreviewCells(d, m);
  }
}
