/** The text renderings the sniffer builds with QString::arg and inet_ntop:
    unsigned decimal, fixed-width lower-case hexadecimal and dotted-decimal
    IPv4 addresses, together with the readers that invert them, and the
    case-sensitive substring test of QString::contains. */
module Text {
  import opened Common

  predicate IsDigit(c: char)
  {
    '0' <= c <= '9'
  }

  predicate AllDigits(s: string)
  {
    forall i :: 0 <= i < |s| ==> IsDigit(s[i])
  }

  function DigitChar(d: nat): (c: char)
    requires d < 10
    ensures IsDigit(c) && DigitValue(c) == d
  {
    (d + '0' as int) as char
  }

  function DigitValue(c: char): (d: nat)
    requires IsDigit(c)
    ensures d < 10
  {
    c as int - '0' as int
  }

  /** Decimal rendering of a non-negative number as QString::arg(int) writes
      it: no sign, no padding and no leading zero. */
  function Dec(n: nat): (s: string)
    ensures 1 <= |s| && AllDigits(s)
    ensures s[0] == '0' ==> n == 0
    decreases n
  {
    if n < 10 then [DigitChar(n)] else Dec(n / 10) + [DigitChar(n % 10)]
  }

  /** The number a string of decimal digits denotes. */
  function DigitsValue(s: string): nat
    requires AllDigits(s)
  {
    if s == [] then 0 else DigitsValue(s[..|s| - 1]) * 10 + DigitValue(s[|s| - 1])
  }

  /** Reading back a decimal rendering gives the number rendered. */
  lemma {:induction false} DecRoundTrip(n: nat)
    ensures DigitsValue(Dec(n)) == n
  {
    if n >= 10 {
      var s := Dec(n);
      assert s[..|s| - 1] == Dec(n / 10);
      DecRoundTrip(n / 10);
    }
  }

  /** Decimal rendering is one-to-one. */
  lemma DecInjective(m: nat, n: nat)
    requires Dec(m) == Dec(n)
    ensures m == n
  {
    DecRoundTrip(m);
    DecRoundTrip(n);
  }

  predicate IsHexDigit(c: char)
  {
    '0' <= c <= '9' || 'a' <= c <= 'f'
  }

  predicate AllHex(s: string)
  {
    forall i :: 0 <= i < |s| ==> IsHexDigit(s[i])
  }

  /** A lower-case hexadecimal digit. */
  function HexDigit(d: nat): (c: char)
    requires d < 16
    ensures IsHexDigit(c) && HexDigitValue(c) == d
  {
    if d < 10 then DigitChar(d) else (d - 10 + 'a' as int) as char
  }

  function HexDigitValue(c: char): (d: nat)
    requires IsHexDigit(c)
    ensures d < 16
  {
    if '0' <= c <= '9' then c as int - '0' as int else c as int - 'a' as int + 10
  }

  /** The number a string of hexadecimal digits denotes. */
  function HexValue(s: string): nat
    requires AllHex(s)
  {
    if s == [] then 0 else HexValue(s[..|s| - 1]) * 16 + HexDigitValue(s[|s| - 1])
  }

  function Pow16(w: nat): (p: nat)
    ensures p >= 1
  {
    if w == 0 then 1 else 16 * Pow16(w - 1)
  }

  /** The lowest `width` hexadecimal digits of n, in lower case, zero-padded
      on the left to `width` characters. For n < 16^width this is what
      QString("%1").arg(n, width, 16, QChar('0')) prints (HexPaddedIsArg);
      every call passes such an n: a byte at width 2, an offset at width 4. */
  function HexPadded(n: nat, width: nat): (s: string)
    ensures |s| == width
    decreases width
  {
    if width == 0 then "" else HexPadded(n / 16, width - 1) + [HexDigit(n % 16)]
  }

  /** The hexadecimal digits of n without leading zeros ("0" for zero). */
  function HexDigits(n: nat): (s: string)
    ensures |s| >= 1
  {
    if n < 16 then [HexDigit(n)] else HexDigits(n / 16) + [HexDigit(n % 16)]
  }

  /** k fill characters '0'. */
  function ZeroFill(k: nat): (s: string)
    ensures |s| == k && forall i :: 0 <= i < k ==> s[i] == '0'
  {
    seq(k, _ => '0')
  }

  /** QString::arg(n, width, 16, QChar('0')): the digits of n, left-padded
      with '0' to at least `width` characters; a wider number is not cut. */
  function ArgHex(n: nat, width: nat): string
  {
    (if |HexDigits(n)| < width then ZeroFill(width - |HexDigits(n)|) else "") + HexDigits(n)
  }

  /** Zero written with padding is all fill. */
  lemma {:induction false} HexPaddedZero(width: nat)
    ensures HexPadded(0, width) == ZeroFill(width)
    decreases width
  {
    if width > 0 {
      HexPaddedZero(width - 1);
    }
  }

  /** Within range the padded digits are exactly what arg prints, and the
      number's digits fit the width. */
  lemma {:induction false} HexPaddedIsArg(n: nat, width: nat)
    requires 1 <= width && n < Pow16(width)
    ensures |HexDigits(n)| <= width
    ensures HexPadded(n, width) == ArgHex(n, width)
    decreases width
  {
    if n < 16 {
      HexPaddedZero(width - 1);
      assert HexPadded(n, width) == ZeroFill(width - 1) + [HexDigit(n)];
    } else {
      HexPaddedIsArg(n / 16, width - 1);
      var d := HexDigits(n / 16);
      var pad := if |d| < width - 1 then ZeroFill(width - 1 - |d|) else "";
      assert HexPadded(n, width) == pad + d + [HexDigit(n % 16)];
      assert pad + d + [HexDigit(n % 16)] == pad + (d + [HexDigit(n % 16)]);
    }
  }

  /** One byte as two hex digits. */
  function Hex2(b: byte): string
  {
    HexPadded(b, 2)
  }

  /** An offset below 0x10000 as four hex digits. */
  function Hex4(n: u16): string
  {
    HexPadded(n, 4)
  }

  lemma {:induction false} MulAtLeast(d: nat, k: nat)
    requires k >= 1
    ensures d * k >= d
    decreases k
  {
    if k > 1 {
      MulAtLeast(d, k - 1);
      assert d * k == d * (k - 1) + d;
    }
  }

  lemma DivModUnique(n: int, d: int, a: int, c: int)
    requires d > 0 && n == d * a + c && 0 <= c < d
    ensures n % d == c
  {
    var a', c' := n / d, n % d;
    assert n == d * a' + c';
    if a > a' {
      MulAtLeast(d, a - a');
    } else if a < a' {
      MulAtLeast(d, a' - a);
    }
  }

  /** Zero-padded hex reads back as the number. */
  lemma {:induction false} HexPaddedRoundTrip(n: nat, width: nat)
    requires n < Pow16(width)
    ensures AllHex(HexPadded(n, width))
    ensures HexValue(HexPadded(n, width)) == n
    decreases width
  {
    if width > 0 {
      var s := HexPadded(n, width);
      HexPaddedRoundTrip(n / 16, width - 1);
      assert s[..|s| - 1] == HexPadded(n / 16, width - 1);
    }
  }

  /** A byte is written as two hex digits that read back as the byte. */
  lemma Hex2RoundTrip(b: byte)
    ensures |Hex2(b)| == 2 && AllHex(Hex2(b))
    ensures HexValue(Hex2(b)) == b
  {
    HexPaddedRoundTrip(b, 2);
  }

  /** An offset is written as four zero-padded hex digits that read back as
      the offset. */
  lemma Hex4RoundTrip(n: u16)
    ensures |Hex4(n)| == 4 && AllHex(Hex4(n))
    ensures HexValue(Hex4(n)) == n
  {
    assert Pow16(2) == 0x100;
    assert Pow16(4) == 0x1_0000;
    HexPaddedRoundTrip(n, 4);
  }

  /** Two hex digits of a byte found in a text read back as the byte. */
  lemma ReadHex2(s: string, b: byte, at: nat)
    requires OccursAt(s, Hex2(b), at)
    ensures AllHex(s[at..at + 2]) && HexValue(s[at..at + 2]) == b
  {
    Hex2RoundTrip(b);
  }

  /** QString::contains(t): whether t occurs in s, case-sensitively. */
  function Contains(s: string, t: string): bool
    decreases |s|
  {
    if |s| < |t| then false else s[..|t|] == t || Contains(s[1..], t)
  }

  /** Whether t occurs in s starting at position i. */
  predicate OccursAt(s: string, t: string, i: nat)
  {
    i + |t| <= |s| && s[i..i + |t|] == t
  }

  /** A slice of the tail is a slice of the whole, shifted by one. */
  lemma TailSlice(s: string, a: nat, b: nat)
    requires 1 <= a <= b <= |s|
    ensures s[1..][a - 1..b - 1] == s[a..b]
  {
    forall k | 0 <= k < b - a
      ensures s[1..][a - 1..b - 1][k] == s[a..b][k]
    {
    }
  }

  /** Contains holds exactly when t occurs at some position of s. */
  lemma {:induction false} ContainsIff(s: string, t: string)
    ensures Contains(s, t) <==> exists i: nat :: OccursAt(s, t, i)
    decreases |s|
  {
    if s == [] {
      if |t| == 0 {
        assert OccursAt(s, t, 0);
      } else if i: nat :| OccursAt(s, t, i) {
        assert false;
      }
    } else if |s| >= |t| {
      ContainsIff(s[1..], t);
      if Contains(s, t) && s[..|t|] != t {
        var i: nat :| OccursAt(s[1..], t, i);
        TailSlice(s, i + 1, i + 1 + |t|);
        assert OccursAt(s, t, i + 1);
      }
      if Contains(s, t) && s[..|t|] == t {
        assert OccursAt(s, t, 0);
      }
      if i: nat :| OccursAt(s, t, i) {
        if i > 0 {
          TailSlice(s, i, i + |t|);
          assert OccursAt(s[1..], t, i - 1);
        }
      }
    } else {
      if i: nat :| OccursAt(s, t, i) {
        assert false;
      }
    }
  }

  /** The pieces of s between occurrences of sep, as QString::split(sep). */
  function Split(s: string, sep: char): (parts: seq<string>)
    ensures |parts| >= 1
    decreases |s|
  {
    if s == [] then [""]
    else
      var rest := Split(s[1..], sep);
      if s[0] == sep then [""] + rest else [[s[0]] + rest[0]] + rest[1..]
  }

  /** A piece free of the separator followed by the separator splits off
      as one part. */
  lemma {:induction false} SplitCons(x: string, sep: char, y: string)
    requires sep !in x
    ensures Split(x + [sep] + y, sep) == [x] + Split(y, sep)
    decreases |x|
  {
    if x != [] {
      var s := x + [sep] + y;
      assert s[0] == x[0] != sep;
      assert s[1..] == x[1..] + [sep] + y;
      SplitCons(x[1..], sep, y);
      assert [x[0]] + x[1..] == x;
    } else {
      assert x + [sep] + y == [sep] + y;
    }
  }

  /** A piece free of the separator is a single part. */
  lemma {:induction false} SplitNone(x: string, sep: char)
    requires sep !in x
    ensures Split(x, sep) == [x]
    decreases |x|
  {
    if x != [] {
      assert x[0] != sep;
      SplitNone(x[1..], sep);
      assert [x[0]] + x[1..] == x;
    }
  }

  /** inet_ntop(AF_INET, ...): the four address bytes in dotted decimal. */
  function DottedQuad(a: seq<byte>): string
    requires |a| == 4
  {
    Dec(a[0]) + "." + Dec(a[1]) + "." + Dec(a[2]) + "." + Dec(a[3])
  }

  predicate IsOctet(p: string)
  {
    1 <= |p| && AllDigits(p) && DigitsValue(p) < 256
  }

  /** Reads a dotted-decimal IPv4 address back into its four bytes. */
  function ParseDottedQuad(s: string): Option<seq<byte>>
  {
    var parts := Split(s, '.');
    if |parts| == 4 && IsOctet(parts[0]) && IsOctet(parts[1]) && IsOctet(parts[2]) && IsOctet(parts[3])
    then Some([DigitsValue(parts[0]), DigitsValue(parts[1]), DigitsValue(parts[2]), DigitsValue(parts[3])])
    else None
  }

  /** Digits contain neither a dot nor a space. */
  lemma DigitsHaveNoDot(s: string)
    requires AllDigits(s)
    ensures '.' !in s && ' ' !in s
  {
  }

  /** Four pieces free of the separator, joined by it, split back into
      those pieces. */
  lemma SplitFour(d0: string, d1: string, d2: string, d3: string, sep: char)
    requires sep !in d0 && sep !in d1 && sep !in d2 && sep !in d3
    ensures Split(d0 + [sep] + d1 + [sep] + d2 + [sep] + d3, sep) == [d0, d1, d2, d3]
  {
    var t3 := d3;
    var t2 := d2 + [sep] + t3;
    var t1 := d1 + [sep] + t2;
    var t0 := d0 + [sep] + t1;
    SplitNone(t3, sep);
    SplitCons(d2, sep, t3);
    SplitCons(d1, sep, t2);
    SplitCons(d0, sep, t1);
    assert d0 + [sep] + d1 + [sep] + d2 + [sep] + d3 == t0;
  }

  /** The dotted-decimal rendering of an address reads back as the address,
      so two different addresses never print alike. */
  lemma DottedQuadRoundTrip(a: seq<byte>)
    requires |a| == 4
    ensures ParseDottedQuad(DottedQuad(a)) == Some(a)
  {
    var d0, d1, d2, d3 := Dec(a[0]), Dec(a[1]), Dec(a[2]), Dec(a[3]);
    DigitsHaveNoDot(d0);
    DigitsHaveNoDot(d1);
    DigitsHaveNoDot(d2);
    DigitsHaveNoDot(d3);
    DecRoundTrip(a[0]);
    DecRoundTrip(a[1]);
    DecRoundTrip(a[2]);
    DecRoundTrip(a[3]);
    SplitFour(d0, d1, d2, d3, '.');
    assert a == [a[0], a[1], a[2], a[3]];
  }
}
