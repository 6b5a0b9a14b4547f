/**
 Byte encodings the request builder relies on: UTF-8 (how Node turns a string into bytes),
 lowercase hexadecimal (`digest('hex')`, `toString('hex')`), base64 (`btoa`, section 4 of
 RFC 4648) and the hex-to-binary rendering of a digest. SHA-1 and PBKDF2 are not modelled:
 they are function values whose only known property is their output length.
 */
module Encoding {
  import opened Wrappers
  import Strings

  type Byte = x: int | 0 <= x < 256

  // ---------------------------------------------------------------------------
  // UTF-8

  /** The UTF-8 encoding of one Unicode scalar value: 1 to 4 bytes. */
  function Utf8Char(c: char): (r: seq<Byte>)
    ensures 1 <= |r| <= 4
    ensures |r| == 1 <==> c as int < 0x80
  {
    var cp := c as int;
    if cp < 0x80 then [cp]
    else if cp < 0x800 then [0xC0 + cp / 64, 0x80 + cp % 64]
    else if cp < 0x10000 then [0xE0 + cp / 4096, 0x80 + (cp / 64) % 64, 0x80 + cp % 64]
    else [0xF0 + cp / 262144, 0x80 + (cp / 4096) % 64, 0x80 + (cp / 64) % 64, 0x80 + cp % 64]
  }

  /** `Buffer.from(s)`: the UTF-8 bytes of a string. */
  function Utf8(s: string): (r: seq<Byte>)
    ensures |s| <= |r| <= 4 * |s|
  {
    if s == [] then [] else Utf8Char(s[0]) + Utf8(s[1..])
  }

  lemma {:induction false} Utf8Append(a: string, b: string)
    ensures Utf8(a + b) == Utf8(a) + Utf8(b)
  {
    if a == [] {
      assert a + b == b;
    } else {
      assert (a + b)[1..] == a[1..] + b;
      Utf8Append(a[1..], b);
    }
  }

  /** Decodes the first character of a UTF-8 byte sequence, giving it with its length. */
  function Utf8DecodeChar(b: seq<Byte>): Option<(char, nat)>
  {
    if b == [] then None
    else
      var b0: int := b[0];
      if b0 < 0x80 then Some((b0 as char, 1))
      else if 0xC0 <= b0 < 0xE0 && |b| >= 2 && IsContinuation(b[1]) then
        var cp := (b0 - 0xC0) * 64 + Payload(b[1]);
        if 0x80 <= cp then Some((cp as char, 2)) else None
      else if 0xE0 <= b0 < 0xF0 && |b| >= 3 && IsContinuation(b[1]) && IsContinuation(b[2]) then
        var cp := (b0 - 0xE0) * 4096 + Payload(b[1]) * 64 + Payload(b[2]);
        if 0x800 <= cp && !(0xD800 <= cp < 0xE000) then Some((cp as char, 3)) else None
      else if 0xF0 <= b0 < 0xF5 && |b| >= 4 && IsContinuation(b[1]) && IsContinuation(b[2]) && IsContinuation(b[3]) then
        var cp := (b0 - 0xF0) * 262144 + Payload(b[1]) * 4096 + Payload(b[2]) * 64 + Payload(b[3]);
        if 0x10000 <= cp < 0x110000 then Some((cp as char, 4)) else None
      else None
  }

  /** A continuation byte `10xxxxxx`. */
  predicate IsContinuation(x: Byte)
  {
    0x80 <= x < 0xC0
  }

  /** The six payload bits of a continuation byte. */
  function Payload(x: Byte): (v: nat)
    requires IsContinuation(x)
    ensures v < 64
  {
    x - 0x80
  }

  /** Decodes a whole UTF-8 byte sequence; malformed input gives `None`. */
  function Utf8Decode(b: seq<Byte>): Option<string>
    decreases |b|
  {
    if b == [] then Some([])
    else match Utf8DecodeChar(b)
      case None => None
      case Some((c, n)) =>
        if 0 < n <= |b| then
          match Utf8Decode(b[n..])
          case None => None
          case Some(rest) => Some([c] + rest)
        else None
  }

  lemma Utf8CharDecodes(c: char, tail: seq<Byte>)
    ensures Utf8DecodeChar(Utf8Char(c) + tail) == Some((c, |Utf8Char(c)|))
  {
    var cp := c as int;
    var enc := Utf8Char(c);
    var b := enc + tail;
    assert b[..|enc|] == enc;
    if cp < 0x80 {
    } else if cp < 0x800 {
      assert b[0] == 0xC0 + cp / 64 && b[1] == 0x80 + cp % 64;
      assert (cp / 64) * 64 + cp % 64 == cp;
    } else if cp < 0x10000 {
      assert b[0] == 0xE0 + cp / 4096 && b[1] == 0x80 + (cp / 64) % 64 && b[2] == 0x80 + cp % 64;
      ThreeSextets(cp);
    } else {
      assert b[0] == 0xF0 + cp / 262144 && b[1] == 0x80 + (cp / 4096) % 64;
      assert b[2] == 0x80 + (cp / 64) % 64 && b[3] == 0x80 + cp % 64;
      FourSextets(cp);
    }
  }

  lemma ThreeSextets(cp: nat)
    requires cp < 0x10000
    ensures (cp / 4096) * 4096 + ((cp / 64) % 64) * 64 + cp % 64 == cp
  {
    var q1 := cp / 64;
    DivideTwice(cp, 64);
    assert cp == 64 * q1 + cp % 64;
    assert q1 == 64 * (cp / 4096) + q1 % 64;
  }

  lemma FourSextets(cp: nat)
    requires cp < 0x110000
    ensures cp / 262144 < 5
    ensures (cp / 262144) * 262144 + ((cp / 4096) % 64) * 4096 + ((cp / 64) % 64) * 64 + cp % 64 == cp
  {
    SplitSextets(cp);
  }

  /** Decoding the UTF-8 bytes of a string gives the string back. */
  lemma {:induction false} Utf8RoundTrip(s: string)
    ensures Utf8Decode(Utf8(s)) == Some(s)
  {
    if s != [] {
      var head := Utf8Char(s[0]);
      var rest := Utf8(s[1..]);
      Utf8CharDecodes(s[0], rest);
      assert (head + rest)[|head|..] == rest;
      Utf8RoundTrip(s[1..]);
      assert [s[0]] + s[1..] == s;
    }
  }

  /** ASCII text encodes byte for byte. */
  lemma {:induction false} Utf8Ascii(s: string)
    requires forall i :: 0 <= i < |s| ==> s[i] as int < 0x80
    ensures |Utf8(s)| == |s|
    ensures forall i :: 0 <= i < |s| ==> Utf8(s)[i] == s[i] as int
  {
    if s != [] {
      Utf8Ascii(s[1..]);
    }
  }

  // ---------------------------------------------------------------------------
  // Lowercase hexadecimal

  predicate IsLowerHex(c: char)
  {
    '0' <= c <= '9' || 'a' <= c <= 'f'
  }

  function HexDigit(v: nat): (c: char)
    requires v < 16
    ensures IsLowerHex(c)
  {
    if v < 10 then ('0' as int + v) as char else ('a' as int + v - 10) as char
  }

  function HexValue(c: char): (v: nat)
    requires IsLowerHex(c)
    ensures v < 16 && HexDigit(v) == c
  {
    if c <= '9' then c as int - '0' as int else c as int - 'a' as int + 10
  }

  lemma HexDigitValue(v: nat)
    requires v < 16
    ensures HexValue(HexDigit(v)) == v
  {
  }

  /** `buffer.toString('hex')`: two lowercase digits per byte, high nibble first. */
  function HexEncode(b: seq<Byte>): (r: string)
    ensures |r| == 2 * |b|
    ensures forall i :: 0 <= i < |r| ==> IsLowerHex(r[i])
  {
    if b == [] then [] else [HexDigit(b[0] / 16), HexDigit(b[0] % 16)] + HexEncode(b[1..])
  }

  function HexDecode(s: string): Option<seq<Byte>>
    decreases |s|
  {
    if s == [] then Some([])
    else if |s| == 1 || !IsLowerHex(s[0]) || !IsLowerHex(s[1]) then None
    else match HexDecode(s[2..])
      case None => None
      case Some(rest) => Some([HexValue(s[0]) * 16 + HexValue(s[1])] + rest)
  }

  lemma {:induction false} HexRoundTrip(b: seq<Byte>)
    ensures HexDecode(HexEncode(b)) == Some(b)
  {
    if b != [] {
      var s := HexEncode(b);
      var x: int := b[0];
      assert s[0] == HexDigit(x / 16) && s[1] == HexDigit(x % 16);
      assert s[2..] == HexEncode(b[1..]);
      HexRoundTrip(b[1..]);
      HexDigitValue(x / 16);
      HexDigitValue(x % 16);
      assert (x / 16) * 16 + x % 16 == x;
      assert [b[0]] + b[1..] == b;
    }
  }

  // ---------------------------------------------------------------------------
  // Binary rendering of a digest

  function BitChar(bit: nat): char
  {
    if bit % 2 == 1 then '1' else '0'
  }

  predicate IsBinary(s: string)
  {
    forall i :: 0 <= i < |s| ==> s[i] == '0' || s[i] == '1'
  }

  /** The number a string of binary digits denotes, most significant digit first. */
  function BinaryValue(s: string): nat
  {
    if s == [] then 0 else 2 * BinaryValue(s[..|s| - 1]) + (if s[|s| - 1] == '1' then 1 else 0)
  }

  function Pow2(k: nat): (p: nat)
    ensures p >= 1
  {
    if k == 0 then 1 else 2 * Pow2(k - 1)
  }

  /** The four binary digits of a nibble, most significant first. */
  function NibbleBits(n: nat): (r: string)
    requires n < 16
    ensures |r| == 4 && IsBinary(r) && BinaryValue(r) == n
  {
    var r := [BitChar(n / 8), BitChar(n / 4), BitChar(n / 2), BitChar(n)];
    assert r[..3][..2] == r[..2] && r[..2][..1] == r[..1] && r[..1][..0] == [];
    assert BinaryValue(r[..1]) == n / 8;
    assert BinaryValue(r[..2]) == n / 4;
    assert BinaryValue(r[..3]) == n / 2;
    r
  }

  /** The hex-to-binary library: each hexadecimal digit becomes its four bits. It is only
      ever given `digest('hex')` output, which is lowercase. */
  function HexToBinary(hex: string): (r: string)
    requires forall i :: 0 <= i < |hex| ==> IsLowerHex(hex[i])
    ensures |r| == 4 * |hex|
  {
    if hex == [] then [] else NibbleBits(HexValue(hex[0])) + HexToBinary(hex[1..])
  }

  lemma {:induction false} BinaryValueAppend(a: string, b: string)
    ensures BinaryValue(a + b) == BinaryValue(a) * Pow2(|b|) + BinaryValue(b)
    decreases |b|
  {
    if b == [] {
      assert a + b == a;
    } else {
      var b' := b[..|b| - 1];
      var bit := if b[|b| - 1] == '1' then 1 else 0;
      assert (a + b)[..|a + b| - 1] == a + b';
      assert (a + b)[|a + b| - 1] == b[|b| - 1];
      assert BinaryValue(b) == 2 * BinaryValue(b') + bit;
      BinaryValueAppend(a, b');
      var x, p := BinaryValue(a), Pow2(|b'|);
      assert Pow2(|b|) == 2 * p;
      DoubleFactor(x, p);
      assert BinaryValue(a + b) == 2 * (x * p + BinaryValue(b')) + bit;
    }
  }

  lemma DoubleFactor(x: int, p: int)
    ensures x * (2 * p) == 2 * (x * p)
  {
  }

  lemma {:induction false} BinaryValueBound(s: string)
    ensures BinaryValue(s) < Pow2(|s|)
  {
    if s != [] {
      BinaryValueBound(s[..|s| - 1]);
    }
  }

  lemma {:induction false} BinaryValueZero(s: string)
    requires IsBinary(s)
    ensures BinaryValue(s) == 0 <==> forall i :: 0 <= i < |s| ==> s[i] == '0'
  {
    if s != [] {
      var t := s[..|s| - 1];
      BinaryValueZero(t);
      assert forall i :: 0 <= i < |t| ==> t[i] == s[i];
    }
  }

  /** A binary numeral starts with `k` zeros exactly when the number it denotes needs at
      most `|s| - k` digits. */
  lemma LeadingZerosIffSmall(s: string, k: nat)
    requires IsBinary(s) && k <= |s|
    ensures (forall i :: 0 <= i < k ==> s[i] == '0') <==> BinaryValue(s) < Pow2(|s| - k)
  {
    var head, tail := s[..k], s[k..];
    assert s == head + tail;
    BinaryValueAppend(head, tail);
    BinaryValueBound(tail);
    BinaryValueZero(head);
    assert forall i :: 0 <= i < k ==> head[i] == s[i];
    var h, p := BinaryValue(head), Pow2(|tail|);
    assert BinaryValue(s) == h * p + BinaryValue(tail);
    if h != 0 {
      MultiplyAtLeastOnce(h, p);
    }
  }

  lemma MultiplyAtLeastOnce(h: nat, p: nat)
    requires h >= 1
    ensures h * p >= p
  {
  }

  /** The eight binary digits of a byte, most significant first. */
  function ByteBits(b: Byte): (r: string)
    ensures |r| == 8 && IsBinary(r) && BinaryValue(r) == b
  {
    var r := NibbleBits(b / 16) + NibbleBits(b % 16);
    BinaryValueAppend(NibbleBits(b / 16), NibbleBits(b % 16));
    assert Pow2(4) == 16;
    r
  }

  /** A digest read as a big-endian unsigned number. */
  function BigEndian(b: seq<Byte>): nat
  {
    if b == [] then 0 else BigEndian(b[..|b| - 1]) * 256 + b[|b| - 1]
  }

  /** A digest's bits, eight per byte, most significant first: the binary numeral of its
      big-endian value. */
  function Bits(b: seq<Byte>): (r: string)
    ensures |r| == 8 * |b| && IsBinary(r)
  {
    if b == [] then [] else ByteBits(b[0]) + Bits(b[1..])
  }

  lemma {:induction false} BitsValue(b: seq<Byte>)
    ensures BinaryValue(Bits(b)) == BigEndian(b)
  {
    if b != [] {
      var rest := b[1..];
      BitsValue(rest);
      BinaryValueAppend(ByteBits(b[0]), Bits(rest));
      BigEndianPrepend(b[0], rest);
      assert [b[0]] + rest == b;
      assert |Bits(rest)| == 8 * |rest|;
    }
  }

  lemma {:induction false} BigEndianPrepend(x: Byte, rest: seq<Byte>)
    ensures BigEndian([x] + rest) == x * Pow2(8 * |rest|) + BigEndian(rest)
    decreases |rest|
  {
    if rest == [] {
    } else {
      var init := rest[..|rest| - 1];
      assert ([x] + rest)[..|rest|] == [x] + init;
      BigEndianPrepend(x, init);
      assert Pow2(8 * |rest|) == 256 * Pow2(8 * |init|) by {
        Pow2Add(8, 8 * |init|);
      }
      assert x * Pow2(8 * |rest|) == 256 * (x * Pow2(8 * |init|));
    }
  }

  lemma {:induction false} Pow2Add(a: nat, b: nat)
    ensures Pow2(a + b) == Pow2(a) * Pow2(b)
  {
    if a > 0 {
      Pow2Add(a - 1, b);
    }
  }

  /** Rendering a digest as hex and then as binary is the same as writing out its bits. */
  lemma {:induction false} HexToBinaryOfHex(b: seq<Byte>)
    ensures HexToBinary(HexEncode(b)) == Bits(b)
  {
    if b != [] {
      var s := HexEncode(b);
      assert s[1..][1..] == HexEncode(b[1..]);
      HexToBinaryOfHex(b[1..]);
      var x := b[0];
      HexDigitValue(x / 16);
      HexDigitValue(x % 16);
      assert HexToBinary(s) == NibbleBits(x / 16) + (NibbleBits(x % 16) + HexToBinary(s[2..]));
    }
  }

  // ---------------------------------------------------------------------------
  // Base64 (section 4 of RFC 4648)

  predicate IsBase64Char(c: char)
  {
    'A' <= c <= 'Z' || 'a' <= c <= 'z' || '0' <= c <= '9' || c == '+' || c == '/'
  }

  function Sextet(c: char): (v: nat)
    requires IsBase64Char(c)
    ensures v < 64
  {
    if 'A' <= c <= 'Z' then c as int - 'A' as int
    else if 'a' <= c <= 'z' then c as int - 'a' as int + 26
    else if '0' <= c <= '9' then c as int - '0' as int + 52
    else if c == '+' then 62
    else 63
  }

  function SextetChar(v: nat): (c: char)
    requires v < 64
    ensures IsBase64Char(c) && Sextet(c) == v
  {
    if v < 26 then ('A' as int + v) as char
    else if v < 52 then ('a' as int + v - 26) as char
    else if v < 62 then ('0' as int + v - 52) as char
    else if v == 62 then '+'
    else '/'
  }

  /** Three bytes as four base64 digits, six bits each, most significant first. */
  function EncodeGroup(x: Byte, y: Byte, z: Byte): (r: string)
    ensures |r| == 4 && forall i :: 0 <= i < 4 ==> IsBase64Char(r[i])
  {
    var n := x as int * 65536 + y as int * 256 + z as int;
    [SextetChar(n / 262144), SextetChar((n / 4096) % 64), SextetChar((n / 64) % 64), SextetChar(n % 64)]
  }

  /** Four base64 digits back to three bytes. */
  function DecodeGroup(s: string): (r: seq<Byte>)
    requires |s| == 4 && forall i :: 0 <= i < 4 ==> IsBase64Char(s[i])
    ensures |r| == 3
  {
    var n := Sextet(s[0]) * 262144 + Sextet(s[1]) * 4096 + Sextet(s[2]) * 64 + Sextet(s[3]);
    [n / 65536, (n / 256) % 256, n % 256]
  }

  lemma GroupRoundTrip(x: Byte, y: Byte, z: Byte)
    ensures DecodeGroup(EncodeGroup(x, y, z)) == [x, y, z]
  {
    var n := x as int * 65536 + y as int * 256 + z as int;
    SplitSextets(n);
    BytesOfGroup(x, y, z);
  }

  lemma SplitSextets(n: nat)
    requires n < 16777216
    ensures n / 262144 < 64
    ensures (n / 262144) * 262144 + ((n / 4096) % 64) * 4096 + ((n / 64) % 64) * 64 + n % 64 == n
  {
    var q1, q2, q3 := n / 64, n / 4096, n / 262144;
    assert q1 / 64 == q2 && q2 / 64 == q3 by {
      DivideTwice(n, 64);
      DivideTwice(q1, 64);
      DivideTwice(n, 4096);
    }
    assert n == 64 * q1 + n % 64;
    assert q1 == 64 * q2 + q1 % 64;
    assert q2 == 64 * q3 + q2 % 64;
  }

  lemma DivideTwice(n: nat, d: nat)
    requires d == 64 || d == 4096
    ensures (n / d) / 64 == n / (d * 64)
  {
  }

  lemma BytesOfGroup(x: Byte, y: Byte, z: Byte)
    ensures var n := x as int * 65536 + y as int * 256 + z as int;
            n / 65536 == x && (n / 256) % 256 == y && n % 256 == z
  {
  }

  /** `Buffer.toString('base64')`: each 3-byte group becomes 4 characters; a final short
      group is encoded as if zero-filled, cut to 2 or 3 characters and padded with `=`. */
  function Base64Encode(b: seq<Byte>): string
    decreases |b|
  {
    if b == [] then []
    else if |b| == 1 then var g := EncodeGroup(b[0], 0, 0); [g[0], g[1], '=', '=']
    else if |b| == 2 then var g := EncodeGroup(b[0], b[1], 0); [g[0], g[1], g[2], '=']
    else EncodeGroup(b[0], b[1], b[2]) + Base64Encode(b[3..])
  }

  /** Four characters per started group of three bytes. */
  lemma {:induction false} Base64Length(b: seq<Byte>)
    ensures |Base64Encode(b)| == 4 * ((|b| + 2) / 3)
    decreases |b|
  {
    if |b| == 1 || |b| == 2 {
      assert |Base64Encode(b)| == 4;
    } else if |b| >= 3 {
      var k := |b| - 3;
      Base64Length(b[3..]);
      assert |Base64Encode(b)| == 4 + 4 * ((k + 2) / 3);
      assert (k + 2) / 3 + 1 == (k + 5) / 3;
    }
  }

  /** Base64 text never contains a colon, so it can sit inside a colon-separated header. */
  lemma {:induction false} Base64HasNoColon(b: seq<Byte>)
    ensures forall c :: c in Base64Encode(b) ==> IsBase64Char(c) || c == '='
    ensures ':' !in Base64Encode(b)
    decreases |b|
  {
    if |b| >= 3 {
      Base64HasNoColon(b[3..]);
      var g := EncodeGroup(b[0], b[1], b[2]);
      assert forall c :: c in g ==> IsBase64Char(c);
    }
  }

  /** Strict base64 decoding: padding only at the end, and the bits it hides must be zero. */
  function Base64Decode(s: string): Option<seq<Byte>>
    decreases |s|
  {
    if s == [] then Some([])
    else if |s| < 4 || !IsBase64Char(s[0]) || !IsBase64Char(s[1]) then None
    else if |s| == 4 && s[2] == '=' && s[3] == '=' then
      var g := DecodeGroup([s[0], s[1], 'A', 'A']);
      if g[1] == 0 && g[2] == 0 then Some(g[..1]) else None
    else if |s| == 4 && IsBase64Char(s[2]) && s[3] == '=' then
      var g := DecodeGroup([s[0], s[1], s[2], 'A']);
      if g[2] == 0 then Some(g[..2]) else None
    else if IsBase64Char(s[2]) && IsBase64Char(s[3]) then
      match Base64Decode(s[4..])
      case None => None
      case Some(rest) => Some(DecodeGroup(s[..4]) + rest)
    else None
  }

  lemma SixtyFourDivides(k: int)
    ensures (64 * k) / 64 == k && (64 * k) % 64 == 0
  {
  }

  lemma Base64OneByte(x: Byte)
    ensures Base64Decode(Base64Encode([x])) == Some([x])
  {
    var g := EncodeGroup(x, 0, 0);
    var n := x as int * 65536;
    SixtyFourDivides(x as int * 1024);
    SixtyFourDivides(x as int * 16);
    assert (n / 64) % 64 == 0 && n % 64 == 0;
    assert g[2] == 'A' && g[3] == 'A';
    assert [g[0], g[1], 'A', 'A'] == g;
    GroupRoundTrip(x, 0, 0);
    var s := Base64Encode([x]);
    assert s == [g[0], g[1], '=', '='];
    assert [s[0], s[1], 'A', 'A'] == g;
    assert DecodeGroup(g)[..1] == [x];
  }

  lemma Base64TwoBytes(x: Byte, y: Byte)
    ensures Base64Decode(Base64Encode([x, y])) == Some([x, y])
  {
    var g := EncodeGroup(x, y, 0);
    var n := x as int * 65536 + y as int * 256;
    SixtyFourDivides(x as int * 1024 + y as int * 4);
    assert n % 64 == 0;
    assert g[3] == 'A';
    assert [g[0], g[1], g[2], 'A'] == g;
    GroupRoundTrip(x, y, 0);
    var s := Base64Encode([x, y]);
    assert s == [g[0], g[1], g[2], '='];
    assert [s[0], s[1], s[2], 'A'] == g;
    assert DecodeGroup(g)[..2] == [x, y];
  }

  lemma {:induction false} Base64RoundTrip(b: seq<Byte>)
    ensures Base64Decode(Base64Encode(b)) == Some(b)
    decreases |b|
  {
    if |b| == 1 {
      Base64OneByte(b[0]);
      assert [b[0]] == b;
    } else if |b| == 2 {
      Base64TwoBytes(b[0], b[1]);
      assert [b[0], b[1]] == b;
    } else if |b| >= 3 {
      Base64RoundTrip(b[3..]);
      SplitThree(b);
      Base64GroupStep(b[0], b[1], b[2], b[3..]);
    }
  }

  lemma SplitThree<T>(b: seq<T>)
    requires |b| >= 3
    ensures b == [b[0], b[1], b[2]] + b[3..]
  {
  }

  /** A full group in front of the rest of the input decodes to its three bytes in
      front of whatever the rest decodes to. */
  lemma Base64GroupStep(x: Byte, y: Byte, z: Byte, rest: seq<Byte>)
    requires Base64Decode(Base64Encode(rest)) == Some(rest)
    ensures Base64Decode(Base64Encode([x, y, z] + rest)) == Some([x, y, z] + rest)
  {
    var b := [x, y, z] + rest;
    assert b[0] == x && b[1] == y && b[2] == z && b[3..] == rest;
    var g := EncodeGroup(x, y, z);
    var s := g + Base64Encode(rest);
    assert s[..4] == g && s[4..] == Base64Encode(rest);
    GroupRoundTrip(x, y, z);
  }

  /** The source's `btoa`: base64 of the string's UTF-8 bytes. */
  function Btoa(s: string): (r: string)
    ensures ':' !in r
  {
    Base64HasNoColon(Utf8(s));
    Base64Encode(Utf8(s))
  }

  /** Four characters per started group of three UTF-8 bytes; one byte per character on
      ASCII text such as a decimal counter. */
  lemma BtoaLength(s: string)
    ensures |Btoa(s)| == 4 * ((|Utf8(s)| + 2) / 3)
    ensures (forall i :: 0 <= i < |s| ==> s[i] as int < 128) ==> |Btoa(s)| == 4 * ((|s| + 2) / 3)
  {
    var bytes := Utf8(s);
    assert Btoa(s) == Base64Encode(bytes);
    Base64Length(bytes);
    if forall i :: 0 <= i < |s| ==> s[i] as int < 128 {
      Utf8Ascii(s);
      assert |bytes| == |s|;
    }
  }

  lemma BtoaRoundTrip(s: string)
    ensures match Base64Decode(Btoa(s))
            case Some(bytes) => Utf8Decode(bytes) == Some(s)
            case None => false
  {
    Base64RoundTrip(Utf8(s));
    Utf8RoundTrip(s);
  }

  // ---------------------------------------------------------------------------
  // Hash functions, known only by their output lengths.

  /** SHA-1 (FIPS 180-4): some function from messages to 20-byte digests. */
  type Sha1 = f: seq<Byte> -> seq<Byte> | forall m :: |f(m)| == 20
    witness (m: seq<Byte>) => seq(20, _ => 0)

  /** PBKDF2 (section 5.2 of RFC 8018) with HMAC-SHA-512: from password, salt, iteration
      count and key length to a key of exactly that many bytes. */
  type Pbkdf2 = f: (seq<Byte>, seq<Byte>, nat, nat) -> seq<Byte> | forall p, s, i, k :: |f(p, s, i, k)| == k
    witness (p: seq<Byte>, s: seq<Byte>, i: nat, k: nat) => seq(k, _ => 0)

  /** The source's `pdkf2`: the derived key of the UTF-8 password and salt, as lowercase
      hex, two characters per key byte. */
  function Pbkdf2Hex(kdf: Pbkdf2, password: string, salt: string, iterations: nat, keylen: nat): (r: string)
    ensures |r| == 2 * keylen
    ensures forall i :: 0 <= i < |r| ==> IsLowerHex(r[i])
    ensures HexDecode(r) == Some(kdf(Utf8(password), Utf8(salt), iterations, keylen))
  {
    var key := kdf(Utf8(password), Utf8(salt), iterations, keylen);
    HexRoundTrip(key);
    HexEncode(key)
  }

  /** `crypto.createHash('sha1').update(text).digest('hex')` rendered by hex-to-binary. */
  function BinaryHash(sha1: Sha1, text: string): (r: string)
    ensures |r| == 160
    ensures r == Bits(sha1(Utf8(text)))
  {
    var hex := HexEncode(sha1(Utf8(text)));
    HexToBinaryOfHex(sha1(Utf8(text)));
    HexToBinary(hex)
  }
}
