/** Base64 coding and its URL-safe form: lib/base64.c, after section 4 of RFC 4648. */
module Base64 {
  import opened Basics
  import opened Chunks

  type Sextet = x: int | 0 <= x < 64

  /** base64_chars[v]. */
  function Symbol(v: Sextet): char {
    if v < 26 then 'A' + v as char
    else if v < 52 then 'a' + (v - 26) as char
    else if v < 62 then '0' + (v - 52) as char
    else if v == 62 then '+' else '/'
  }

  /** The position of a character in base64_chars, or -1. */
  function Pos(c: char): (v: int)
    ensures -1 <= v < 64
  {
    if 'A' <= c <= 'Z' then c as int - 'A' as int
    else if 'a' <= c <= 'z' then c as int - 'a' as int + 26
    else if '0' <= c <= '9' then c as int - '0' as int + 52
    else if c == '+' then 62 else if c == '/' then 63 else -1
  }

  lemma SymbolsAndPositions(v: Sextet, c: char)
    ensures Pos(Symbol(v)) == v && Symbol(v) != '='
    ensures Pos(c) >= 0 ==> Symbol(Pos(c)) == c
  {
  }

  // ------------------------------------------------------------ encoding

  /** Four symbols for three bytes; missing bytes are taken as 0 and their symbols replaced by '='. */
  function Group(c: int, have: nat): string
    requires 0 <= c < 0x100_0000 && 1 <= have <= 3
  {
    [Symbol(c / 0x4_0000), Symbol(c / 0x1000 % 64),
     if have < 2 then '=' else Symbol(c / 64 % 64), if have < 3 then '=' else Symbol(c % 64)]
  }

  function Pack(d: seq<Byte>): (c: int)
    requires d != []
    ensures 0 <= c < 0x100_0000
  {
    var a: int := d[0];
    var b: int := if |d| > 1 then d[1] else 0;
    var c: int := if |d| > 2 then d[2] else 0;
    a * 0x1_0000 + b * 0x100 + c
  }

  function Encode(d: seq<Byte>): (s: string)
    ensures |s| == 4 * ((|d| + 2) / 3)
  {
    if d == [] then "" else Group(Pack(d), Min(|d|, 3)) + Encode(d[Min(|d|, 3)..])
  }

  /** The alphabet of section 4 of RFC 4648, sixteen values to a row. */
  const ROW_0 := "ABCDEFGHIJKLMNOP"
  const ROW_1 := "QRSTUVWXYZabcdef"
  const ROW_2 := "ghijklmnopqrstuv"
  const ROW_3 := "wxyz0123456789+/"
  const ALPHABET := ROW_0 + ROW_1 + ROW_2 + ROW_3

  lemma FirstRow(i: nat)
    requires i < 16
    ensures ROW_0[i] == Symbol(i)
  {
  }

  lemma SecondRow(i: nat)
    requires i < 16
    ensures ROW_1[i] == Symbol(16 + i)
  {
  }

  lemma ThirdRow(i: nat)
    requires i < 16
    ensures ROW_2[i] == Symbol(32 + i)
  {
  }

  lemma FourthRow(i: nat)
    requires i < 16
    ensures ROW_3[i] == Symbol(48 + i)
  {
  }

  lemma SymbolIsListed(v: Sextet)
    ensures |ALPHABET| == 64 && Symbol(v) == ALPHABET[v]
  {
    hide Symbol;
    if v < 16 {
      FirstRow(v);
    } else if v < 32 {
      SecondRow(v - 16);
    } else if v < 48 {
      ThirdRow(v - 32);
    } else {
      FourthRow(v - 48);
    }
  }

  /** Byte `i`, or 0 past the end. */
  function ByteAt(d: seq<Byte>, i: nat): (b: int)
    ensures 0 <= b < 256
  {
    if i < |d| then d[i] else 0
  }

  /** The six bits that position `k` of the encoding stands for: the upper six of a group's first byte,
      its lower two with the upper four of the second, the lower four of that with the upper two of the
      third, the lower six of that. */
  function SixBits(d: seq<Byte>, k: nat): (v: Sextet) {
    var i := k / 4 * 3;
    match k % 4
    case 0 => ByteAt(d, i) / 4
    case 1 => ByteAt(d, i) % 4 * 16 + ByteAt(d, i + 1) / 16
    case 2 => ByteAt(d, i + 1) % 16 * 4 + ByteAt(d, i + 2) / 64
    case _ => ByteAt(d, i + 2) % 64
  }

  /** The positions of the last group for which there is no byte. */
  predicate IsPad(d: seq<Byte>, k: nat) {
    (k % 4 == 2 && k / 4 * 3 + 1 >= |d|) || (k % 4 == 3 && k / 4 * 3 + 2 >= |d|)
  }

  lemma FirstGroup(d: seq<Byte>, k: nat)
    requires d != [] && k < 4
    ensures var a, b, c := ByteAt(d, 0), ByteAt(d, 1), ByteAt(d, 2);
            && Pack(d) == a * 0x1_0000 + b * 0x100 + c
            && SixBits(d, k) == (if k == 0 then a / 4 else if k == 1 then a % 4 * 16 + b / 16
                                 else if k == 2 then b % 16 * 4 + c / 64 else c % 64)
    ensures IsPad(d, k) <==> (k == 2 && |d| < 2) || (k == 3 && |d| < 3)
  {
    assert k / 4 == 0 && k % 4 == k;
  }

  lemma GroupBits(d: seq<Byte>, k: nat)
    requires d != [] && k < 4
    ensures Group(Pack(d), Min(|d|, 3))[k] == if IsPad(d, k) then '=' else Symbol(SixBits(d, k))
  {
    hide Symbol, SixBits, IsPad, ByteAt, Pack;
    FirstGroup(d, k);
    ByteParts(ByteAt(d, 0), ByteAt(d, 1), ByteAt(d, 2));
  }

  lemma ByteParts(a: int, b: int, c: int)
    requires 0 <= a < 256 && 0 <= b < 256 && 0 <= c < 256
    ensures var m := a * 0x1_0000 + b * 0x100 + c;
            && m / 0x4_0000 == a / 4 && m / 0x1000 % 64 == a % 4 * 16 + b / 16
            && m / 64 % 64 == b % 16 * 4 + c / 64 && m % 64 == c % 64
  {
    var m := a * 0x1_0000 + b * 0x100 + c;
    QuotientIs(m, 0x4_0000, a / 4, a % 4 * 0x1_0000 + b * 0x100 + c);
    QuotientIs(m, 0x1000, a * 16 + b / 16, b % 16 * 0x100 + c);
    QuotientIs(a * 16 + b / 16, 64, a / 4, a % 4 * 16 + b / 16);
    QuotientIs(m, 64, a * 0x400 + b * 4 + c / 64, c % 64);
    QuotientIs(a * 0x400 + b * 4 + c / 64, 64, a * 16 + b / 16, b % 16 * 4 + c / 64);
  }

  lemma EncodedPosition(d: seq<Byte>, k: nat)
    requires k < |Encode(d)|
    ensures d != [] && (k >= 4 ==> |d| > 3)
    ensures Encode(d)[k] == if k < 4 then Group(Pack(d), Min(|d|, 3))[k] else Encode(d[3..])[k - 4]
  {
    hide Group, Pack, Encode;
    EncodedFirst(d);
    if d != [] {
      var first, rest := Group(Pack(d), Min(|d|, 3)), Encode(d[Min(|d|, 3)..]);
      assert |first| == 4 by { GroupLength(Pack(d), Min(|d|, 3)); }
      assert (first + rest)[k] == if k < 4 then first[k] else rest[k - 4];
    }
  }

  lemma EncodedFirst(d: seq<Byte>)
    ensures if d == [] then Encode(d) == "" else Encode(d) == Group(Pack(d), Min(|d|, 3)) + Encode(d[Min(|d|, 3)..])
    ensures d != [] && |d| <= 3 ==> |Encode(d)| == 4
  {
    hide Group, Pack;
  }

  lemma GroupLength(c: int, have: nat)
    requires 0 <= c < 0x100_0000 && 1 <= have <= 3
    ensures |Group(c, have)| == 4
  {
  }

  lemma LaterGroup(d: seq<Byte>, k: nat)
    requires |d| > 3 && k >= 4
    ensures IsPad(d, k) == IsPad(d[3..], k - 4) && SixBits(d, k) == SixBits(d[3..], k - 4)
  {
    assert (k - 4) / 4 == k / 4 - 1 && (k - 4) % 4 == k % 4;
    var i := k / 4 * 3;
    assert ByteAt(d, i) == ByteAt(d[3..], i - 3) && ByteAt(d, i + 1) == ByteAt(d[3..], i - 2)
        && ByteAt(d, i + 2) == ByteAt(d[3..], i - 1);
  }

  /** Every position of an encoding holds the alphabet's symbol for its six bits, or '=' where there is
      no byte. */
  lemma {:induction false} EncodedSymbol(d: seq<Byte>, k: nat)
    requires k < |Encode(d)|
    ensures |ALPHABET| == 64 && Encode(d)[k] == if IsPad(d, k) then '=' else ALPHABET[SixBits(d, k)]
    decreases |d|
  {
    hide Group, Pack, IsPad, SixBits, Symbol, Encode;
    SymbolIsListed(SixBits(d, k));
    EncodedPosition(d, k);
    if k < 4 {
      GroupBits(d, k);
    } else {
      LaterGroup(d, k);
      EncodedSymbol(d[3..], k - 4);
    }
  }

  /** The allocation of size * 4 / 3 + 4 bytes holds the encoding and its terminator. */
  lemma EncodingFits(d: seq<Byte>)
    ensures |Encode(d)| + 1 <= |d| * 4 / 3 + 4
  {
  }

  method MemSet4(buf: array<char>, p: nat, s: string)
    requires p + 4 <= buf.Length && |s| == 4
    modifies buf
    ensures buf[..p + 4] == old(buf[..p]) + s
  {
    buf[p], buf[p + 1], buf[p + 2], buf[p + 3] := s[0], s[1], s[2], s[3];
  }

  /** base64_encode: -1 when the size is out of range, else the length of the string in `buf`. */
  method EncodeBuf(data: seq<Byte>, size: int) returns (ret: int, buf: array<char>)
    requires 0 <= size <= INT_MAX / 4 ==> size <= |data|
    ensures fresh(buf)
    ensures ret == -1 <==> size < 0 || size > INT_MAX / 4
    ensures ret != -1 ==> 0 <= ret < buf.Length == size * 4 / 3 + 4
                          && buf[..ret] == Encode(data[..size]) && buf[ret] == '\0'
  {
    hide Encode;
    if size > INT_MAX / 4 || size < 0 {
      buf := new char[0];
      return -1, buf;
    }
    var capacity := size * 4 / 3 + 4;
    assert 3 * capacity >= 4 * size + 10;
    buf := new char[capacity];
    var p := 0;
    var i := 0;
    ghost var d, g := data[..size], 0;
    while i < size
      invariant 0 <= i <= size + 2 && i == 3 * g && p == 4 * g
      invariant Encode(d) == buf[..p] + Encode(d[Min(i, size)..])
    {
      PutGroup(data, size, buf, i, p);
      i, p, g := i + 3, p + 4, g + 1;
    }
    assert d[Min(i, size)..] == [] && buf[..p] + "" == buf[..p];
    buf[p] := '\0';
    return p, buf;
  }

  /** One turn of the encoding loop: the bytes written plus what remains to be encoded stay the same. */
  method PutGroup(data: seq<Byte>, size: nat, buf: array<char>, i: nat, p: nat)
    requires i < size <= |data| && p + 4 <= buf.Length
    modifies buf
    ensures buf[..p + 4] + Encode(data[..size][Min(i + 3, size)..]) == old(buf[..p]) + Encode(data[..size][i..])
  {
    var c := ReadGroup(data, i, size);
    var s := Symbols(c, i + 3, size);
    EncodeStep(data[..size], i);
    Append(buf[..p], s, Encode(data[..size][Min(i + 3, size)..]));
    MemSet4(buf, p, s);
  }

  lemma Append(a: string, b: string, c: string)
    ensures a + (b + c) == (a + b) + c
  {
  }

  /** The next three bytes as one number, 0 for each byte past the end. */
  method ReadGroup(data: seq<Byte>, i: nat, size: nat) returns (c: int)
    requires i < size <= |data|
    ensures c == Pack(data[..size][i..])
  {
    var k := i;
    c := data[k];
    k := k + 1;
    c := c * 256;
    if k < size {
      c := c + data[k];
    }
    k := k + 1;
    c := c * 256;
    if k < size {
      c := c + data[k];
    }
  }

  /** The four bytes stored for one group; `i` is the index after the group, past the end when bytes are missing. */
  method Symbols(c: int, i: int, size: int) returns (s: string)
    requires 0 <= c < 0x100_0000 && i - 3 < size
    ensures s == Group(c, Min(size - (i - 3), 3))
  {
    s := [Symbol(c / 0x4_0000), Symbol(c / 0x1000 % 64), Symbol(c / 64 % 64), Symbol(c % 64)];
    if i > size {
      s := s[3 := '='];
    }
    if i > size + 1 {
      s := s[2 := '='];
    }
  }

  lemma EncodeStep(d: seq<Byte>, i: nat)
    requires i < |d|
    ensures Encode(d[i..]) == Group(Pack(d[i..]), Min(|d| - i, 3)) + Encode(d[Min(i + 3, |d|)..])
  {
    assert d[i..][Min(|d| - i, 3)..] == d[Min(i + 3, |d|)..];
  }

  // ------------------------------------------------------------ decoding

  const DECODE_ERROR: int := 0xffff_ffff

  /** The 32-bit accumulator and the number of '=' after the first `i` characters of a token; None
      when a symbol follows a '='.  A character outside the alphabet adds -1. */
  function TokenScan(t: string, i: nat): Option<(int, int)>
    requires i <= |t|
  {
    if i == 0 then Some((0, 0))
    else if TokenScan(t, i - 1).None? then None
    else
      var (val, marker) := TokenScan(t, i - 1).value;
      var shifted := val * 64 % U32;
      if t[i - 1] == '=' then Some((shifted, marker + 1))
      else if marker > 0 then None
      else Some(((shifted + Pos(t[i - 1])) % U32, marker))
  }

  /** (marker << 24) | val for a marker of at most 2. */
  function OrMarker(marker: int, val: int): int
    requires 0 <= marker <= 2
  {
    var high := val / 0x100_0000;
    if marker == 0 || (marker == 1 && high % 2 == 1) || (marker == 2 && high / 2 % 2 == 1) then val
    else val + marker * 0x100_0000
  }

  lemma {:induction false} ScanRanges(t: string, i: nat)
    requires i <= |t|
    ensures TokenScan(t, i).Some? ==> 0 <= TokenScan(t, i).value.0 < U32 && 0 <= TokenScan(t, i).value.1 <= i
  {
    if i > 0 {
      ScanRanges(t, i - 1);
    }
  }

  function TokenDecode(t: string): int {
    if |t| < 4 || TokenScan(t, 4).None? then DECODE_ERROR
    else
      ScanRanges(t, 4);
      var (val, marker) := TokenScan(t, 4).value;
      if marker > 2 then DECODE_ERROR else OrMarker(marker, val)
  }

  /** The one to three bytes of a decoded token. */
  function Bytes(val: int): seq<Byte>
    requires 0 <= val
  {
    var marker := val / 0x100_0000 % 256;
    [val / 0x1_0000 % 256] + (if marker < 2 then [val / 0x100 % 256] else []) + (if marker < 1 then [val % 256] else [])
  }

  predicate Decodable(c: char) {
    c == '=' || Pos(c) >= 0
  }

  lemma TokenDecodeRange(t: string)
    ensures 0 <= TokenDecode(t)
    ensures TokenDecode(t) != DECODE_ERROR ==> |t| >= 4
  {
    if |t| >= 4 {
      ScanRanges(t, 4);
    }
  }

  /** What base64_decode stores; None for -1. */
  function Decode(s: string): Option<seq<Byte>> {
    if s == "" || !Decodable(s[0]) then Some([])
    else
      TokenDecodeRange(s);
      if TokenDecode(s) == DECODE_ERROR || Decode(s[4..]).None? then None
      else Some(Bytes(TokenDecode(s)) + Decode(s[4..]).value)
  }

  /** Decoding any string whatever writes at most three bytes for each four characters. */
  lemma {:induction false} DecodeBounded(s: string)
    ensures Decode(s).Some? ==> 4 * |Decode(s).value| <= 3 * |s|
  {
    if s != "" && Decodable(s[0]) {
      TokenDecodeRange(s);
      if TokenDecode(s) != DECODE_ERROR {
        DecodeBounded(s[4..]);
      }
    }
  }

  /** Four sextets from one 24-bit number and back. */
  lemma Sextets(c: int)
    requires 0 <= c < 0x100_0000
    ensures c / 0x4_0000 < 64
    ensures c / 0x4_0000 * 64 + c / 0x1000 % 64 == c / 0x1000
    ensures c / 0x1000 * 64 + c / 64 % 64 == c / 64
    ensures c / 64 * 64 + c % 64 == c
  {
  }

  lemma SmallShift(x: int, v: Sextet)
    requires 0 <= x < 0x4_0000
    ensures x * 64 % U32 == x * 64 && (x * 64 + v) % U32 == x * 64 + v
  {
  }

  lemma ScanStep(t: string, i: nat, v: Sextet)
    requires i < |t| && t[i] == Symbol(v) && TokenScan(t, i).Some? && TokenScan(t, i).value.1 == 0
    requires 0 <= TokenScan(t, i).value.0 < 0x4_0000
    ensures TokenScan(t, i + 1) == Some((TokenScan(t, i).value.0 * 64 + v, 0))
  {
    SymbolsAndPositions(v, 'A');
    SmallShift(TokenScan(t, i).value.0, v);
  }

  lemma ScanPad(t: string, i: nat)
    requires i < |t| && t[i] == '=' && TokenScan(t, i).Some? && 0 <= TokenScan(t, i).value.0 < 0x4_0000
    ensures TokenScan(t, i + 1) == Some((TokenScan(t, i).value.0 * 64, TokenScan(t, i).value.1 + 1))
  {
    SmallShift(TokenScan(t, i).value.0, 0);
  }

  lemma NoneScanned(t: string)
    ensures TokenScan(t, 0) == Some((0, 0))
  {
  }

  lemma ScanHead(t: string, c: int)
    requires 0 <= c < 0x100_0000
    requires |t| >= 4 && t[0] == Symbol(c / 0x4_0000) && t[1] == Symbol(c / 0x1000 % 64)
    ensures TokenScan(t, 2) == Some((c / 0x1000, 0))
  {
    hide TokenScan, Symbol;
    Sextets(c);
    NoneScanned(t);
    ScanStep(t, 0, c / 0x4_0000);
    ScanStep(t, 1, c / 0x1000 % 64);
  }

  lemma ScanGroup(t: string, c: int, have: nat)
    requires 0 <= c < 0x100_0000 && 1 <= have <= 3
    requires (have < 3 ==> c % 64 == 0) && (have < 2 ==> c / 64 % 64 == 0)
    requires |t| >= 4 && t[0] == Symbol(c / 0x4_0000) && t[1] == Symbol(c / 0x1000 % 64)
    requires t[2] == (if have < 2 then '=' else Symbol(c / 64 % 64)) && t[3] == (if have < 3 then '=' else Symbol(c % 64))
    ensures TokenScan(t, 4) == Some((c, 3 - have))
  {
    hide TokenScan, Symbol;
    Sextets(c);
    ScanHead(t, c);
    if have < 2 {
      ScanPad(t, 2);
    } else {
      ScanStep(t, 2, c / 64 % 64);
    }
    assert TokenScan(t, 3) == Some((c / 64, if have < 2 then 1 else 0));
    if have < 3 {
      ScanPad(t, 3);
    } else {
      ScanStep(t, 3, c % 64);
    }
  }

  lemma Digits(m: int, a: int, b: int, c: int)
    requires 0 <= a < 256 && 0 <= b < 256 && 0 <= c < 256 && 0 <= m < 3
    ensures var v := a * 0x1_0000 + b * 0x100 + c;
            && (m * 0x100_0000 + v) / 0x100_0000 == m
            && (m * 0x100_0000 + v) / 0x1_0000 == m * 0x100 + a
            && (m * 0x100_0000 + v) / 0x100 == (m * 0x100 + a) * 0x100 + b
            && (m * 0x100_0000 + v) % 256 == c
            && (c == 0 ==> v % 64 == 0) && (b == c == 0 ==> v / 64 % 64 == 0)
  {
    var v := a * 0x1_0000 + b * 0x100 + c;
    QuotientIs(m * 0x100_0000 + v, 0x100_0000, m, v);
    QuotientIs(m * 0x100_0000 + v, 0x1_0000, m * 0x100 + a, b * 0x100 + c);
    QuotientIs(m * 0x100_0000 + v, 0x100, (m * 0x100 + a) * 0x100 + b, c);
    if c == 0 {
      QuotientIs(v, 64, a * 0x400 + b * 4, 0);
      if b == 0 {
        QuotientIs(a * 0x400, 64, a * 0x10, 0);
      }
    }
  }

  lemma PackedBytes(d: seq<Byte>)
    requires d != []
    ensures var have := Min(|d|, 3);
            && (have < 3 ==> Pack(d) % 64 == 0) && (have < 2 ==> Pack(d) / 64 % 64 == 0)
            && Bytes((3 - have) * 0x100_0000 + Pack(d)) == d[..have]
  {
    var have := Min(|d|, 3);
    var b: int := if have > 1 then d[1] else 0;
    var c: int := if have > 2 then d[2] else 0;
    Digits(3 - have, d[0], b, c);
    ByteOf(3 - have, d[0], b);
    assert d[..have] == [d[0]] + (if have > 1 then [d[1]] else []) + (if have > 2 then [d[2]] else []);
  }

  lemma ByteOf(m: int, a: int, b: int)
    requires 0 <= a < 256 && 0 <= b < 256 && 0 <= m < 3
    ensures (m * 0x100 + a) % 256 == a && ((m * 0x100 + a) * 0x100 + b) % 256 == b && m % 256 == m
  {
    QuotientIs(m * 0x100 + a, 256, m, a);
    QuotientIs((m * 0x100 + a) * 0x100 + b, 256, m * 0x100 + a, b);
  }

  /** base64_decode undoes base64_encode on every byte sequence. */
  lemma {:induction false} RoundTrip(d: seq<Byte>)
    ensures Decode(Encode(d)) == Some(d)
  {
    if d != [] {
      var have := Min(|d|, 3);
      RoundTrip(d[have..]);
      DecodeGroup(d, Encode(d[have..]));
      assert d == d[..have] + d[have..];
    }
  }

  lemma DecodeGroup(d: seq<Byte>, rest: string)
    requires d != [] && Decode(rest).Some?
    ensures Decode(Group(Pack(d), Min(|d|, 3)) + rest) == Some(d[..Min(|d|, 3)] + Decode(rest).value)
  {
    var have := Min(|d|, 3);
    var t := Group(Pack(d), have) + rest;
    PackedBytes(d);
    DecodeToken(t, Pack(d), have);
    assert t[4..] == rest;
  }

  lemma DecodeToken(t: string, c: int, have: nat)
    requires 0 <= c < 0x100_0000 && 1 <= have <= 3
    requires (have < 3 ==> c % 64 == 0) && (have < 2 ==> c / 64 % 64 == 0)
    requires Group(c, have) <= t
    ensures TokenDecode(t) == (3 - have) * 0x100_0000 + c && Decodable(t[0])
  {
    assert forall i | 0 <= i < 4 :: t[i] == Group(c, have)[i];
    ScanGroup(t, c, have);
    SymbolsAndPositions(c / 0x4_0000, 'A');
  }

  /** So no two byte sequences share an encoding. */
  lemma EncodeInjective(d: seq<Byte>, e: seq<Byte>)
    requires Encode(d) == Encode(e)
    ensures d == e
  {
    RoundTrip(d);
    RoundTrip(e);
  }

  // ------------------------------------------------------------ which strings are encodings

  /** The number of '=' a string ends in, counting at most two. */
  function Padding(s: string): (p: nat)
    ensures p <= 2 && p <= |s|
    ensures forall i | |s| - p <= i < |s| :: s[i] == '='
  {
    if s == "" || s[|s| - 1] != '=' then 0 else if |s| == 1 || s[|s| - 2] != '=' then 1 else 2
  }

  /** Whole groups of characters of the alphabet, up to two '=' in place of the last ones, and no bits
      set that the missing bytes would hold. */
  predicate IsEncoding(s: string) {
    var n, p := |s|, Padding(s);
    && n % 4 == 0
    && (forall i | 0 <= i < n - p :: Pos(s[i]) >= 0)
    && (p == 1 && n >= 4 ==> Pos(s[n - 2]) % 4 == 0)
    && (p == 2 && n >= 4 ==> Pos(s[n - 3]) % 16 == 0)
  }

  lemma PaddingOfRest(s: string)
    requires |s| > 4 && |s| % 4 == 0
    ensures Padding(s[4..]) == Padding(s)
  {
  }

  /** A first group that is not the last holds four characters of the alphabet. */
  lemma EncodingOfGroups(s: string)
    requires |s| > 4 && |s| % 4 == 0
    ensures IsEncoding(s) <==> (forall i | 0 <= i < 4 :: Pos(s[i]) >= 0) && IsEncoding(s[4..])
  {
    PaddingOfRest(s);
    var t := s[4..];
    assert forall i | 0 <= i < |t| :: t[i] == s[i + 4];
    if (forall i | 0 <= i < 4 :: Pos(s[i]) >= 0) && IsEncoding(t) {
      forall i | 0 <= i < |s| - Padding(s)
        ensures Pos(s[i]) >= 0
      {
        assert i >= 4 ==> Pos(t[i - 4]) >= 0;
      }
    }
    if IsEncoding(s) {
      forall i | 0 <= i < |t| - Padding(t)
        ensures Pos(t[i]) >= 0
      {
        assert Pos(s[i + 4]) >= 0;
      }
    }
  }

  /** What makes a single group an encoding. */
  predicate GroupOk(s: string)
    requires |s| == 4
  {
    && Pos(s[0]) >= 0 && Pos(s[1]) >= 0
    && if s[3] != '=' then Pos(s[2]) >= 0 && Pos(s[3]) >= 0
       else if s[2] != '=' then Pos(s[2]) >= 0 && Pos(s[2]) % 4 == 0
       else Pos(s[1]) % 16 == 0
  }

  lemma EncodingOfGroup(s: string)
    requires |s| == 4
    ensures IsEncoding(s) <==> GroupOk(s)
  {
  }

  lemma GroupIsEncoding(c: int, have: nat)
    requires 0 <= c < 0x100_0000 && 1 <= have <= 3
    requires (have < 3 ==> c / 64 % 4 == 0) && (have < 2 ==> c / 0x1000 % 16 == 0)
    ensures GroupOk(Group(c, have))
    ensures have == 3 ==> forall i | 0 <= i < 4 :: Pos(Group(c, have)[i]) >= 0
  {
    hide Pos, Symbol;
    SymbolsAndPositions(c / 0x4_0000, '=');
    SymbolsAndPositions(c / 0x1000 % 64, '=');
    SymbolsAndPositions(c / 64 % 64, '=');
    SymbolsAndPositions(c % 64, '=');
    LowBits(c / 64, c / 0x1000);
  }

  lemma LowBits(a: int, b: int)
    ensures a % 64 % 4 == a % 4 && b % 64 % 16 == b % 16
  {
    RemainderOfPart(a / 64, a % 64, 64, 4, 16);
    RemainderOfPart(b / 64, b % 64, 64, 16, 4);
  }

  lemma RemainderOfPart(q: int, r: int, n: int, m: int, k: int)
    requires m > 0 && n == m * k
    ensures (q * n + r) % m == r % m
  {
    assert q * n == q * k * m;
    assert q * n + r == (q * k + r / m) * m + r % m by { assert r == r / m * m + r % m; }
    QuotientIs(q * n + r, m, q * k + r / m, r % m);
  }

  lemma Exact(x: nat, y: nat)
    ensures x == 64 * y ==> x / 64 == y
    ensures x == 0x1000 * y ==> x / 0x1000 == y
    ensures 4 * y % 4 == 0 && 16 * y % 16 == 0
  {
  }

  /** The bits of missing bytes are zero. */
  lemma SpareBits(a: int, b: int)
    requires 0 <= a < 256 && 0 <= b < 256
    ensures (a * 0x1_0000 + b * 0x100) / 64 % 4 == 0 && a * 0x1_0000 / 0x1000 % 16 == 0
  {
    Exact(a * 0x1_0000 + b * 0x100, 4 * (a * 256 + b));
    Exact(a * 0x1_0000, 16 * a);
    Exact(0, a * 256 + b);
    Exact(0, a);
  }

  lemma PackHasNoSpareBits(d: seq<Byte>)
    requires d != []
    ensures |d| < 3 ==> Pack(d) / 64 % 4 == 0
    ensures |d| < 2 ==> Pack(d) / 0x1000 % 16 == 0
  {
    SpareBits(d[0], if |d| > 1 then d[1] else 0);
  }

  lemma {:induction false} EncodeIsEncoding(d: seq<Byte>)
    ensures IsEncoding(Encode(d))
  {
    if d != [] {
      hide Group, Pos, IsEncoding, GroupOk;
      PackHasNoSpareBits(d);
      GroupIsEncoding(Pack(d), Min(|d|, 3));
      var g := Group(Pack(d), Min(|d|, 3));
      if |d| <= 3 {
        assert Encode(d) == g + "" == g;
        EncodingOfGroup(g);
      } else {
        EncodeIsEncoding(d[3..]);
        EncodingWithGroup(g, Encode(d[3..]));
      }
    }
  }

  lemma EncodingWithGroup(g: string, rest: string)
    requires |g| == 4 && (forall i | 0 <= i < 4 :: Pos(g[i]) >= 0)
    requires rest != "" && |rest| % 4 == 0 && IsEncoding(rest)
    ensures IsEncoding(g + rest)
  {
    hide IsEncoding, Pos;
    assert (g + rest)[4..] == rest && forall i | 0 <= i < 4 :: (g + rest)[i] == g[i];
    EncodingOfGroups(g + rest);
  }

  /** The bytes that four sextets hold, as many as there are. */
  function Unpacked(v0: Sextet, v1: Sextet, v2: Sextet, v3: Sextet, have: nat): (d: seq<Byte>)
    requires 1 <= have <= 3
    ensures |d| == have
  {
    [v0 * 4 + v1 / 16, v1 % 16 * 16 + v2 / 4, v2 % 4 * 64 + v3][..have]
  }

  lemma PackUnpacked(v0: Sextet, v1: Sextet, v2: Sextet, v3: Sextet, have: nat)
    requires 1 <= have <= 3
    requires (have < 3 ==> v3 == 0 && v2 % 4 == 0) && (have < 2 ==> v2 == 0 && v1 % 16 == 0)
    ensures Pack(Unpacked(v0, v1, v2, v3, have)) == v0 * 0x4_0000 + v1 * 0x1000 + v2 * 64 + v3
  {
    assert v1 == v1 / 16 * 16 + v1 % 16 && v2 == v2 / 4 * 4 + v2 % 4;
  }

  lemma SextetsOf(v0: Sextet, v1: Sextet, v2: Sextet, v3: Sextet)
    ensures var c := v0 * 0x4_0000 + v1 * 0x1000 + v2 * 64 + v3;
            0 <= c < 0x100_0000 && c / 0x4_0000 == v0 && c / 0x1000 % 64 == v1 && c / 64 % 64 == v2 && c % 64 == v3
  {
    var c := v0 * 0x4_0000 + v1 * 0x1000 + v2 * 64 + v3;
    assert c == ((v0 * 64 + v1) * 64 + v2) * 64 + v3;
    assert c / 64 == (v0 * 64 + v1) * 64 + v2 && c / 0x1000 == v0 * 64 + v1;
  }

  /** The one group of a string of four characters is the encoding of its bytes. */
  lemma GroupIsEncoded(s: string) returns (d: seq<Byte>)
    requires |s| == 4 && GroupOk(s)
    ensures d != [] && |d| <= 3 && (s[3] != '=' ==> |d| == 3) && s == Group(Pack(d), |d|)
  {
    hide Pos, Symbol, Pack;
    var have := if s[3] != '=' then 3 else if s[2] != '=' then 2 else 1;
    var v0: Sextet, v1: Sextet := Pos(s[0]), Pos(s[1]);
    var v2: Sextet := if have < 2 then 0 else Pos(s[2]);
    var v3: Sextet := if have < 3 then 0 else Pos(s[3]);
    d := Unpacked(v0, v1, v2, v3, have);
    PackUnpacked(v0, v1, v2, v3, have);
    SextetsOf(v0, v1, v2, v3);
    SymbolsAndPositions(v0, s[0]);
    SymbolsAndPositions(v1, s[1]);
    SymbolsAndPositions(v2, s[2]);
    SymbolsAndPositions(v3, s[3]);
    assert s == [s[0], s[1], s[2], s[3]];
  }

  lemma {:induction false} EncodingIsEncoded(s: string) returns (d: seq<Byte>)
    requires IsEncoding(s)
    ensures Encode(d) == s
    decreases |s|
  {
    hide Group, Pos, GroupOk;
    if s == "" {
      d := [];
    } else if |s| == 4 {
      EncodingOfGroup(s);
      d := GroupIsEncoded(s);
      assert Encode(d) == s + "" by { assert Encode(d[Min(|d|, 3)..]) == ""; }
    } else {
      EncodingOfGroups(s);
      var rest := EncodingIsEncoded(s[4..]);
      FullGroupOk(s[..4]);
      var first := GroupIsEncoded(s[..4]);
      d := first + rest;
      EncodeGroupFirst(first, rest);
      assert s == s[..4] + s[4..];
    }
  }

  lemma FullGroupOk(s: string)
    requires |s| == 4 && forall i | 0 <= i < 4 :: Pos(s[i]) >= 0
    ensures GroupOk(s) && s[3] != '='
  {
  }

  lemma EncodeGroupFirst(first: seq<Byte>, rest: seq<Byte>)
    requires |first| == 3
    ensures Encode(first + rest) == Group(Pack(first), 3) + Encode(rest)
  {
    assert (first + rest)[3..] == rest;
  }

  /** Decoding is strict exactly on encodings: on these the text is the encoding of what is decoded, on
      every other text decoding fails or gives bytes that the text does not encode. */
  lemma StrictExactlyOnEncodings(s: string)
    ensures Decode(s).Some? && Encode(Decode(s).value) == s <==> IsEncoding(s)
  {
    if IsEncoding(s) {
      var d := EncodingIsEncoded(s);
      RoundTrip(d);
    } else if Decode(s).Some? && Encode(Decode(s).value) == s {
      EncodeIsEncoding(Decode(s).value);
    }
  }

  /** A character outside the alphabet ends the text where a group would start: whatever follows an
      encoding behind it is ignored. */
  lemma {:induction false} ForeignEndsText(d: seq<Byte>, c: char, t: string)
    requires !Decodable(c)
    ensures Decode(Encode(d) + ([c] + t)) == Some(d)
  {
    if d == [] {
      assert "" + ([c] + t) == [c] + t;
    } else {
      hide Group, Pack, Decodable, TokenDecode;
      var have := Min(|d|, 3);
      ForeignEndsText(d[have..], c, t);
      DecodeGroup(d, Encode(d[have..]) + ([c] + t));
      Append(Group(Pack(d), have), Encode(d[have..]), [c] + t);
      assert d == d[..have] + d[have..];
    }
  }

  lemma ForeignIsNoEncoding(d: seq<Byte>, c: char, t: string)
    requires !Decodable(c)
    ensures !IsEncoding(Encode(d) + ([c] + t))
  {
    ForeignEndsText(d, c, t);
    StrictExactlyOnEncodings(Encode(d) + ([c] + t));
  }

  lemma ForeignInGroup()
    ensures Decode("AAB!") == Decode("AAA/") && Decode("AAB!").Some? && !IsEncoding("AAB!")
  {
    ForeignToken();
    LastToken("AAB!");
    LastToken("AAA/");
    assert "AAB!"[3] == '!' && Pos('!') == -1;
  }

  lemma ForeignToken()
    ensures TokenDecode("AAB!") == TokenDecode("AAA/") == 63
  {
    hide TokenScan, Pos;
    PosOfSome();
    ScanChars("AAB!", 0, 0, 1);
    ScanChars("AAA/", 0, 0, 0);
  }

  lemma PosOfSome()
    ensures Pos('A') == 0 && Pos('B') == 1 && Pos('!') == -1 && Pos('/') == 63
  {
  }

  lemma ScanChars(t: string, v0: Sextet, v1: Sextet, v2: Sextet)
    requires |t| == 4 && Pos(t[0]) == v0 && Pos(t[1]) == v1 && Pos(t[2]) == v2 && t[3] != '='
    ensures TokenScan(t, 4) == Some(((v0 * 0x4_0000 + v1 * 0x1000 + v2 * 64 + Pos(t[3])) % U32, 0))
  {
    hide TokenScan;
    ScanPos(t, 0, 0);
    ScanPos(t, 1, v0);
    ScanPos(t, 2, v0 * 64 + v1);
    ScanPos(t, 3, v0 * 0x1000 + v1 * 64 + v2);
  }

  lemma ScanPos(t: string, i: nat, val: nat)
    requires i < |t| && t[i] != '=' && val < 0x4_0000 && (if i == 0 then val == 0 else TokenScan(t, i) == Some((val, 0)))
    ensures TokenScan(t, i + 1) == Some(((val * 64 + Pos(t[i])) % U32, 0))
  {
    SmallShift(val, 0);
  }

  lemma LastToken(t: string)
    requires |t| == 4 && Decodable(t[0]) && TokenDecode(t) >= 0 && TokenDecode(t) != DECODE_ERROR
    ensures Decode(t) == Some(Bytes(TokenDecode(t)))
  {
    hide TokenDecode, Bytes;
    assert t[4..] == "" && Decode("") == Some([]);
    assert Bytes(TokenDecode(t)) + [] == Bytes(TokenDecode(t));
  }

  /** Instances: a foreign character inside a group is taken as -1, and one behind a group is ignored. */
  lemma DecodeIsNotStrict()
    ensures Decode("AAB!") == Decode("AAA/") && Decode("AAB!").Some? && !IsEncoding("AAB!")
    ensures Decode("AAAA!") == Decode("AAAA") && Decode("AAAA!").Some? && !IsEncoding("AAAA!")
  {
    ForeignInGroup();
    ZeroGroup();
    RoundTrip([0, 0, 0]);
    ForeignEndsText([0, 0, 0], '!', "");
    ForeignIsNoEncoding([0, 0, 0], '!', "");
  }

  lemma ZeroGroup()
    ensures Encode([0, 0, 0]) == "AAAA" && "AAAA" + (['!'] + "") == "AAAA!"
  {
    assert Pack([0, 0, 0]) == 0 && Encode([0, 0, 0][3..]) == "";
  }

  /** base64_decode into a buffer of at least three bytes for each four characters. */
  method DecodeBuf(str: string, data: array<Byte>) returns (ret: int)
    requires 4 * data.Length >= 3 * |str|
    modifies data
    ensures ret == -1 <==> Decode(str).None?
    ensures ret != -1 ==> 0 <= ret <= data.Length && Some(data[..ret]) == Decode(str)
  {
    hide Decode, TokenDecode, Bytes;
    var q, p := 0, 0;
    PrependTwice([], [], Decode(str));
    assert str[0..] == str && data[..0] == [];
    while p < |str| && Decodable(str[p])
      invariant 0 <= p <= |str| && 0 <= 4 * q <= 3 * p
      invariant Decode(str) == Prepend(data[..q], Decode(str[p..]))
    {
      var val := TokenDecode(str[p..]);
      DecodeStep(str, p);
      if val == DECODE_ERROR {
        return -1;
      }
      PrependTwice(data[..q], Bytes(val), Decode(str[p + 4..]));
      var n := PutBytes(data, q, val);
      q, p := q + n, p + 4;
    }
    NothingToDecode(str[p..]);
    PrependTwice(data[..q], [], Decode(str[p..]));
    return q;
  }

  lemma NothingToDecode(s: string)
    requires s == "" || !Decodable(s[0])
    ensures Decode(s) == Some([])
  {
  }

  ghost function Prepend(b: seq<Byte>, o: Option<seq<Byte>>): Option<seq<Byte>> {
    if o.None? then None else Some(b + o.value)
  }

  lemma PrependTwice(a: seq<Byte>, b: seq<Byte>, o: Option<seq<Byte>>)
    ensures Prepend(a, Prepend(b, o)) == Prepend(a + b, o)
    ensures Prepend(a, Some([])) == Some(a) && Prepend([], o) == o
  {
    assert a + [] == a;
    if o.Some? {
      assert [] + o.value == o.value;
      assert a + (b + o.value) == a + b + o.value;
    }
  }

  lemma DecodeStep(str: string, p: nat)
    requires p < |str| && Decodable(str[p])
    ensures var val := TokenDecode(str[p..]);
            if val == DECODE_ERROR then Decode(str[p..]).None?
            else val >= 0 && p + 4 <= |str| && Decode(str[p..]) == Prepend(Bytes(val), Decode(str[p + 4..]))
  {
    TokenDecodeRange(str[p..]);
    if |str| - p >= 4 {
      assert str[p..][4..] == str[p + 4..];
    }
  }

  method PutBytes(data: array<Byte>, q: nat, val: int) returns (n: nat)
    requires 0 <= val && q + 3 <= data.Length
    modifies data
    ensures n == |Bytes(val)| <= 3
    ensures data[..q + n] == old(data[..q]) + Bytes(val)
  {
    var marker := val / 0x100_0000 % 256;
    data[q] := val / 0x1_0000 % 256;
    n := 1;
    if marker < 2 {
      data[q + n] := val / 0x100 % 256;
      n := n + 1;
    }
    if marker < 1 {
      data[q + n] := val % 256;
      n := n + 1;
    }
  }

  // ------------------------------------------------------------ URL-safe form

  predicate UrlSpecial(c: char) {
    c == '+' || c == '/' || c == '='
  }

  function PercentEncoded(c: char): string {
    if c == '+' then "%2B" else if c == '/' then "%2F" else if c == '=' then "%3D" else [c]
  }

  function Escape(s: string): string {
    if s == "" then "" else Escape(s[..|s| - 1]) + PercentEncoded(s[|s| - 1])
  }

  function SpecialCount(s: string): nat {
    if s == "" then 0 else SpecialCount(s[..|s| - 1]) + if UrlSpecial(s[|s| - 1]) then 1 else 0
  }

  function HexDigit(c: char): int {
    if '0' <= c <= '9' then c as int - '0' as int else if 'A' <= c <= 'F' then c as int - 'A' as int + 10 else -1
  }

  /** Percent-decoding as a URL consumer does it; a malformed sequence stays as it is. */
  function Unescape(s: string): string {
    if s == "" then ""
    else if s[0] == '%' && |s| >= 3 && HexDigit(s[1]) >= 0 && HexDigit(s[2]) >= 0 then
      [(HexDigit(s[1]) * 16 + HexDigit(s[2])) as char] + Unescape(s[3..])
    else [s[0]] + Unescape(s[1..])
  }

  lemma PercentLength(c: char)
    ensures |PercentEncoded(c)| == if UrlSpecial(c) then 3 else 1
    ensures !UrlSpecial(c) ==> PercentEncoded(c) == [c]
  {
  }

  lemma {:induction false} EscapeLength(s: string)
    ensures |Escape(s)| == |s| + 2 * SpecialCount(s)
    ensures SpecialCount(s) == 0 ==> Escape(s) == s
  {
    hide PercentEncoded, UrlSpecial;
    if s != "" {
      EscapeLength(s[..|s| - 1]);
      PercentLength(s[|s| - 1]);
      assert s == s[..|s| - 1] + [s[|s| - 1]];
    }
  }

  lemma {:induction false} EscapeIsClean(s: string)
    ensures forall c | c in Escape(s) :: !UrlSpecial(c)
  {
    if s != "" {
      EscapeIsClean(s[..|s| - 1]);
    }
  }

  lemma {:induction false} EscapeFront(s: string)
    requires s != ""
    ensures Escape(s) == PercentEncoded(s[0]) + Escape(s[1..])
  {
    if |s| > 1 {
      var front := s[..|s| - 1];
      EscapeFront(front);
      assert front[1..] == s[1..][..|s| - 2] && s[1..][|s| - 2] == s[|s| - 1] && front[0] == s[0];
    }
  }

  lemma UnescapeOne(c: char, rest: string)
    requires c != '%'
    ensures Unescape(PercentEncoded(c) + rest) == [c] + Unescape(rest)
  {
    if UrlSpecial(c) {
      UnescapeTriple(PercentEncoded(c), rest);
    } else {
      assert ([c] + rest)[1..] == rest;
    }
  }

  lemma UnescapeTriple(t: string, rest: string)
    requires |t| == 3 && t[0] == '%' && HexDigit(t[1]) >= 0 && HexDigit(t[2]) >= 0
    ensures Unescape(t + rest) == [(HexDigit(t[1]) * 16 + HexDigit(t[2])) as char] + Unescape(rest)
  {
    var s := t + rest;
    assert s[3..] == rest && s[0] == t[0] && s[1] == t[1] && s[2] == t[2];
  }

  lemma {:induction false} UnescapeEscape(s: string)
    requires '%' !in s
    ensures Unescape(Escape(s)) == s
  {
    if s != "" {
      EscapeFront(s);
      UnescapeOne(s[0], Escape(s[1..]));
      UnescapeEscape(s[1..]);
      assert s == [s[0]] + s[1..];
    }
  }

  lemma {:induction false} EncodeAlphabet(d: seq<Byte>)
    ensures forall c | c in Encode(d) :: Decodable(c)
  {
    if d != [] {
      EncodeAlphabet(d[Min(|d|, 3)..]);
      GroupAlphabet(Pack(d), Min(|d|, 3));
    }
  }

  lemma GroupAlphabet(c: int, have: nat)
    requires 0 <= c < 0x100_0000 && 1 <= have <= 3
    ensures forall x | x in Group(c, have) :: Decodable(x)
  {
    SymbolsAndPositions(c / 0x4_0000, 'A');
    SymbolsAndPositions(c / 0x1000 % 64, 'A');
    SymbolsAndPositions(c / 64 % 64, 'A');
    SymbolsAndPositions(c % 64, 'A');
  }

  lemma EscapedForm(s: string)
    requires forall c | c in s :: Decodable(c)
    ensures (forall c | c in Escape(s) :: !UrlSpecial(c))
    ensures Unescape(Escape(s)) == s && |Escape(s)| == |s| + 2 * SpecialCount(s)
  {
    EscapeIsClean(s);
    UnescapeEscape(s);
    EscapeLength(s);
  }

  /** The URL form has no '+', '/' or '=', percent-decodes to the plain encoding and from there to the data. */
  lemma UrlForm(d: seq<Byte>)
    ensures forall c | c in Escape(Encode(d)) :: !UrlSpecial(c)
    ensures Unescape(Escape(Encode(d))) == Encode(d) && Decode(Unescape(Escape(Encode(d)))) == Some(d)
    ensures |Escape(Encode(d))| == |Encode(d)| + 2 * SpecialCount(Encode(d))
  {
    EncodeAlphabet(d);
    EscapedForm(Encode(d));
    RoundTrip(d);
  }

  /** base64_html_encode: -1 when the size is out of range, else the length of the string in `buf`. */
  method HtmlEncodeBuf(data: seq<Byte>, size: int) returns (ret: int, buf: array<char>)
    requires 0 <= size <= INT_MAX / 4 ==> size <= |data|
    ensures ret == -1 <==> size < 0 || size > INT_MAX / 4
    ensures ret != -1 ==> 0 <= ret < buf.Length && buf[..ret] == Escape(Encode(data[..size])) && buf[ret] == '\0'
  {
    var oldLen;
    oldLen, buf := EncodeBuf(data, size);
    if oldLen < 0 {
      return oldLen, buf;
    }
    ghost var plain := buf[..oldLen];
    EscapeLength(plain);
    var urlChrs := CountSpecial(buf, oldLen);
    if urlChrs == 0 {
      return oldLen, buf;
    }
    var newLen := oldLen + 2 * urlChrs;
    var newBuf := new char[newLen + 1];
    EscapeInto(buf, oldLen, newBuf);
    newBuf[newLen] := '\0';
    return newLen, newBuf;
  }

  method CountSpecial(buf: array<char>, len: nat) returns (n: nat)
    requires len <= buf.Length
    ensures n == SpecialCount(buf[..len])
  {
    n := 0;
    for i := 0 to len
      invariant n == SpecialCount(buf[..i])
    {
      assert buf[..i + 1][..i] == buf[..i];
      if UrlSpecial(buf[i]) {
        n := n + 1;
      }
    }
  }

  method EscapeInto(buf: array<char>, len: nat, dest: array<char>)
    requires len <= buf.Length && buf != dest
    requires dest.Length > len + 2 * SpecialCount(buf[..len])
    modifies dest
    ensures dest[..len + 2 * SpecialCount(buf[..len])] == Escape(buf[..len])
  {
    var s := 0;
    ghost var src := buf[..len];
    for i := 0 to len
      invariant buf[..len] == src
      invariant s == i + 2 * SpecialCount(src[..i]) && s <= dest.Length && dest[..s] == Escape(src[..i])
    {
      EscapeStep(src, i);
      s := Put(dest, s, PercentEncoded(buf[i]));
    }
    assert src[..len] == src;
  }

  lemma EscapeStep(s: string, i: nat)
    requires i < |s|
    ensures Escape(s[..i + 1]) == Escape(s[..i]) + PercentEncoded(s[i])
    ensures |PercentEncoded(s[i])| == 1 + 2 * (SpecialCount(s[..i + 1]) - SpecialCount(s[..i]))
    ensures i + 1 + 2 * SpecialCount(s[..i + 1]) <= |s| + 2 * SpecialCount(s)
  {
    assert s[..i + 1][..i] == s[..i];
    SpecialCountGrows(s, i + 1);
  }

  method Put(dest: array<char>, s: nat, src: string) returns (s': nat)
    requires s + |src| <= dest.Length
    modifies dest
    ensures s' == s + |src| && dest[..s'] == old(dest[..s]) + src
  {
    forall k | 0 <= k < |src| {
      dest[s + k] := src[k];
    }
    s' := s + |src|;
  }

  lemma {:induction false} SpecialCountGrows(s: string, i: nat)
    requires i <= |s|
    ensures SpecialCount(s[..i]) <= SpecialCount(s)
    decreases |s| - i
  {
    if i == |s| {
      assert s[..i] == s;
    } else {
      SpecialCountGrows(s, i + 1);
      assert s[..i + 1][..i] == s[..i];
    }
  }
}
