/** The base 64 encoding of section 4 of RFC 4648 with `=` padding, as
    `base64.b64encode` writes it, and a strict decoder as its partner. */
module Base64 {
  import opened Results
  import opened Bytes

  type Sextet = n: int | 0 <= n < 64

  const PAD: char := '='

  /** The alphabet of table 1 of RFC 4648: `A`-`Z`, `a`-`z`, `0`-`9`, `+`, `/`. */
  function CharOf(n: Sextet): (c: char)
    ensures c != PAD && c as int < 128
  {
    if n < 26 then ('A' as int + n) as char
    else if n < 52 then ('a' as int + n - 26) as char
    else if n < 62 then ('0' as int + n - 52) as char
    else if n == 62 then '+'
    else '/'
  }

  function ValueOf(c: char): (r: Option<Sextet>) {
    if 'A' <= c <= 'Z' then Some(c as int - 'A' as int)
    else if 'a' <= c <= 'z' then Some(c as int - 'a' as int + 26)
    else if '0' <= c <= '9' then Some(c as int - '0' as int + 52)
    else if c == '+' then Some(62)
    else if c == '/' then Some(63)
    else None
  }

  lemma ValueOfCharOf(n: Sextet)
    ensures ValueOf(CharOf(n)) == Some(n)
  {
  }

  /** Three bytes as four characters, high bits first. */
  function EncodeBlock(b0: Byte, b1: Byte, b2: Byte): (r: string)
    ensures |r| == 4 && PAD !in r
  {
    [CharOf(b0 / 4), CharOf(b0 % 4 * 16 + b1 / 16), CharOf(b1 % 16 * 4 + b2 / 64), CharOf(b2 % 64)]
  }

  /** `base64.b64encode(bs).decode()`: full blocks, then a last block of one or
      two bytes padded with `==` or `=`. */
  function Encode(bs: seq<Byte>): (r: string)
    ensures |r| == (|bs| + 2) / 3 * 4
    ensures IsAscii(r)
    decreases |bs|
  {
    if |bs| == 0 then ""
    else if |bs| == 1 then [CharOf(bs[0] / 4), CharOf(bs[0] % 4 * 16), PAD, PAD]
    else if |bs| == 2 then [CharOf(bs[0] / 4), CharOf(bs[0] % 4 * 16 + bs[1] / 16), CharOf(bs[1] % 16 * 4), PAD]
    else
      AsciiConcat(EncodeBlock(bs[0], bs[1], bs[2]), Encode(bs[3..]));
      EncodeBlock(bs[0], bs[1], bs[2]) + Encode(bs[3..])
  }

  /** The byte held by the six bits of `c0` and the high two bits of `c1`. */
  function First(c0: Sextet, c1: Sextet): Byte {
    c0 as int * 4 + c1 as int / 16
  }

  /** The byte held by the low four bits of `c1` and the high four bits of `c2`. */
  function Second(c1: Sextet, c2: Sextet): Byte {
    c1 as int % 16 * 16 + c2 as int / 4
  }

  /** The byte held by the low two bits of `c2` and the six bits of `c3`. */
  function Third(c2: Sextet, c3: Sextet): Byte {
    c2 as int % 4 * 64 + c3 as int
  }

  /** The bytes of a block of four alphabet characters. */
  function DecodeBlock(q: string): (r: Option<seq<Byte>>)
    requires |q| == 4
  {
    match (ValueOf(q[0]), ValueOf(q[1]), ValueOf(q[2]), ValueOf(q[3]))
    case (Some(c0), Some(c1), Some(c2), Some(c3)) => Some([First(c0, c1), Second(c1, c2), Third(c2, c3)])
    case _ => None
  }

  /** The bytes of the last block, which may end in one or two `=`. */
  function DecodeLast(q: string): (r: Option<seq<Byte>>)
    requires |q| == 4
  {
    if q[2] == PAD && q[3] == PAD then
      match (ValueOf(q[0]), ValueOf(q[1]))
      case (Some(c0), Some(c1)) => Some([First(c0, c1)])
      case _ => None
    else if q[3] == PAD then
      match (ValueOf(q[0]), ValueOf(q[1]), ValueOf(q[2]))
      case (Some(c0), Some(c1), Some(c2)) => Some([First(c0, c1), Second(c1, c2)])
      case _ => None
    else DecodeBlock(q)
  }

  /** Decoding text made of whole four-character blocks; anything else is refused. */
  function Decode(s: string): (r: Option<seq<Byte>>)
    decreases |s|
  {
    if |s| == 0 then Some([])
    else if |s| < 4 then None
    else if |s| == 4 then DecodeLast(s)
    else
      match (DecodeBlock(s[..4]), Decode(s[4..]))
      case (Some(head), Some(tail)) => Some(head + tail)
      case _ => None
  }

  lemma BlockRoundTrip(b0: Byte, b1: Byte, b2: Byte)
    ensures DecodeBlock(EncodeBlock(b0, b1, b2)) == Some([b0, b1, b2])
  {
    ValueOfCharOf(b0 / 4);
    ValueOfCharOf(b0 % 4 * 16 + b1 / 16);
    ValueOfCharOf(b1 % 16 * 4 + b2 / 64);
    ValueOfCharOf(b2 % 64);
    assert (b0 % 4 * 16 + b1 / 16) / 16 == b0 % 4;
    assert (b0 % 4 * 16 + b1 / 16) % 16 == b1 / 16;
    assert (b1 % 16 * 4 + b2 / 64) / 4 == b1 % 16;
    assert (b1 % 16 * 4 + b2 / 64) % 4 == b2 / 64;
  }

  lemma OneByteRoundTrip(bs: seq<Byte>)
    requires |bs| == 1
    ensures DecodeLast(Encode(bs)) == Some(bs)
  {
    var b0 := bs[0];
    var s := Encode(bs);
    assert s == [CharOf(b0 / 4), CharOf(b0 % 4 * 16), PAD, PAD];
    ValueOfCharOf(b0 / 4);
    ValueOfCharOf(b0 % 4 * 16);
    assert DecodeLast(s) == Some([First(b0 / 4, b0 % 4 * 16)]);
    assert First(b0 / 4, b0 % 4 * 16) == b0;
    assert [b0] == bs;
  }

  lemma TwoBytesRoundTrip(bs: seq<Byte>)
    requires |bs| == 2
    ensures DecodeLast(Encode(bs)) == Some(bs)
  {
    var b0, b1 := bs[0], bs[1];
    var c0, c1, c2 := b0 / 4, b0 % 4 * 16 + b1 / 16, b1 % 16 * 4;
    var s := Encode(bs);
    assert s == [CharOf(c0), CharOf(c1), CharOf(c2), PAD];
    ValueOfCharOf(c0);
    ValueOfCharOf(c1);
    ValueOfCharOf(c2);
    assert DecodeLast(s) == Some([First(c0, c1), Second(c1, c2)]);
    assert c1 / 16 == b0 % 4 && c1 % 16 == b1 / 16;
    assert First(c0, c1) == b0 && Second(c1, c2) == b1;
    assert [b0, b1] == bs;
  }

  lemma ThreeBytesRoundTrip(bs: seq<Byte>)
    requires |bs| == 3
    ensures DecodeLast(Encode(bs)) == Some(bs)
  {
    var s := Encode(bs);
    assert bs[3..] == [];
    assert s == EncodeBlock(bs[0], bs[1], bs[2]);
    assert s[2] != PAD && s[3] != PAD;
    assert DecodeLast(s) == DecodeBlock(s);
    BlockRoundTrip(bs[0], bs[1], bs[2]);
    assert [bs[0], bs[1], bs[2]] == bs;
  }

  lemma LastRoundTrip(bs: seq<Byte>)
    requires 1 <= |bs| <= 3
    ensures DecodeLast(Encode(bs)) == Some(bs)
  {
    if |bs| == 1 {
      OneByteRoundTrip(bs);
    } else if |bs| == 2 {
      TwoBytesRoundTrip(bs);
    } else {
      ThreeBytesRoundTrip(bs);
    }
  }

  /** Decoding undoes encoding, for every byte string. */
  lemma {:induction false} DecodeEncode(bs: seq<Byte>)
    ensures Decode(Encode(bs)) == Some(bs)
    decreases |bs|
  {
    if 1 <= |bs| <= 3 {
      LastRoundTrip(bs);
    } else if |bs| > 3 {
      var s := Encode(bs);
      var head := EncodeBlock(bs[0], bs[1], bs[2]);
      assert s == head + Encode(bs[3..]);
      assert s[..4] == head && s[4..] == Encode(bs[3..]);
      BlockRoundTrip(bs[0], bs[1], bs[2]);
      DecodeEncode(bs[3..]);
      assert [bs[0], bs[1], bs[2]] + bs[3..] == bs;
    }
  }
}
