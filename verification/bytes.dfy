/** Bytes, ASCII text and `str.encode()`, which is UTF-8. */
module Bytes {
  import opened Results

  type Byte = b: int | 0 <= b < 256

  /** Every character is in the 7-bit range. */
  predicate IsAscii(s: string) {
    forall i | 0 <= i < |s| :: s[i] as int < 128
  }

  lemma AsciiConcat(a: string, b: string)
    requires IsAscii(a) && IsAscii(b)
    ensures IsAscii(a + b)
  {
    forall i | 0 <= i < |a + b|
      ensures (a + b)[i] as int < 128
    {
      if i >= |a| {
        assert (a + b)[i] == b[i - |a|];
      }
    }
  }

  /** The UTF-8 encoding of one code point: one byte below U+0080, otherwise a
      lead byte and continuation bytes that all have the high bit set. */
  function Utf8Char(c: char): (r: seq<Byte>)
    ensures 1 <= |r| <= 4
    ensures c as int < 0x80 <==> r == [c as int]
    ensures c as int >= 0x80 ==> forall i | 0 <= i < |r| :: r[i] >= 0x80
  {
    var n := c as int;
    if n < 0x80 then [n]
    else if n < 0x800 then [0xC0 + n / 0x40, 0x80 + n % 0x40]
    else if n < 0x10000 then [0xE0 + n / 0x1000, 0x80 + n / 0x40 % 0x40, 0x80 + n % 0x40]
    else [0xF0 + n / 0x40000, 0x80 + n / 0x1000 % 0x40, 0x80 + n / 0x40 % 0x40, 0x80 + n % 0x40]
  }

  /** `s.encode()` */
  function Utf8(s: string): (r: seq<Byte>)
    ensures |r| >= |s|
  {
    if s == [] then [] else Utf8Char(s[0]) + Utf8(s[1..])
  }

  /** Reading bytes as ASCII text: the characters with those codes, or nothing
      when some byte has the high bit set. */
  function AsciiText(bs: seq<Byte>): (r: Option<string>)
    ensures r.Some? <==> forall i | 0 <= i < |bs| :: bs[i] < 0x80
    ensures r.Some? ==> |r.value| == |bs| && IsAscii(r.value)
    ensures r.Some? ==> forall i | 0 <= i < |bs| :: r.value[i] as int == bs[i]
  {
    if forall i | 0 <= i < |bs| :: bs[i] < 0x80
    then Some(seq(|bs|, i requires 0 <= i < |bs| => bs[i] as char))
    else None
  }

  /** A string is recovered from its UTF-8 bytes read as ASCII exactly when it
      is ASCII. */
  lemma {:induction false} AsciiUtf8(s: string)
    ensures AsciiText(Utf8(s)) == (if IsAscii(s) then Some(s) else None)
  {
    if IsAscii(s) {
      AsciiUtf8Bytes(s);
      assert AsciiText(Utf8(s)).value == s;
    } else {
      var i :| 0 <= i < |s| && s[i] as int >= 128;
      NonAsciiByte(s, i);
    }
  }

  lemma {:induction false} AsciiUtf8Bytes(s: string)
    requires IsAscii(s)
    ensures |Utf8(s)| == |s|
    ensures forall i | 0 <= i < |s| :: Utf8(s)[i] == s[i] as int
  {
    if s != [] {
      assert IsAscii(s[1..]) by {
        forall i | 0 <= i < |s| - 1 ensures s[1..][i] as int < 128 {
          assert s[1..][i] == s[i + 1];
        }
      }
      AsciiUtf8Bytes(s[1..]);
      assert Utf8(s) == [s[0] as int] + Utf8(s[1..]);
    }
  }

  lemma {:induction false} NonAsciiByte(s: string, i: nat)
    requires i < |s| && s[i] as int >= 128
    ensures exists j | 0 <= j < |Utf8(s)| :: Utf8(s)[j] >= 0x80
    decreases i
  {
    var head := Utf8Char(s[0]);
    assert Utf8(s) == head + Utf8(s[1..]);
    if i == 0 {
      assert Utf8(s)[0] == head[0];
    } else {
      assert s[1..][i - 1] == s[i];
      NonAsciiByte(s[1..], i - 1);
      var j :| 0 <= j < |Utf8(s[1..])| && Utf8(s[1..])[j] >= 0x80;
      assert Utf8(s)[|head| + j] == Utf8(s[1..])[j];
    }
  }
}
