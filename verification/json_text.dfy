/** The text `json.dumps` writes for a flat object whose keys and values are all
    strings, with its default settings: `ensure_ascii` on, `", "` between
    members and `": "` between a key and its value. A reader for that text is the
    partner that shows nothing is lost. */
module JsonText {
  import opened Results
  import opened Bytes

  /* ---------------------------------------------------------------------- */
  /* Four lower-case hex digits                                              */

  function HexDigit(d: nat): (c: char)
    requires d < 16
    ensures c as int < 128
  {
    if d < 10 then ('0' as int + d) as char else ('a' as int + d - 10) as char
  }

  /** The value of a hex digit of either case, as the JSON reader accepts it. */
  function HexValue(c: char): (r: Option<nat>)
    ensures r.Some? ==> r.value < 16
  {
    if '0' <= c <= '9' then Some(c as int - '0' as int)
    else if 'a' <= c <= 'f' then Some(c as int - 'a' as int + 10)
    else if 'A' <= c <= 'F' then Some(c as int - 'A' as int + 10)
    else None
  }

  lemma HexDigitValue(d: nat)
    requires d < 16
    ensures HexValue(HexDigit(d)) == Some(d)
  {
  }

  /** `'{0:04x}'.format(n)`: the four base-16 digits of `n`, most significant first. */
  function Hex4(n: nat): (r: string)
    requires n < 0x10000
    ensures |r| == 4 && IsAscii(r)
  {
    var low12 := n % 0x1000;
    var low8 := low12 % 0x100;
    [HexDigit(n / 0x1000), HexDigit(low12 / 0x100), HexDigit(low8 / 16), HexDigit(low8 % 16)]
  }

  function ParseHex4(t: string): (r: Option<nat>)
    requires |t| == 4
    ensures r.Some? ==> r.value < 0x10000
  {
    match (HexValue(t[0]), HexValue(t[1]), HexValue(t[2]), HexValue(t[3]))
    case (Some(a), Some(b), Some(c), Some(d)) => Some(a * 0x1000 + b * 0x100 + c * 16 + d)
    case _ => None
  }

  lemma Hex4RoundTrip(n: nat)
    requires n < 0x10000
    ensures ParseHex4(Hex4(n)) == Some(n)
  {
    var low12 := n % 0x1000;
    var low8 := low12 % 0x100;
    var a, b, c, d := n / 0x1000, low12 / 0x100, low8 / 16, low8 % 16;
    assert n == a * 0x1000 + low12;
    assert low12 == b * 0x100 + low8;
    assert low8 == c * 16 + d;
    var h := Hex4(n);
    assert h == [HexDigit(a), HexDigit(b), HexDigit(c), HexDigit(d)];
    HexDigitValue(a);
    HexDigitValue(b);
    HexDigitValue(c);
    HexDigitValue(d);
  }

  /* ---------------------------------------------------------------------- */
  /* Writing a string                                                        */

  const BACKSPACE: char := 8 as char
  const FORM_FEED: char := 12 as char

  /** A printable ASCII character that stands for itself in the output. */
  predicate Verbatim(c: char) {
    ' ' <= c <= '~' && c != '"' && c != '\\'
  }

  /** `\uXXXX` for one UTF-16 code unit. */
  function UnitEscape(n: nat): (r: string)
    requires n < 0x10000
    ensures |r| == 6 && IsAscii(r)
  {
    "\\u" + Hex4(n)
  }

  /** How one character is written: itself when printable ASCII, a two-letter
      escape for the quote, the backslash and five control characters, and
      otherwise its UTF-16 code units as `\uXXXX` escapes (a surrogate pair
      above U+FFFF). */
  function Escape(c: char): (r: string)
    ensures IsAscii(r) && |r| > 0
    ensures Verbatim(c) <==> r == [c]
    ensures !Verbatim(c) ==> r[0] == '\\'
  {
    if c == '"' then "\\\""
    else if c == '\\' then "\\\\"
    else if c == '\n' then "\\n"
    else if c == '\r' then "\\r"
    else if c == '\t' then "\\t"
    else if c == BACKSPACE then "\\b"
    else if c == FORM_FEED then "\\f"
    else if ' ' <= c <= '~' then [c]
    else if c as int < 0x10000 then UnitEscape(c as int)
    else
      var v := c as int - 0x10000;
      AsciiConcat(UnitEscape(0xD800 + v / 0x400), UnitEscape(0xDC00 + v % 0x400));
      UnitEscape(0xD800 + v / 0x400) + UnitEscape(0xDC00 + v % 0x400)
  }

  /** The characters of a string, each written with `Escape`. */
  function EscapeAll(s: string): (r: string)
    ensures IsAscii(r)
  {
    if s == [] then [] else
      AsciiConcat(Escape(s[0]), EscapeAll(s[1..]));
      Escape(s[0]) + EscapeAll(s[1..])
  }

  /** A JSON string literal. */
  function Quote(s: string): (r: string)
    ensures IsAscii(r)
  {
    AsciiConcat("\"", EscapeAll(s));
    AsciiConcat("\"" + EscapeAll(s), "\"");
    "\"" + EscapeAll(s) + "\""
  }

  /* ---------------------------------------------------------------------- */
  /* Reading a string                                                        */

  /** The character a surrogate pair stands for. */
  function Combine(hi: nat, lo: nat): (c: char)
    requires 0xD800 <= hi < 0xDC00 && 0xDC00 <= lo < 0xE000
    ensures c as int >= 0x10000
  {
    (0x10000 + (hi - 0xD800) * 0x400 + (lo - 0xDC00)) as char
  }

  /** The character of a `\u` escape whose four digits start `t`, and what follows.
      A surrogate the reader cannot pair is refused. */
  function ReadUnicode(t: string): (r: Option<(char, string)>)
    ensures r.Some? ==> |r.value.1| < |t|
  {
    if |t| < 4 then None else
    match ParseHex4(t[..4])
    case None => None
    case Some(n) =>
      if n < 0xD800 || 0xE000 <= n then Some((n as char, t[4..]))
      else if 0xDC00 <= n || |t| < 10 || t[4] != '\\' || t[5] != 'u' then None
      else
        match ParseHex4(t[6..10])
        case Some(m) => if 0xDC00 <= m < 0xE000 then Some((Combine(n, m), t[10..])) else None
        case None => None
  }

  /** The character at the head of the text inside a string literal, and what follows. */
  function ReadChar(t: string): (r: Option<(char, string)>)
    ensures r.Some? ==> |r.value.1| < |t|
  {
    if |t| == 0 then None
    else if t[0] != '\\' then (if t[0] as int < 0x20 then None else Some((t[0], t[1..])))
    else if |t| < 2 then None
    else if t[1] == '"' then Some(('"', t[2..]))
    else if t[1] == '\\' then Some(('\\', t[2..]))
    else if t[1] == '/' then Some(('/', t[2..]))
    else if t[1] == 'b' then Some((BACKSPACE, t[2..]))
    else if t[1] == 'f' then Some((FORM_FEED, t[2..]))
    else if t[1] == 'n' then Some(('\n', t[2..]))
    else if t[1] == 'r' then Some(('\r', t[2..]))
    else if t[1] == 't' then Some(('\t', t[2..]))
    else if t[1] == 'u' then ReadUnicode(t[2..])
    else None
  }

  /** The contents of a string literal whose opening quote is already consumed,
      and the text after its closing quote. */
  function ReadString(t: string): (r: Option<(string, string)>)
    ensures r.Some? ==> |r.value.1| < |t|
    decreases |t|
  {
    if |t| == 0 then None
    else if t[0] == '"' then Some(("", t[1..]))
    else
      match ReadChar(t)
      case None => None
      case Some((c, rest)) =>
        match ReadString(rest)
        case None => None
        case Some((s, after)) => Some(([c] + s, after))
  }

  lemma ReadUnitEscape(n: nat, more: string)
    requires n < 0xD800 || 0xE000 <= n < 0x10000
    ensures ReadChar(UnitEscape(n) + more) == Some((n as char, more))
  {
    var t := UnitEscape(n) + more;
    assert t[2..][..4] == Hex4(n);
    assert t[2..][4..] == more;
    Hex4RoundTrip(n);
  }

  /** Reading a surrogate pair of `\u` escapes gives the character they stand for. */
  lemma ReadSurrogatePair(hi: nat, lo: nat, more: string)
    requires 0xD800 <= hi < 0xDC00 && 0xDC00 <= lo < 0xE000
    ensures ReadChar(UnitEscape(hi) + UnitEscape(lo) + more) == Some((Combine(hi, lo), more))
  {
    var t := UnitEscape(hi) + UnitEscape(lo) + more;
    var u := t[2..];
    assert u == Hex4(hi) + UnitEscape(lo) + more;
    assert u[..4] == Hex4(hi);
    assert u[4] == '\\' && u[5] == 'u';
    assert u[6..10] == Hex4(lo);
    assert u[10..] == more;
    Hex4RoundTrip(hi);
    Hex4RoundTrip(lo);
    assert ReadChar(t) == ReadUnicode(u);
  }

  lemma ReadPairEscape(c: char, more: string)
    requires c as int >= 0x10000
    ensures ReadChar(Escape(c) + more) == Some((c, more))
  {
    var v := c as int - 0x10000;
    var hi, lo := 0xD800 + v / 0x400, 0xDC00 + v % 0x400;
    assert Escape(c) == UnitEscape(hi) + UnitEscape(lo);
    ReadSurrogatePair(hi, lo, more);
    assert Combine(hi, lo) as int == c as int;
  }

  /** Reading back one written character, whatever follows it. */
  lemma ReadEscape(c: char, more: string)
    ensures ReadChar(Escape(c) + more) == Some((c, more))
  {
    if c as int >= 0x10000 {
      ReadPairEscape(c, more);
    } else if c == '"' || c == '\\' || c == '\n' || c == '\r' || c == '\t' || c == BACKSPACE || c == FORM_FEED {
      assert (Escape(c) + more)[2..] == more;
    } else if ' ' <= c <= '~' {
      assert (Escape(c) + more)[1..] == more;
    } else {
      ReadUnitEscape(c as int, more);
    }
  }

  /** Reading back a written string literal, whatever follows it. */
  lemma {:induction false} ReadQuoted(s: string, rest: string)
    ensures ReadString(EscapeAll(s) + "\"" + rest) == Some((s, rest))
    decreases |s|
  {
    var t := EscapeAll(s) + "\"" + rest;
    if s == [] {
      assert t == "\"" + rest;
      assert t[1..] == rest;
    } else {
      var tail := EscapeAll(s[1..]) + "\"" + rest;
      assert EscapeAll(s) == Escape(s[0]) + EscapeAll(s[1..]);
      assert t == Escape(s[0]) + tail;
      ReadEscape(s[0], tail);
      ReadQuoted(s[1..], rest);
      ReadStringStep(t, s[0], tail);
      assert [s[0]] + s[1..] == s;
    }
  }

  /** One step of `ReadString` on text that does not start with the closing quote. */
  lemma ReadStringStep(t: string, c: char, tail: string)
    requires ReadChar(t) == Some((c, tail))
    requires t[0] != '"'
    ensures ReadString(t) ==
      (match ReadString(tail) case None => None case Some((s, after)) => Some(([c] + s, after)))
  {
  }

  /* ---------------------------------------------------------------------- */
  /* Objects                                                                 */

  /** The members of a flat object in insertion order. */
  type Pairs = seq<(string, string)>

  function Member(p: (string, string)): (r: string)
    ensures IsAscii(r) && |r| > 0 && r[0] == '"'
  {
    AsciiConcat(Quote(p.0), ": ");
    AsciiConcat(Quote(p.0) + ": ", Quote(p.1));
    Quote(p.0) + ": " + Quote(p.1)
  }

  function MembersText(ps: Pairs): (r: string)
    requires |ps| > 0
    ensures IsAscii(r) && |r| > 0 && r[0] == '"'
    decreases |ps|
  {
    if |ps| == 1 then Member(ps[0]) else
      AsciiConcat(Member(ps[0]), ", ");
      AsciiConcat(Member(ps[0]) + ", ", MembersText(ps[1..]));
      Member(ps[0]) + ", " + MembersText(ps[1..])
  }

  /** `json.dumps(obj)` of an object whose members are `ps`. The text is pure
      ASCII, which is what makes its UTF-8 encoding one byte per character. */
  function DumpObject(ps: Pairs): (r: string)
    ensures IsAscii(r)
    ensures |r| >= 2 && r[0] == '{' && r[|r| - 1] == '}'
  {
    if ps == [] then "{}" else
      AsciiConcat("{", MembersText(ps));
      AsciiConcat("{" + MembersText(ps), "}");
      "{" + MembersText(ps) + "}"
  }

  function ReadMember(t: string): (r: Option<((string, string), string)>)
    ensures r.Some? ==> |r.value.1| < |t|
  {
    if |t| == 0 || t[0] != '"' then None else
    match ReadString(t[1..])
    case None => None
    case Some((k, r1)) =>
      if |r1| < 3 || r1[..3] != ": \"" then None else
      match ReadString(r1[3..])
      case None => None
      case Some((v, r2)) => Some(((k, v), r2))
  }

  /** The members of an object whose opening brace is already consumed. */
  function ReadMembers(t: string): (r: Option<Pairs>)
    decreases |t|
  {
    match ReadMember(t)
    case None => None
    case Some((p, rest)) =>
      if rest == "}" then Some([p])
      else if |rest| < 2 || rest[..2] != ", " then None
      else
        match ReadMembers(rest[2..])
        case None => None
        case Some(ps) => Some([p] + ps)
  }

  /** A reader for the object text `DumpObject` writes. */
  function ReadObject(t: string): (r: Option<Pairs>) {
    if |t| < 2 || t[0] != '{' then None
    else if t[1..] == "}" then Some([])
    else ReadMembers(t[1..])
  }

  lemma MemberText(p: (string, string), rest: string)
    ensures Member(p) + rest == "\"" + (EscapeAll(p.0) + "\"" + (": \"" + (EscapeAll(p.1) + "\"" + rest)))
  {
    var k, v := EscapeAll(p.0), EscapeAll(p.1);
    calc {
      Member(p) + rest;
      ("\"" + k + "\"") + ": " + ("\"" + v + "\"") + rest;
      "\"" + (k + "\"" + (": \"" + (v + "\"" + rest)));
    }
  }

  lemma ReadMemberBack(p: (string, string), rest: string)
    ensures ReadMember(Member(p) + rest) == Some((p, rest))
  {
    var t := Member(p) + rest;
    var r1 := ": \"" + (EscapeAll(p.1) + "\"" + rest);
    MemberText(p, rest);
    assert t[1..] == EscapeAll(p.0) + "\"" + r1;
    ReadQuoted(p.0, r1);
    assert ReadString(t[1..]) == Some((p.0, r1));
    assert r1[..3] == ": \"";
    assert r1[3..] == EscapeAll(p.1) + "\"" + rest;
    ReadQuoted(p.1, rest);
    assert ReadString(r1[3..]) == Some((p.1, rest));
  }

  lemma ReadLastMember(p: (string, string))
    ensures ReadMembers(Member(p) + "}") == Some([p])
  {
    ReadMemberBack(p, "}");
  }

  lemma ReadNextMember(p: (string, string), tail: string, ps: Pairs)
    requires ReadMembers(tail) == Some(ps)
    ensures ReadMembers(Member(p) + (", " + tail)) == Some([p] + ps)
  {
    var rest := ", " + tail;
    ReadMemberBack(p, rest);
    assert rest != "}" by { assert rest[0] == ','; }
    assert rest[..2] == ", " && rest[2..] == tail;
  }

  lemma {:induction false} ReadMembersBack(ps: Pairs)
    requires |ps| > 0
    ensures ReadMembers(MembersText(ps) + "}") == Some(ps)
    decreases |ps|
  {
    if |ps| == 1 {
      ReadLastMember(ps[0]);
      assert [ps[0]] == ps;
    } else {
      var tail := MembersText(ps[1..]) + "}";
      assert MembersText(ps) + "}" == Member(ps[0]) + (", " + tail);
      ReadMembersBack(ps[1..]);
      ReadNextMember(ps[0], tail, ps[1..]);
      assert [ps[0]] + ps[1..] == ps;
    }
  }

  /** What `DumpObject` writes reads back as the same members in the same order. */
  lemma ReadDumpedObject(ps: Pairs)
    ensures ReadObject(DumpObject(ps)) == Some(ps)
  {
    if ps != [] {
      var t := DumpObject(ps);
      var body := MembersText(ps) + "}";
      assert t == "{" + body;
      assert t[0] == '{' && t[1..] == body;
      assert |body| >= 2;
      assert body != "}";
      assert ReadObject(t) == ReadMembers(body);
      ReadMembersBack(ps);
    }
  }
}
