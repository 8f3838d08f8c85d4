/** The few Python text built-ins the manager relies on: `str.isspace`,
    `str.strip`, `str.split` on one separator character, `str(int)` and
    `int(str)` in base 10. */
module PyText {
  import opened Results

  /** `c.isspace()`: the characters Python treats as whitespace. */
  predicate IsSpace(c: char) {
    var n := c as int;
    || 0x09 <= n <= 0x0D
    || 0x1C <= n <= 0x20
    || n == 0x85 || n == 0xA0 || n == 0x1680
    || 0x2000 <= n <= 0x200A
    || n == 0x2028 || n == 0x2029 || n == 0x202F || n == 0x205F || n == 0x3000
  }

  /** Every character of `s` is whitespace. */
  predicate AllSpace(s: string) {
    forall k | 0 <= k < |s| :: IsSpace(s[k])
  }

  /** `s` neither starts nor ends with whitespace. */
  predicate Trimmed(s: string) {
    s != [] ==> !IsSpace(s[0]) && !IsSpace(s[|s| - 1])
  }

  /** `s.lstrip()` */
  function StripLeft(s: string): (r: string)
    ensures |r| <= |s| && r == s[|s| - |r|..]
    ensures AllSpace(s[..|s| - |r|])
    ensures r != [] ==> !IsSpace(r[0])
    decreases |s|
  {
    if |s| > 0 && IsSpace(s[0]) then StripLeft(s[1..]) else s
  }

  /** `s.rstrip()` */
  function StripRight(s: string): (r: string)
    ensures |r| <= |s| && r == s[..|r|]
    ensures AllSpace(s[|r|..])
    ensures r != [] ==> !IsSpace(r[|r| - 1])
    decreases |s|
  {
    if |s| > 0 && IsSpace(s[|s| - 1]) then StripRight(s[..|s| - 1]) else s
  }

  /** `s.strip()`: the infix of `s` left once the whitespace at both ends is removed. */
  function Strip(s: string): (r: string)
    ensures Trimmed(r)
    ensures exists i | 0 <= i <= |s| - |r| :: r == s[i..i + |r|] && AllSpace(s[..i]) && AllSpace(s[i + |r|..])
  {
    var l := StripLeft(s);
    var r := StripRight(l);
    StripWitness(s, l, r);
    r
  }

  /** The facts `StripLeft` and `StripRight` establish, composed. */
  lemma StripWitness(s: string, l: string, r: string)
    requires |l| <= |s| && l == s[|s| - |l|..] && AllSpace(s[..|s| - |l|])
    requires l != [] ==> !IsSpace(l[0])
    requires |r| <= |l| && r == l[..|r|] && AllSpace(l[|r|..])
    requires r != [] ==> !IsSpace(r[|r| - 1])
    ensures Trimmed(r)
    ensures var i := |s| - |l|; 0 <= i <= |s| - |r| && r == s[i..i + |r|] && AllSpace(s[..i]) && AllSpace(s[i + |r|..])
  {
    var i := |s| - |l|;
    assert s[i + |r|..] == l[|r|..];
    assert r != [] ==> r[0] == l[0];
  }

  /** Whitespace padding on either side of a trimmed text is exactly what `strip` removes. */
  lemma StripPadded(pre: string, t: string, post: string)
    requires AllSpace(pre) && AllSpace(post) && Trimmed(t)
    ensures Strip(pre + t + post) == t
  {
    if t == [] {
      assert pre + t + post == (pre + post) + [];
      assert AllSpace(pre + post);
      StripLeftPadded(pre + post, []);
    } else {
      assert StripLeft(pre + t + post) == t + post by {
        assert pre + t + post == pre + (t + post);
        assert (t + post)[0] == t[0];
        StripLeftPadded(pre, t + post);
      }
      StripRightPadded(t, post);
    }
  }

  lemma {:induction false} StripLeftPadded(pre: string, rest: string)
    requires AllSpace(pre)
    requires rest != [] ==> !IsSpace(rest[0])
    ensures StripLeft(pre + rest) == rest
    decreases |pre|
  {
    if |pre| > 0 {
      assert (pre + rest)[1..] == pre[1..] + rest;
      StripLeftPadded(pre[1..], rest);
    } else {
      assert pre + rest == rest;
    }
  }

  lemma {:induction false} StripRightPadded(t: string, post: string)
    requires AllSpace(post)
    requires t != [] ==> !IsSpace(t[|t| - 1])
    ensures StripRight(t + post) == t
    decreases |post|
  {
    if |post| > 0 {
      var n := |t + post|;
      assert (t + post)[..n - 1] == t + post[..|post| - 1];
      StripRightPadded(t, post[..|post| - 1]);
    } else {
      assert t + post == t;
    }
  }

  /* ---------------------------------------------------------------------- */
  /* Splitting into lines                                                    */

  /** The first index of `c` in `s`, if any. */
  function IndexOfChar(s: string, c: char): (r: Option<nat>)
    ensures r.Some? ==> r.value < |s| && s[r.value] == c && c !in s[..r.value]
    ensures r.None? ==> c !in s
    decreases |s|
  {
    if |s| == 0 then None
    else if s[0] == c then Some(0)
    else match IndexOfChar(s[1..], c)
      case None => None
      case Some(k) => Some(k + 1)
  }

  /** `s.split(sep)` for a one-character separator: the pieces between the separators;
      the empty text gives one empty piece. */
  function Split(s: string, sep: char): (r: seq<string>)
    ensures |r| > 0
    ensures forall k | 0 <= k < |r| :: sep !in r[k]
    ensures Join(r, sep) == s
    decreases |s|
  {
    match IndexOfChar(s, sep)
    case None => [s]
    case Some(k) =>
      assert s == s[..k] + [sep] + s[k + 1..];
      [s[..k]] + Split(s[k + 1..], sep)
  }

  /** A text without the separator splits into itself alone. */
  lemma SplitWhole(s: string, sep: char)
    requires sep !in s
    ensures Split(s, sep) == [s]
  {
  }

  /** `sep.join(pieces)` */
  function Join(pieces: seq<string>, sep: char): string
    decreases |pieces|
  {
    if |pieces| == 0 then ""
    else if |pieces| == 1 then pieces[0]
    else pieces[0] + [sep] + Join(pieces[1..], sep)
  }

  /** Splitting what was joined gives back the pieces, when no piece contains the separator. */
  lemma {:induction false} SplitJoin(pieces: seq<string>, sep: char)
    requires |pieces| > 0
    requires forall k | 0 <= k < |pieces| :: sep !in pieces[k]
    ensures Split(Join(pieces, sep), sep) == pieces
    decreases |pieces|
  {
    var p := pieces[0];
    if |pieces| == 1 {
      assert IndexOfChar(p, sep) == None;
    } else {
      var rest := Join(pieces[1..], sep);
      var s := p + [sep] + rest;
      IndexAfterPiece(p, sep, rest);
      assert s[..|p|] == p;
      assert s[|p| + 1..] == rest;
      SplitJoin(pieces[1..], sep);
      assert pieces == [p] + pieces[1..];
    }
  }

  lemma {:induction false} IndexAfterPiece(p: string, sep: char, rest: string)
    requires sep !in p
    ensures IndexOfChar(p + [sep] + rest, sep) == Some(|p|)
    decreases |p|
  {
    if |p| > 0 {
      assert (p + [sep] + rest)[1..] == p[1..] + [sep] + rest;
      assert p[0] in p;
      assert forall x | x in p[1..] :: x in p;
      IndexAfterPiece(p[1..], sep, rest);
    }
  }

  /* ---------------------------------------------------------------------- */
  /* Searching for a substring                                               */

  /** `pat` occurs in `s` starting at position `j`. */
  predicate OccursAt(s: string, pat: string, j: int) {
    0 <= j && j + |pat| <= |s| && s[j..j + |pat|] == pat
  }

  /** The first position at or after `from` where `pat` occurs in `s` (`str.find`). */
  function FindFrom(s: string, pat: string, from: nat): (r: Option<nat>)
    requires from <= |s|
    ensures r.Some? ==> from <= r.value && OccursAt(s, pat, r.value)
    ensures r.Some? ==> forall j | from <= j < r.value :: !OccursAt(s, pat, j)
    ensures r.None? ==> forall j | from <= j <= |s| :: !OccursAt(s, pat, j)
    decreases |s| - from
  {
    if OccursAt(s, pat, from) then Some(from)
    else if from == |s| then None
    else FindFrom(s, pat, from + 1)
  }

  /** `s.find(pat)`, as an option; `pat in s` is `Find(s, pat).Some?`. */
  function Find(s: string, pat: string): (r: Option<nat>)
    ensures r.Some? ==> OccursAt(s, pat, r.value) && forall j | 0 <= j < r.value :: !OccursAt(s, pat, j)
    ensures r.None? ==> forall j | 0 <= j <= |s| :: !OccursAt(s, pat, j)
  {
    FindFrom(s, pat, 0)
  }

  /** `s.split(sep)[1]` when the first `sep` in `s` starts at `i`: the text after
      it, up to the next `sep` or the end. */
  function PieceAfter(s: string, sep: string, i: nat): (r: string)
    requires |sep| > 0 && OccursAt(s, sep, i)
    ensures i + |sep| + |r| <= |s| && r == s[i + |sep|..i + |sep| + |r|]
    ensures i + |sep| + |r| == |s| || OccursAt(s, sep, i + |sep| + |r|)
    ensures Find(r, sep).None?
    ensures forall j | i + |sep| <= j < i + |sep| + |r| :: !OccursAt(s, sep, j)
  {
    var after := s[i + |sep|..];
    forall j | i + |sep| <= j <= |s|
      ensures OccursAt(s, sep, j) <==> OccursAt(after, sep, j - i - |sep|)
    {
      if j + |sep| <= |s| {
        assert after[j - i - |sep|..j - i] == s[j..j + |sep|];
      }
    }
    match Find(after, sep)
    case None => after
    case Some(j) =>
      assert after[j..j + |sep|] == s[i + |sep| + j..i + |sep| + j + |sep|];
      PrefixKeepsNoMatch(after, sep, j);
      after[..j]
  }

  /** Cutting `s` before its first `sep` leaves a text without `sep`. */
  lemma PrefixKeepsNoMatch(s: string, sep: string, j: nat)
    requires j <= |s|
    requires forall k | 0 <= k < j :: !OccursAt(s, sep, k)
    requires |sep| > 0
    ensures Find(s[..j], sep).None?
  {
    var t := s[..j];
    forall k | 0 <= k <= |t|
      ensures !OccursAt(t, sep, k)
    {
      if OccursAt(t, sep, k) {
        assert t[k..k + |sep|] == s[k..k + |sep|];
        assert OccursAt(s, sep, k);
      }
    }
  }

  /* ---------------------------------------------------------------------- */
  /* Decimal integers                                                        */

  predicate IsDigit(c: char) {
    '0' <= c <= '9'
  }

  function DigitValue(c: char): nat
    requires IsDigit(c)
  {
    c as int - '0' as int
  }

  function DigitChar(d: nat): (c: char)
    requires d < 10
    ensures IsDigit(c) && DigitValue(c) == d
  {
    ('0' as int + d) as char
  }

  /** The value of a string of ASCII decimal digits. */
  function Decimal(ds: string): nat
    requires forall k | 0 <= k < |ds| :: IsDigit(ds[k])
    decreases |ds|
  {
    if |ds| == 0 then 0 else Decimal(ds[..|ds| - 1]) * 10 + DigitValue(ds[|ds| - 1])
  }

  /** The digit part Python's `int` accepts in base 10: ASCII digits, with single
      underscores allowed between two digits. */
  predicate DigitGroups(s: string) {
    && |s| > 0
    && IsDigit(s[0])
    && IsDigit(s[|s| - 1])
    && (forall k | 0 <= k < |s| :: IsDigit(s[k]) || s[k] == '_')
    && (forall k | 0 <= k < |s| - 1 :: s[k] == '_' ==> s[k + 1] != '_')
  }

  /** `s` with its underscores removed. */
  function DropUnderscores(s: string): (r: string)
    requires forall k | 0 <= k < |s| :: IsDigit(s[k]) || s[k] == '_'
    ensures forall k | 0 <= k < |r| :: IsDigit(r[k])
    ensures (forall k | 0 <= k < |s| :: IsDigit(s[k])) ==> r == s
    decreases |s|
  {
    if |s| == 0 then []
    else (if s[0] == '_' then [] else [s[0]]) + DropUnderscores(s[1..])
  }

  /** `int(s)` in base 10: surrounding whitespace, an optional sign, then digit
      groups; anything else raises ValueError, here `None`. Unicode digits,
      which Python also accepts, are read as failures. */
  function ParseInt(s: string): Option<int>
  {
    ParseSigned(Strip(s))
  }

  /** `int` on a text whose surrounding whitespace is already gone. */
  function ParseSigned(t: string): Option<int>
  {
    if |t| > 0 && (t[0] == '-' || t[0] == '+') then
      match ParseDigitGroups(t[1..])
      case None => None
      case Some(v) => Some(if t[0] == '-' then 0 - v else v as int)
    else ParseDigitGroups(t)
  }

  /** The value of a run of digit groups, `None` for anything else. */
  function ParseDigitGroups(t: string): Option<nat>
  {
    if DigitGroups(t) then Some(Decimal(DropUnderscores(t))) else None
  }

  /** A non-empty run of plain digits reads as its decimal value. */
  lemma ParsePlainDigits(ds: string)
    requires |ds| > 0 && forall k | 0 <= k < |ds| :: IsDigit(ds[k])
    ensures ParseDigitGroups(ds) == Some(Decimal(ds))
  {
    assert DigitGroups(ds);
  }

  /** `str(n)` for `n >= 0`: decimal digits without leading zeros. */
  function ShowNat(n: nat): (r: string)
    ensures |r| > 0
    ensures forall k | 0 <= k < |r| :: IsDigit(r[k])
    ensures Decimal(r) == n
    ensures r[0] == '0' ==> n == 0 && |r| == 1
    decreases n
  {
    if n < 10 then [DigitChar(n)]
    else
      var r := ShowNat(n / 10) + [DigitChar(n % 10)];
      assert r[..|r| - 1] == ShowNat(n / 10);
      r
  }

  /** `str(n)`: a minus sign for negative numbers, then the digits of the magnitude. */
  function Show(n: int): (r: string)
    ensures |r| > 0
    ensures r[0] == '-' <==> n < 0
    ensures forall k | (if n < 0 then 1 else 0) <= k < |r| :: IsDigit(r[k])
  {
    if n < 0 then "-" + ShowNat(-n) else ShowNat(n)
  }

  /** A text with no whitespace at either end is its own `strip`. */
  lemma StripTrimmed(s: string)
    requires Trimmed(s)
    ensures Strip(s) == s
  {
    StripPadded([], s, []);
    assert [] + s + [] == s;
  }

  /** `int(str(n)) == n`: printing a number and reading it back loses nothing. */
  lemma ParseShow(n: int)
    ensures ParseInt(Show(n)) == Some(n)
  {
    var s := Show(n);
    var m: nat := if n < 0 then -n else n;
    var ds := ShowNat(m);
    assert Trimmed(s) by {
      assert s[|s| - 1] == ds[|ds| - 1];
    }
    StripTrimmed(s);
    ParsePlainDigits(ds);
    if n < 0 {
      assert s[1..] == ds;
    } else {
      assert s == ds;
    }
  }
}
