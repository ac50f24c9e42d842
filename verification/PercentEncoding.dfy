/** `encodeURIComponent` and `decodeURIComponent` on UTF-16 text, by way of UTF-8. Section 2.1 of RFC 3986
    gives the form of an escape. */
module PercentEncoding {
  import opened Option

  /** JavaScript strings are sequences of 16-bit units, which need not pair up into characters. */
  type CodeUnit = n: int | 0 <= n < 0x10000
  type Text = seq<CodeUnit>
  type Octet = n: int | 0 <= n < 0x100

  /** The text of an ASCII literal. */
  function Ascii(s: string): (t: Text)
    requires forall i :: 0 <= i < |s| ==> s[i] < 128 as char
    ensures |t| == |s| && forall i :: 0 <= i < |s| ==> t[i] == s[i] as int
  {
    seq(|s|, i requires 0 <= i < |s| => s[i] as int)
  }

  const PERCENT: CodeUnit := '%' as int

  /** Letters, digits and - _ . ! ~ * ' ( ) stand for themselves. */
  predicate Unreserved(c: CodeUnit) {
    || 'A' as int <= c <= 'Z' as int
    || 'a' as int <= c <= 'z' as int
    || '0' as int <= c <= '9' as int
    || c == '-' as int || c == '_' as int || c == '.' as int || c == '!' as int || c == '~' as int
    || c == '*' as int || c == '\'' as int || c == '(' as int || c == ')' as int
  }

  // Characters as one or two units

  predicate HighSurrogate(c: int) {
    0xD800 <= c < 0xDC00
  }

  predicate LowSurrogate(c: int) {
    0xDC00 <= c < 0xE000
  }

  predicate IsScalar(cp: int) {
    0 <= cp < 0x110000 && !HighSurrogate(cp) && !LowSurrogate(cp)
  }

  function Units(cp: int): (t: Text)
    requires IsScalar(cp)
    ensures 1 <= |t| <= 2
  {
    if cp < 0x10000 then [cp]
    else [0xD800 + (cp - 0x10000) / 0x400, 0xDC00 + (cp - 0x10000) % 0x400]
  }

  /** The character the text starts with, None when that is half a surrogate pair. */
  function FirstScalar(s: Text): (r: Option<int>)
    requires s != []
    ensures r.Some? ==> IsScalar(r.value) && Units(r.value) <= s
  {
    var c := s[0];
    if HighSurrogate(c) then
      if |s| > 1 && LowSurrogate(s[1]) then
        PairIsUnits(c, s[1]);
        Some(Pair(c, s[1]))
      else None
    else if LowSurrogate(c) then None
    else Some(c)
  }

  function Pair(high: int, low: int): int {
    0x10000 + (high - 0xD800) * 0x400 + (low - 0xDC00)
  }

  lemma PairIsUnits(high: int, low: int)
    requires HighSurrogate(high) && LowSurrogate(low)
    ensures IsScalar(Pair(high, low)) && Units(Pair(high, low)) == [high, low]
  {
  }

  /** No surrogate stands alone. */
  predicate WellFormed(s: Text) {
    s == [] || (FirstScalar(s).Some? && WellFormed(s[|Units(FirstScalar(s).value)|..]))
  }

  // Characters as one to four octets

  function Utf8(cp: int): (bs: seq<Octet>)
    requires IsScalar(cp)
    ensures 1 <= |bs| <= 4
  {
    if cp < 0x80 then [cp]
    else if cp < 0x800 then [0xC0 + cp / 0x40, 0x80 + cp % 0x40]
    else if cp < 0x10000 then [0xE0 + cp / 0x1000, 0x80 + cp / 0x40 % 0x40, 0x80 + cp % 0x40]
    else [0xF0 + cp / 0x40000, 0x80 + cp / 0x1000 % 0x40, 0x80 + cp / 0x40 % 0x40, 0x80 + cp % 0x40]
  }

  /** How many octets a sequence has that starts with `b`; None for octets that start none. */
  function SequenceLength(b: Octet): (r: Option<nat>)
    ensures r.Some? ==> 1 <= r.value <= 4
  {
    if b < 0x80 then Some(1)
    else if b < 0xC0 then None
    else if b < 0xE0 then Some(2)
    else if b < 0xF0 then Some(3)
    else if b < 0xF8 then Some(4)
    else None
  }

  predicate Continuation(b: Octet) {
    0x80 <= b < 0xC0
  }

  /** Appends the six bits a continuation octet carries. */
  function Six(high: int, b: int): int {
    high * 0x40 + (b - 0x80)
  }

  /** The character a complete octet sequence spells: overlong forms and surrogates spell none. */
  function FromUtf8(bs: seq<Octet>): (r: Option<int>)
    requires 1 <= |bs| <= 4 && SequenceLength(bs[0]) == Some(|bs|)
    ensures r.Some? ==> IsScalar(r.value)
  {
    if !(forall i :: 1 <= i < |bs| ==> Continuation(bs[i])) then None
    else
      var cp: int :=
        if |bs| == 1 then bs[0]
        else if |bs| == 2 then Six(bs[0] - 0xC0, bs[1])
        else if |bs| == 3 then Six(Six(bs[0] - 0xE0, bs[1]), bs[2])
        else Six(Six(Six(bs[0] - 0xF0, bs[1]), bs[2]), bs[3]);
      var least: int := if |bs| == 1 then 0 else if |bs| == 2 then 0x80 else if |bs| == 3 then 0x800 else 0x10000;
      if least <= cp && IsScalar(cp) then Some(cp) else None
  }

  lemma Utf8RoundTrip(cp: int)
    requires IsScalar(cp)
    ensures SequenceLength(Utf8(cp)[0]) == Some(|Utf8(cp)|)
    ensures FromUtf8(Utf8(cp)) == Some(cp)
  {
    SixBits(cp);
    SixBits(cp / 0x40);
    SixBits(cp / 0x1000);
    hide Six;
    if cp < 0x80 {
      assert Utf8(cp) == [cp];
    } else if cp < 0x800 {
      assert Utf8(cp) == [0xC0 + cp / 0x40, 0x80 + cp % 0x40];
    } else if cp < 0x10000 {
      assert Utf8(cp) == [0xE0 + cp / 0x1000, 0x80 + cp / 0x40 % 0x40, 0x80 + cp % 0x40];
    } else {
      assert Utf8(cp) == [0xF0 + cp / 0x40000, 0x80 + cp / 0x1000 % 0x40, 0x80 + cp / 0x40 % 0x40, 0x80 + cp % 0x40];
    }
  }

  /** Splitting off the last six bits. */
  lemma SixBits(n: nat)
    ensures Six(n / 0x40, 0x80 + n % 0x40) == n
    ensures n / 0x40 / 0x40 == n / 0x1000 && n / 0x1000 / 0x40 == n / 0x40000
  {
  }

  // Escapes

  function HexDigit(d: int): CodeUnit
    requires 0 <= d < 16
  {
    if d < 10 then '0' as int + d else 'A' as int + d - 10
  }

  function HexValue(c: CodeUnit): (r: Option<int>)
    ensures r.Some? ==> 0 <= r.value < 16
  {
    if '0' as int <= c <= '9' as int then Some(c - '0' as int)
    else if 'A' as int <= c <= 'F' as int then Some(c - 'A' as int + 10)
    else if 'a' as int <= c <= 'f' as int then Some(c - 'a' as int + 10)
    else None
  }

  function Escape(bs: seq<Octet>): (t: Text)
    ensures |t| == 3 * |bs|
  {
    if bs == [] then [] else [PERCENT, HexDigit(bs[0] / 16), HexDigit(bs[0] % 16)] + Escape(bs[1..])
  }

  /** The octet escaped at position `i`, if a complete escape stands there. */
  function OctetAt(s: Text, i: nat): Option<Octet> {
    if i + 3 <= |s| && s[i] == PERCENT && HexValue(s[i + 1]).Some? && HexValue(s[i + 2]).Some?
    then Some(HexValue(s[i + 1]).value * 16 + HexValue(s[i + 2]).value)
    else None
  }

  /** `n` escaped octets in a row from position `i`. */
  function OctetsAt(s: Text, i: nat, n: nat): (r: Option<seq<Octet>>)
    ensures r.Some? ==> |r.value| == n && i + 3 * n <= |s| + i
    ensures r.Some? && n > 0 ==> OctetAt(s, i) == Some(r.value[0]) && i + 3 * n <= |s| && s[i] == PERCENT
    decreases n
  {
    if n == 0 then Some([])
    else
      match OctetAt(s, i)
      case None => None
      case Some(b) =>
        match OctetsAt(s, i + 3, n - 1)
        case None => None
        case Some(bs) => Some([b] + bs)
  }

  /** None is the URIError thrown for a lone surrogate. */
  function Encode(s: Text): Option<Text> {
    if s == [] then Some([])
    else if Unreserved(s[0]) then
      match Encode(s[1..])
      case None => None
      case Some(rest) => Some([s[0]] + rest)
    else
      match FirstScalar(s)
      case None => None
      case Some(cp) =>
        match Encode(s[|Units(cp)|..])
        case None => None
        case Some(rest) => Some(Escape(Utf8(cp)) + rest)
  }

  /** None is the URIError thrown for a broken escape or octets that are not UTF-8. */
  function Decode(s: Text): Option<Text> {
    if s == [] then Some([])
    else if s[0] != PERCENT then
      match Decode(s[1..])
      case None => None
      case Some(rest) => Some([s[0]] + rest)
    else
      match OctetAt(s, 0)
      case None => None
      case Some(b) =>
        match SequenceLength(b)
        case None => None
        case Some(n) =>
          match OctetsAt(s, 0, n)
          case None => None
          case Some(bs) =>
            match FromUtf8(bs)
            case None => None
            case Some(cp) =>
              match Decode(s[3 * n..])
              case None => None
              case Some(rest) => Some(Units(cp) + rest)
  }

  lemma {:induction false} EscapeReads(bs: seq<Octet>, before: Text, rest: Text)
    ensures OctetsAt(before + Escape(bs) + rest, |before|, |bs|) == Some(bs)
  {
    if bs != [] {
      var head := [PERCENT, HexDigit(bs[0] / 16), HexDigit(bs[0] % 16)];
      var s := before + Escape(bs) + rest;
      assert s == (before + head) + Escape(bs[1..]) + rest;
      EscapeReads(bs[1..], before + head, rest);
      assert s[|before|] == PERCENT && s[|before| + 1] == head[1] && s[|before| + 2] == head[2];
      assert OctetAt(s, |before|) == Some(bs[0]);
      assert [bs[0]] + bs[1..] == bs;
    }
  }

  lemma DecodeStep(s: Text, bs: seq<Octet>, cp: int, tail: Text)
    requires 1 <= |bs| <= 4 && SequenceLength(bs[0]) == Some(|bs|) && FromUtf8(bs) == Some(cp)
    requires OctetsAt(s, 0, |bs|) == Some(bs) && 3 * |bs| <= |s| && s[3 * |bs|..] == tail
    requires Decode(tail).Some?
    ensures Decode(s) == Some(Units(cp) + Decode(tail).value)
  {
    hide FromUtf8, OctetsAt, Units, SequenceLength, OctetAt;
    assert OctetAt(s, 0) == Some(bs[0]) && s[0] == PERCENT;
  }

  /** An escaped character decodes to itself and leaves the rest alone. */
  lemma DecodeEscape(cp: int, rest: Text)
    requires IsScalar(cp) && Decode(rest).Some?
    ensures Decode(Escape(Utf8(cp)) + rest) == Some(Units(cp) + Decode(rest).value)
  {
    hide *;
    var bs := Utf8(cp);
    var s := Escape(bs) + rest;
    Utf8RoundTrip(cp);
    assert OctetsAt(s, 0, |bs|) == Some(bs) by {
      EscapeReads(bs, [], rest);
      assert [] + Escape(bs) + rest == s;
    }
    assert s[3 * |bs|..] == rest;
    DecodeStep(s, bs, cp, rest);
  }

  /** Decoding gives back exactly what was encoded. */
  lemma {:induction false} DecodeEncode(s: Text)
    ensures Encode(s).Some? ==> Decode(Encode(s).value) == Some(s)
    decreases |s|
  {
    if s == [] {
    } else if Unreserved(s[0]) {
      DecodeEncode(s[1..]);
      if Encode(s).Some? {
        assert Encode(s).value[1..] == Encode(s[1..]).value;
        assert [s[0]] + s[1..] == s;
      }
    } else if FirstScalar(s).Some? {
      var cp := FirstScalar(s).value;
      var tail := s[|Units(cp)|..];
      DecodeEncode(tail);
      if Encode(s).Some? {
        DecodeEscape(cp, Encode(tail).value);
        assert Units(cp) + tail == s;
      }
    }
  }

  /** Encoding fails on lone surrogates and on nothing else. */
  lemma {:induction false} EncodeIffWellFormed(s: Text)
    ensures Encode(s).Some? <==> WellFormed(s)
    decreases |s|
  {
    if s != [] {
      if Unreserved(s[0]) {
        EncodeIffWellFormed(s[1..]);
        assert FirstScalar(s) == Some(s[0]);
      } else if FirstScalar(s).Some? {
        EncodeIffWellFormed(s[|Units(FirstScalar(s).value)|..]);
      }
    }
  }

  predicate Plain(t: Text) {
    forall i :: 0 <= i < |t| ==> Unreserved(t[i]) || t[i] == PERCENT
  }

  lemma {:induction false} EscapePlain(bs: seq<Octet>)
    ensures Plain(Escape(bs))
  {
    if bs != [] {
      EscapePlain(bs[1..]);
    }
  }

  /** Encoded text holds no character that means something in a query. */
  lemma {:induction false} EncodePlain(s: Text)
    ensures Encode(s).Some? ==> Plain(Encode(s).value)
    decreases |s|
  {
    if s == [] {
    } else if Unreserved(s[0]) {
      EncodePlain(s[1..]);
    } else if FirstScalar(s).Some? {
      var cp := FirstScalar(s).value;
      EncodePlain(s[|Units(cp)|..]);
      EscapePlain(Utf8(cp));
    }
  }

  /** Text without escapes decodes to itself. */
  lemma {:induction false} DecodeLiteral(s: Text)
    requires forall i :: 0 <= i < |s| ==> s[i] != PERCENT
    ensures Decode(s) == Some(s)
  {
    if s != [] {
      DecodeLiteral(s[1..]);
      assert [s[0]] + s[1..] == s;
    }
  }

  // Known answers

  /** One ASCII character stands for itself if it is a letter, a digit or one of - _ . ! ~ * ' ( ), and is otherwise
      a percent sign and two hexadecimal digits, the letters among them upper case. */
  lemma AsciiEncodes(c: CodeUnit)
    requires c < 0x80
    ensures var high, low := c / 16, c % 16;
            Encode([c]) ==
            Some(if 65 <= c <= 90 || 97 <= c <= 122 || 48 <= c <= 57 || c in {33, 39, 40, 41, 42, 45, 46, 95, 126} then [c]
                 else [37, if high < 10 then 48 + high else 55 + high, if low < 10 then 48 + low else 55 + low])
  {
    var none: Text := [];
    assert [c][1..] == none && Encode(none) == Some(none);
    if Unreserved(c) {
      assert [c] + none == [c] && Encode([c]) == Some([c] + none);
    } else {
      assert FirstScalar([c]) == Some(c) && Units(c) == [c] && Utf8(c) == [c];
      assert [c][|Units(c)|..] == none;
      var digits: Text := [PERCENT, HexDigit(c / 16), HexDigit(c % 16)];
      assert Escape([c]) == digits + none == digits;
      assert Escape([c]) + none == Escape([c]) && Encode([c]) == Some(Escape([c]) + none);
    }
  }

  /** One character of each length in UTF-8. */
  lemma OctetsOfKnown()
    ensures Utf8(0x41) == [0x41]
    ensures Utf8(0xE9) == [0xC3, 0xA9]
    ensures Utf8(0x20AC) == [0xE2, 0x82, 0xAC]
    ensures Utf8(0x1F600) == [0xF0, 0x9F, 0x98, 0x80] && Units(0x1F600) == [0xD83D, 0xDE00]
  {
  }

  /** Decoding takes an octet sequence for a character only if it is that character's own: no longer form of it, no
      half of a pair and nothing past the last character. */
  lemma Utf8Unique(bs: seq<Octet>)
    requires 1 <= |bs| <= 4 && SequenceLength(bs[0]) == Some(|bs|)
    ensures FromUtf8(bs).Some? ==> Utf8(FromUtf8(bs).value) == bs
  {
    if FromUtf8(bs).Some? {
      assert forall i :: 1 <= i < |bs| ==> 0 <= bs[i] - 0x80 < 0x40;
      if |bs| == 1 {
        assert bs == [bs[0]];
      } else if |bs| == 2 {
        SplitSix(bs[0] - 0xC0, bs[1]);
        assert bs == [bs[0], bs[1]];
      } else if |bs| == 3 {
        SplitSix(bs[0] - 0xE0, bs[1]);
        SplitSix(Six(bs[0] - 0xE0, bs[1]), bs[2]);
        SixBits(FromUtf8(bs).value);
        assert bs == [bs[0], bs[1], bs[2]];
      } else {
        SplitSix(bs[0] - 0xF0, bs[1]);
        SplitSix(Six(bs[0] - 0xF0, bs[1]), bs[2]);
        SplitSix(Six(Six(bs[0] - 0xF0, bs[1]), bs[2]), bs[3]);
        SixBits(FromUtf8(bs).value);
        assert bs == [bs[0], bs[1], bs[2], bs[3]];
      }
    }
  }

  lemma SplitSix(high: nat, b: int)
    requires 0x80 <= b < 0xC0
    ensures Six(high, b) / 0x40 == high && Six(high, b) % 0x40 == b - 0x80
  {
  }

  /** Hexadecimal digits of either case are read, and nothing else is. */
  lemma HexReads(c: CodeUnit, d: nat)
    requires d < 16
    ensures HexValue(c) == Some(d) <==> if d < 10 then c == 48 + d else c == 55 + d || c == 87 + d
  {
  }
}
