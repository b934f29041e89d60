/** The percent-coding built-ins the recognizer calls: `encodeURIComponent`,
    `decodeURIComponent` and `decodeURI`, as ECMAScript defines them (UTF-8
    octets written as `%HH` with upper-case hex digits; decoding rejects
    malformed escapes and ill-formed UTF-8 with a URIError). */
module UriCoding {
  import opened Basics

  /** The characters `encodeURIComponent` leaves as they are. */
  predicate IsUnreserved(c: char)
  {
    ('A' <= c <= 'Z') || ('a' <= c <= 'z') || ('0' <= c <= '9') || c in "-_.!~*'()"
  }

  /** The reserved set of `decodeURI`: escapes of these characters are kept. */
  const UriReserved: set<char> := {';', '/', '?', ':', '@', '&', '=', '+', '$', ',', '#'}

  function HexDigit(n: nat): (c: char)
    requires n < 16
  {
    if n < 10 then ('0' as int + n) as char else ('A' as int + n - 10) as char
  }

  predicate IsHex(c: char)
  {
    ('0' <= c <= '9') || ('A' <= c <= 'F') || ('a' <= c <= 'f')
  }

  function HexValue(c: char): (n: nat)
    requires IsHex(c)
    ensures n < 16
  {
    if '0' <= c <= '9' then c as int - '0' as int
    else if 'A' <= c <= 'F' then c as int - 'A' as int + 10
    else c as int - 'a' as int + 10
  }

  /** The UTF-8 octets of one code point. */
  function Utf8(c: char): (bytes: seq<nat>)
  {
    var cp := c as int;
    if cp < 0x80 then [cp]
    else if cp < 0x800 then [0xC0 + cp / 64, 0x80 + cp % 64]
    else if cp < 0x1_0000 then [0xE0 + cp / 4096, 0x80 + (cp / 64) % 64, 0x80 + cp % 64]
    else [0xF0 + cp / 262144, 0x80 + (cp / 4096) % 64, 0x80 + (cp / 64) % 64, 0x80 + cp % 64]
  }

  /** `%HH` for each octet. */
  function Escaped(bytes: seq<nat>): (s: string)
    requires forall i :: 0 <= i < |bytes| ==> bytes[i] < 256
    ensures |s| == 3 * |bytes|
  {
    if bytes == [] then ""
    else ['%', HexDigit(bytes[0] / 16), HexDigit(bytes[0] % 16)] + Escaped(bytes[1..])
  }

  lemma Utf8Bytes(c: char)
    ensures 1 <= |Utf8(c)| <= 4
    ensures forall i :: 0 <= i < |Utf8(c)| ==> Utf8(c)[i] < 256
  {
  }

  function EncodeChar(c: char): string
  {
    Utf8Bytes(c);
    if IsUnreserved(c) then [c] else Escaped(Utf8(c))
  }

  /** `encodeURIComponent(s)`. */
  function EncodeURIComponent(s: string): string
  {
    if s == [] then "" else EncodeChar(s[0]) + EncodeURIComponent(s[1..])
  }

  /** The octet written as `%HH` at the start of `s`, if there is one. */
  function LeadingByte(s: string): (b: Option<nat>)
    ensures b.Some? ==> b.value < 256
  {
    if |s| >= 3 && s[0] == '%' && IsHex(s[1]) && IsHex(s[2])
    then Some(HexValue(s[1]) * 16 + HexValue(s[2]))
    else None
  }

  /** The number of octets a UTF-8 sequence with this lead octet claims
      (its leading one bits; 1 marks a continuation octet). */
  function SequenceLength(b: nat): nat
  {
    if b < 0x80 then 0 else if b < 0xC0 then 1 else if b < 0xE0 then 2
    else if b < 0xF0 then 3 else if b < 0xF8 then 4 else 5
  }

  /** `count` escaped continuation octets (10xxxxxx) at the start of `s`. */
  function Continuations(s: string, count: nat): (r: Option<seq<nat>>)
    ensures r.Some? ==> |r.value| == count && 3 * count <= |s|
    ensures r.Some? ==> forall i :: 0 <= i < count ==> 0x80 <= r.value[i] < 0xC0
  {
    if count == 0 then Some([])
    else match LeadingByte(s)
      case None => None
      case Some(b) =>
        if b < 0x80 || b >= 0xC0 then None
        else match Continuations(s[3..], count - 1)
          case None => None
          case Some(rest) => Some([b] + rest)
  }

  /** The scalar value a lead octet and its continuation octets denote. */
  function CodePoint(lead: nat, cont: seq<nat>): int
    requires 1 <= |cont| <= 3
  {
    var b := lead as int;
    if |cont| == 1 then (b - 0xC0) * 64 + (cont[0] as int - 0x80)
    else if |cont| == 2 then (b - 0xE0) * 4096 + (cont[0] as int - 0x80) * 64 + (cont[1] as int - 0x80)
    else (b - 0xF0) * 262144 + (cont[0] as int - 0x80) * 4096 + (cont[1] as int - 0x80) * 64 + (cont[2] as int - 0x80)
  }

  /** Well-formed UTF-8: not overlong, not a surrogate, not beyond U+10FFFF. */
  predicate WellFormed(n: nat, cp: int)
  {
    var least := if n == 2 then 0x80 else if n == 3 then 0x800 else 0x1_0000;
    least <= cp <= 0x10_FFFF && !(0xD800 <= cp <= 0xDFFF)
  }

  /** Decodes the escape (or the UTF-8 sequence of escapes) at the start of
      `s`: the text it stands for and how many characters it occupied. */
  function DecodeEscape(s: string, reserved: set<char>): (r: Result<(string, nat)>)
    requires |s| > 0 && s[0] == '%'
    ensures r.Ok? ==> 3 <= r.value.1 <= |s|
  {
    match LeadingByte(s)
    case None => Err(UriError)
    case Some(b) =>
      if b < 0x80 then
        var c := b as char;
        Ok((if c in reserved then s[..3] else [c], 3))
      else
        var n := SequenceLength(b);
        if n == 1 || n > 4 then Err(UriError)
        else match Continuations(s[3..], n - 1)
          case None => Err(UriError)
          case Some(cont) =>
            var cp := CodePoint(b, cont);
            if WellFormed(n, cp) then Ok(([cp as char], 3 * n)) else Err(UriError)
  }

  /** The ECMAScript `Decode(string, reservedSet)` operation. */
  function Decode(s: string, reserved: set<char>): Result<string>
    decreases |s|, 1
  {
    if s == [] then Ok("")
    else if s[0] != '%' then Prefix([s[0]], Decode(s[1..], reserved))
    else DecodePercent(s, reserved)
  }

  /** Decoding from an escape on. */
  function DecodePercent(s: string, reserved: set<char>): Result<string>
    requires |s| > 0 && s[0] == '%'
    decreases |s|, 0
  {
    match DecodeEscape(s, reserved)
    case Err(e) => Err(e)
    case Ok(piece) => Prefix(piece.0, Decode(s[piece.1..], reserved))
  }

  function Prefix(p: string, r: Result<string>): Result<string>
  {
    match r
    case Ok(t) => Ok(p + t)
    case Err(e) => Err(e)
  }

  /** `decodeURIComponent(s)`. */
  function DecodeURIComponent(s: string): Result<string>
  {
    Decode(s, {})
  }

  /** `decodeURI(s)`. */
  function DecodeURI(s: string): Result<string>
  {
    Decode(s, UriReserved)
  }

  // ---------------------------------------------------------------------------
  // Properties

  lemma HexDigitValue(n: nat)
    requires n < 16
    ensures IsHex(HexDigit(n)) && HexValue(HexDigit(n)) == n
  {
  }

  lemma LeadingByteOfEscape(b: nat, t: string)
    requires b < 256
    ensures LeadingByte(['%', HexDigit(b / 16), HexDigit(b % 16)] + t) == Some(b)
  {
    var hi, lo := b / 16, b % 16;
    HexDigitValue(hi);
    HexDigitValue(lo);
    var s := ['%', HexDigit(hi), HexDigit(lo)] + t;
    assert s[0] == '%' && s[1] == HexDigit(hi) && s[2] == HexDigit(lo);
    assert HexValue(s[1]) * 16 + HexValue(s[2]) == b;
  }

  lemma LeadingByteOfEscaped(bytes: seq<nat>, rest: string)
    requires |bytes| > 0
    requires forall i :: 0 <= i < |bytes| ==> bytes[i] < 256
    ensures LeadingByte(Escaped(bytes) + rest) == Some(bytes[0])
    ensures (Escaped(bytes) + rest)[3..] == Escaped(bytes[1..]) + rest
  {
    var head := ['%', HexDigit(bytes[0] / 16), HexDigit(bytes[0] % 16)];
    var tail := Escaped(bytes[1..]);
    assert Escaped(bytes) == head + tail;
    assert Escaped(bytes) + rest == head + (tail + rest);
    LeadingByteOfEscape(bytes[0], tail + rest);
    assert (head + (tail + rest))[3..] == tail + rest;
  }

  lemma {:induction false} ContinuationsOfEscaped(bytes: seq<nat>, rest: string)
    requires forall i :: 0 <= i < |bytes| ==> 0x80 <= bytes[i] < 0xC0
    ensures Continuations(Escaped(bytes) + rest, |bytes|) == Some(bytes)
  {
    if bytes != [] {
      LeadingByteOfEscaped(bytes, rest);
      ContinuationsOfEscaped(bytes[1..], rest);
      assert bytes == [bytes[0]] + bytes[1..];
    }
  }

  /** A multi-octet UTF-8 sequence announces its own length, carries
      continuation octets and denotes the code point it was made from. */
  lemma Utf8Structure(c: char)
    requires c as int >= 0x80
    ensures 2 <= |Utf8(c)| <= 4 && SequenceLength(Utf8(c)[0]) == |Utf8(c)|
    ensures forall i :: 1 <= i < |Utf8(c)| ==> 0x80 <= Utf8(c)[i] < 0xC0
    ensures CodePoint(Utf8(c)[0], Utf8(c)[1..]) == c as int
    ensures WellFormed(|Utf8(c)|, c as int)
  {
    var cp := c as int;
    if cp < 0x800 {
      Utf8Two(c);
    } else if cp < 0x1_0000 {
      Utf8Three(c);
    } else {
      Utf8Four(c);
    }
  }

  lemma Div4096(x: int, q: int, r: int)
    requires x == q * 4096 + r && 0 <= r < 4096
    ensures x / 4096 == q
  {
  }

  lemma Div262144(x: int, q: int, r: int)
    requires x == q * 262144 + r && 0 <= r < 262144
    ensures x / 262144 == q
  {
  }

  lemma Utf8Two(c: char)
    requires 0x80 <= c as int < 0x800
    ensures var b := Utf8(c); |b| == 2 && SequenceLength(b[0]) == 2 && 0x80 <= b[1] < 0xC0
    ensures CodePoint(Utf8(c)[0], Utf8(c)[1..]) == c as int
  {
    var cp := c as int;
    var q, r := cp / 64, cp % 64;
    assert Utf8(c) == [0xC0 + q, 0x80 + r];
    assert Utf8(c)[1..] == [0x80 + r];
  }

  lemma Utf8Three(c: char)
    requires 0x800 <= c as int < 0x1_0000
    ensures var b := Utf8(c); |b| == 3 && SequenceLength(b[0]) == 3 && 0x80 <= b[1] < 0xC0 && 0x80 <= b[2] < 0xC0
    ensures CodePoint(Utf8(c)[0], Utf8(c)[1..]) == c as int
  {
    var cp := c as int;
    var q1, r1 := cp / 64, cp % 64;
    var q2, r2 := q1 / 64, q1 % 64;
    Div4096(cp, q2, r2 * 64 + r1);
    assert Utf8(c) == [0xE0 + q2, 0x80 + r2, 0x80 + r1];
    assert Utf8(c)[1..] == [0x80 + r2, 0x80 + r1];
  }

  lemma Utf8Four(c: char)
    requires 0x1_0000 <= c as int
    ensures var b := Utf8(c); |b| == 4 && SequenceLength(b[0]) == 4 && 0x80 <= b[1] < 0xC0 && 0x80 <= b[2] < 0xC0 && 0x80 <= b[3] < 0xC0
    ensures CodePoint(Utf8(c)[0], Utf8(c)[1..]) == c as int
  {
    var cp := c as int;
    var q1, r1 := cp / 64, cp % 64;
    var q2, r2 := q1 / 64, q1 % 64;
    var q3, r3 := q2 / 64, q2 % 64;
    Div4096(cp, q2, r2 * 64 + r1);
    Div262144(cp, q3, r3 * 4096 + r2 * 64 + r1);
    assert Utf8(c) == [0xF0 + q3, 0x80 + r3, 0x80 + r2, 0x80 + r1];
    assert Utf8(c)[1..] == [0x80 + r3, 0x80 + r2, 0x80 + r1];
  }

  /** The escapes of one character that is not unreserved decode back to it. */
  lemma EscapedCharDecodes(c: char, rest: string)
    ensures DecodeEscape(Escaped(Utf8(c)) + rest, {}) == Ok(([c], 3 * |Utf8(c)|))
  {
    Utf8Bytes(c);
    var bytes := Utf8(c);
    var s := Escaped(bytes) + rest;
    LeadingByteOfEscaped(bytes, rest);
    if c as int >= 0x80 {
      Utf8Structure(c);
      ContinuationsOfEscaped(bytes[1..], rest);
    }
  }

  lemma PrefixPrefix(a: string, b: string, r: Result<string>)
    ensures Prefix(a, Prefix(b, r)) == Prefix(a + b, r)
  {
    if r.Ok? {
      assert a + (b + r.value) == (a + b) + r.value;
    }
  }

  /** Decoding the encoding of one character yields that character. */
  lemma DecodeEncodedChar(c: char, tail: string)
    ensures Decode(EncodeChar(c) + tail, {}) == Prefix([c], Decode(tail, {}))
  {
    var e := EncodeChar(c) + tail;
    if IsUnreserved(c) {
      assert e[0] == c && c != '%';
      assert e[1..] == tail;
    } else {
      Utf8Bytes(c);
      EscapedCharDecodes(c, tail);
      LeadingByteOfEscaped(Utf8(c), tail);
      assert e[0] == '%';
      assert e[3 * |Utf8(c)|..] == tail;
    }
  }

  /** Decoding undoes `encodeURIComponent`, whatever follows the encoded text. */
  lemma {:induction false} DecodeEncoded(s: string, rest: string)
    ensures Decode(EncodeURIComponent(s) + rest, {}) == Prefix(s, Decode(rest, {}))
  {
    if s == [] {
      assert EncodeURIComponent(s) + rest == rest;
      assert Prefix(s, Decode(rest, {})) == Decode(rest, {}) by {
        if Decode(rest, {}).Ok? { assert s + Decode(rest, {}).value == Decode(rest, {}).value; }
      }
    } else {
      var c := s[0];
      var tail := EncodeURIComponent(s[1..]) + rest;
      DecodeEncoded(s[1..], rest);
      assert EncodeURIComponent(s) + rest == EncodeChar(c) + tail;
      DecodeEncodedChar(c, tail);
      PrefixPrefix([c], s[1..], Decode(rest, {}));
      assert [c] + s[1..] == s;
    }
  }

  /** `decodeURIComponent(encodeURIComponent(s)) == s`. */
  lemma DecodeURIComponentInverts(s: string)
    ensures DecodeURIComponent(EncodeURIComponent(s)) == Ok(s)
  {
    DecodeEncoded(s, "");
    assert EncodeURIComponent(s) + "" == EncodeURIComponent(s);
    assert s + "" == s;
  }

  /** Text without `%` decodes to itself, with any reserved set. */
  lemma {:induction false} DecodeWithoutPercent(s: string, reserved: set<char>)
    requires '%' !in s
    ensures Decode(s, reserved) == Ok(s)
  {
    if s != [] {
      DecodeWithoutPercent(s[1..], reserved);
      assert s == [s[0]] + s[1..];
    }
  }

  /** Encoded text consists of unreserved characters and `%` only, so it never
      holds a query-string delimiter such as `&`, `=` or `[`. */
  lemma {:induction false} EncodedAlphabet(s: string)
    ensures forall i :: 0 <= i < |EncodeURIComponent(s)| ==>
      IsUnreserved(EncodeURIComponent(s)[i]) || EncodeURIComponent(s)[i] == '%'
  {
    if s != [] {
      EncodedAlphabet(s[1..]);
      var c := s[0];
      if !IsUnreserved(c) {
        Utf8Bytes(c);
        EscapedAlphabet(Utf8(c));
      }
      var e := EncodeURIComponent(s);
      assert e == EncodeChar(c) + EncodeURIComponent(s[1..]);
      forall i | 0 <= i < |e| ensures IsUnreserved(e[i]) || e[i] == '%' {
        if i >= |EncodeChar(c)| {
          assert e[i] == EncodeURIComponent(s[1..])[i - |EncodeChar(c)|];
        }
      }
    }
  }

  lemma {:induction false} EscapedAlphabet(bytes: seq<nat>)
    requires forall i :: 0 <= i < |bytes| ==> bytes[i] < 256
    ensures forall i :: 0 <= i < |Escaped(bytes)| ==> IsUnreserved(Escaped(bytes)[i]) || Escaped(bytes)[i] == '%'
  {
    if bytes != [] {
      EscapedAlphabet(bytes[1..]);
    }
  }

  // ---------------------------------------------------------------------------
  // Where "%24" can occur in encoded text

  /** `%` in an escape sequence sits exactly at the positions that are
      multiples of three, followed by the two hex digits of its octet. */
  lemma {:induction false} EscapedShape(bytes: seq<nat>)
    requires forall i :: 0 <= i < |bytes| ==> bytes[i] < 256
    ensures forall j :: 0 <= j < |Escaped(bytes)| ==> (Escaped(bytes)[j] == '%' <==> j % 3 == 0)
    ensures forall m :: 0 <= m < |bytes| ==>
      Escaped(bytes)[3 * m + 1] == HexDigit(bytes[m] / 16) && Escaped(bytes)[3 * m + 2] == HexDigit(bytes[m] % 16)
  {
    if bytes != [] {
      EscapedShape(bytes[1..]);
      var e := Escaped(bytes);
      var tail := Escaped(bytes[1..]);
      assert e == ['%', HexDigit(bytes[0] / 16), HexDigit(bytes[0] % 16)] + tail;
      forall j | 3 <= j < |e| ensures e[j] == tail[j - 3] && (j % 3 == 0 <==> (j - 3) % 3 == 0) { }
      forall m | 1 <= m < |bytes|
        ensures e[3 * m + 1] == HexDigit(bytes[m] / 16) && e[3 * m + 2] == HexDigit(bytes[m] % 16)
      {
        assert bytes[1..][m - 1] == bytes[m];
        assert e[3 * m + 1] == tail[3 * (m - 1) + 1];
        assert e[3 * m + 2] == tail[3 * (m - 1) + 2];
      }
    }
  }

  /** `encodeURIComponent` writes `$` as `%24`. */
  lemma EncodeDollar()
    ensures EncodeChar('$') == "%24"
  {
    assert Utf8('$') == [0x24];
  }

  /** Escapes of octets other than 0x24 hold no `%24` starting inside them. */
  lemma NoDollarInEscapes(bytes: seq<nat>, t: string, j: nat)
    requires forall i :: 0 <= i < |bytes| ==> bytes[i] < 256 && bytes[i] != 0x24
    requires j < |Escaped(bytes)|
    ensures !OccursAt(Escaped(bytes) + t, "%24", j)
  {
    var e := Escaped(bytes);
    EscapedShape(bytes);
    if j + 3 <= |e + t| {
      var w := (e + t)[j..j + 3];
      assert w[0] == e[j] && w[1] == (e + t)[j + 1] && w[2] == (e + t)[j + 2];
      if j % 3 == 0 {
        var m := j / 3;
        assert j == 3 * m && m < |bytes|;
        var b := bytes[m];
        assert w[1] == HexDigit(b / 16) && w[2] == HexDigit(b % 16);
        assert b / 16 != 2 || b % 16 != 4;
        assert HexDigit(b / 16) == '2' ==> b / 16 == 2;
        assert HexDigit(b % 16) == '4' ==> b % 16 == 4;
        assert w[1] != '2' || w[2] != '4';
      } else {
        assert w[0] != '%';
      }
    }
  }

  /** Only `$` has the octet 0x24 in its UTF-8 form. */
  lemma Utf8NotDollar(c: char)
    requires c != '$'
    ensures forall i :: 0 <= i < |Utf8(c)| ==> Utf8(c)[i] < 256 && Utf8(c)[i] != 0x24
  {
    Utf8Bytes(c);
    if c as int >= 0x80 {
      Utf8Structure(c);
    }
  }

  /** The encoding of a character other than `$` holds no `%24` starting
      inside it, whatever follows it. */
  lemma NoDollarInChar(c: char, t: string, j: nat)
    requires c != '$' && j < |EncodeChar(c)|
    ensures !OccursAt(EncodeChar(c) + t, "%24", j)
  {
    if IsUnreserved(c) {
      assert (EncodeChar(c) + t)[j] == c;
    } else {
      Utf8NotDollar(c);
      NoDollarInEscapes(Utf8(c), t, j);
    }
  }

  /** Encoded text without `$` holds no `%24` starting inside it. */
  lemma {:induction false} NoDollarEncoded(a: string, t: string, j: nat)
    requires '$' !in a && j < |EncodeURIComponent(a)|
    ensures !OccursAt(EncodeURIComponent(a) + t, "%24", j)
    decreases |a|
  {
    var head := EncodeChar(a[0]);
    var rest := EncodeURIComponent(a[1..]) + t;
    assert EncodeURIComponent(a) + t == head + rest;
    if j < |head| {
      NoDollarInChar(a[0], EncodeURIComponent(a[1..]) + t, j);
    } else {
      NoDollarEncoded(a[1..], t, j - |head|);
      OccursAtShift(head, rest, "%24", j);
    }
  }

  /** `encodeURIComponent` works character by character. */
  lemma {:induction false} EncodeAppend(x: string, y: string)
    ensures EncodeURIComponent(x + y) == EncodeURIComponent(x) + EncodeURIComponent(y)
  {
    if x == [] {
      assert x + y == y;
    } else {
      assert (x + y)[0] == x[0] && (x + y)[1..] == x[1..] + y;
      EncodeAppend(x[1..], y);
    }
  }
}
