/** What `decode_url` makes of a text, by the kinds of escape, and which texts it leaves as they are. */
module UrlDecoding {
  import opened Wrappers
  import opened Bytes
  import opened TextCodec

  // ------------------------------------------------------------- hexadecimal

  const LOWER := "0123456789abcdef"
  const UPPER := "0123456789ABCDEF"

  lemma {:induction false} HexDigitsExactly(c: char, d: nat)
    ensures HexDigit(c) == Some(d) <==> d < 16 && (c == LOWER[d] || c == UPPER[d])
  {
    if d < 16 {
      assert LOWER[d] == if d < 10 then ('0' as nat + d) as char else ('a' as nat + d - 10) as char;
      assert UPPER[d] == if d < 10 then ('0' as nat + d) as char else ('A' as nat + d - 10) as char;
    }
  }

  // --------------------------------------------------------------------- UTF-8

  predicate Tail(c: char) { 0x80 <= c as nat < 0xC0 }

  predicate Scalar(code: nat) { code < 0xD800 || 0xE000 <= code < 0x110000 }

  function Six(c: char): nat { c as nat % 64 }

  /** The scalar value that a text encodes in UTF-8, as section 3 of RFC 3629 has it: shortest forms only, and no
      surrogates. */
  function Utf8Value(s: string): Option<nat> {
    if |s| == 1 && s[0] as nat < 0x80 then Some(s[0] as nat)
    else if |s| == 2 && 0xC2 <= s[0] as nat < 0xE0 && Tail(s[1]) then Some((s[0] as nat - 0xC0) * 64 + Six(s[1]))
    else if |s| == 3 && 0xE0 <= s[0] as nat < 0xF0 && Tail(s[1]) && Tail(s[2]) then
      var v := (s[0] as nat - 0xE0) * 4096 + Six(s[1]) * 64 + Six(s[2]);
      if v >= 0x800 && Scalar(v) then Some(v) else None
    else if |s| == 4 && 0xF0 <= s[0] as nat < 0xF8 && Tail(s[1]) && Tail(s[2]) && Tail(s[3]) then
      var v := (s[0] as nat - 0xF0) * 262144 + Six(s[1]) * 4096 + Six(s[2]) * 64 + Six(s[3]);
      if v >= 0x10000 && Scalar(v) then Some(v) else None
    else None
  }

  lemma {:induction false} SixBits(n: nat)
    ensures n == n / 64 * 64 + n % 64 && n % 64 < 64
    ensures n / 64 / 64 == n / 4096 && n / 4096 / 64 == n / 262144
  {}

  lemma {:induction false} TwoBytes(code: nat)
    requires 0x80 <= code < 0x800
    ensures Utf8Value(ToUtf8(code)) == Some(code)
  {
    SixBits(code);
    assert code / 64 % 32 == code / 64;
  }

  lemma {:induction false} ThreeBytes(code: nat)
    requires 0x800 <= code < 0x10000 && Scalar(code)
    ensures Utf8Value(ToUtf8(code)) == Some(code)
  {
    SixBits(code);
    SixBits(code / 64);
    var (x, y) := (code / 4096, code / 64 % 64);
    assert x % 16 == x;
    assert code == x * 4096 + y * 64 + code % 64;
    ThreeRead(x, y, code % 64, code);
  }

  lemma {:induction false} ThreeRead(x: nat, y: nat, z: nat, v: nat)
    requires x < 16 && y < 64 && z < 64
    requires 0x800 <= v < 0x10000 && Scalar(v) && v == x * 4096 + y * 64 + z
    ensures Utf8Value([(0xE0 + x) as char, (0x80 + y) as char, (0x80 + z) as char]) == Some(v)
  {}

  lemma {:induction false} FourRead(w: nat, x: nat, y: nat, z: nat, v: nat)
    requires w < 8 && x < 64 && y < 64 && z < 64
    requires 0x10000 <= v < 0x110000 && v == w * 262144 + x * 4096 + y * 64 + z
    ensures Utf8Value([(0xF0 + w) as char, (0x80 + x) as char, (0x80 + y) as char, (0x80 + z) as char]) == Some(v)
  {}

  lemma {:induction false} FourBytes(code: nat)
    requires 0x10000 <= code < 0x110000
    ensures Utf8Value(ToUtf8(code)) == Some(code)
  {
    FourSum(code);
    FourRead(code / 262144, code / 4096 % 64, code / 64 % 64, code % 64, code);
    assert code / 262144 % 8 == code / 262144;
  }

  lemma {:induction false} FourSum(code: nat)
    requires code < 0x110000
    ensures code / 262144 < 8
    ensures code == code / 262144 * 262144 + code / 4096 % 64 * 4096 + code / 64 % 64 * 64 + code % 64
  {
    SixBits(code);
    SixBits(code / 64);
    SixBits(code / 4096);
  }

  /** `to_utf8` writes the UTF-8 form of every scalar value, and nothing for other codes. */
  lemma {:induction false} Utf8Writes(code: nat)
    ensures Scalar(code) ==> Utf8Value(ToUtf8(code)) == Some(code)
    ensures !Scalar(code) ==> ToUtf8(code) == ""
  {
    if 0x80 <= code < 0x800 {
      TwoBytes(code);
    } else if 0x800 <= code < 0x10000 && Scalar(code) {
      ThreeBytes(code);
    } else if 0x10000 <= code < 0x110000 {
      FourBytes(code);
    }
  }

  // ------------------------------------------------------------------- escapes

  /** The value of four hexadecimal digits. */
  function CodeOf(t: string): nat
    requires FourHex(t)
  {
    HexDigit(t[0]).value * 4096 + HexDigit(t[1]).value * 256 + HexDigit(t[2]).value * 16 + HexDigit(t[3]).value
  }

  predicate FourHex(t: string) {
    |t| >= 4 && HexDigit(t[0]).Some? && HexDigit(t[1]).Some? && HexDigit(t[2]).Some? && HexDigit(t[3]).Some?
  }

  predicate TwoHex(t: string) {
    |t| >= 2 && HexDigit(t[0]).Some? && HexDigit(t[1]).Some?
  }

  /** Whether what follows a '%' makes it an escape: `u` and four digits, or two digits. */
  predicate EscapeFollows(t: string) {
    if t != "" && t[0] == 'u' then FourHex(t[1..]) else TwoHex(t)
  }

  lemma {:induction false} TwoDigits(s: string, i: nat)
    requires i <= |s|
    ensures HexValue(s, i, 2).Some? <==> TwoHex(s[i..])
    ensures TwoHex(s[i..]) ==> HexValue(s, i, 2).value == HexDigit(s[i]).value * 16 + HexDigit(s[i + 1]).value
  {
    assert HexValue(s, i, 0) == Some(0);
    if i + 2 <= |s| {
      assert HexValue(s, i, 1).Some? <==> HexDigit(s[i]).Some?;
    }
  }

  lemma {:induction false} FourHexDigits(s: string, i: nat)
    requires i <= |s|
    ensures HexValue(s, i, 4).Some? <==> FourHex(s[i..])
    ensures FourHex(s[i..]) ==> HexValue(s, i, 4).value == CodeOf(s[i..])
  {
    TwoDigits(s, i);
    if i + 4 <= |s| {
      assert HexValue(s, i, 3).Some? <==> HexValue(s, i, 2).Some? && HexDigit(s[i + 2]).Some?;
    }
  }

  /** Every character but '%' is kept, except that a plus sign can mean a blank. */
  lemma {:induction false} DecodePlain(c: char, t: string, plusToSpace: bool)
    requires c != '%'
    ensures Decode([c] + t, plusToSpace) == [if plusToSpace && c == '+' then ' ' else c] + Decode(t, plusToSpace)
  {
    assert ([c] + t)[1..] == t;
  }

  /** Two hexadecimal digits behind a '%' give that byte. */
  lemma {:induction false} DecodeByte(t: string, plusToSpace: bool)
    requires TwoHex(t)
    ensures HexDigit(t[0]).value * 16 + HexDigit(t[1]).value < 256
    ensures Decode("%" + t, plusToSpace)
         == [(HexDigit(t[0]).value * 16 + HexDigit(t[1]).value) as char] + Decode(t[2..], plusToSpace)
  {
    var s := "%" + t;
    assert s[1..] == t && s[3..] == t[2..];
    TwoDigits(s, 1);
    HexIsByte(s);
  }

  /** `u` and four digits give the UTF-8 form of that code, and nothing for a surrogate. */
  lemma {:induction false} DecodeCode(t: string, plusToSpace: bool) returns (x: string)
    requires FourHex(t)
    ensures Decode("%u" + t, plusToSpace) == x + Decode(t[4..], plusToSpace)
    ensures if Scalar(CodeOf(t)) then Utf8Value(x) == Some(CodeOf(t)) else x == ""
  {
    var s := "%u" + t;
    assert s[2..] == t && s[6..] == t[4..];
    FourHexDigits(s, 2);
    x := ToUtf8(CodeOf(t));
    Utf8Writes(CodeOf(t));
  }

  /** Any other '%' is kept. */
  lemma {:induction false} DecodeBare(t: string, plusToSpace: bool)
    requires !EscapeFollows(t)
    ensures Decode("%" + t, plusToSpace) == "%" + Decode(t, plusToSpace)
  {
    var s := "%" + t;
    assert s[1..] == t;
    if t != "" {
      TwoDigits(s, 1);
      assert s[2..] == t[1..];
      FourHexDigits(s, 2);
    }
  }

  // ------------------------------------------------------------- texts without '%'

  /** Without a '%' decoding changes plus signs only, and those only when asked to. */
  lemma {:induction false} DecodeWithoutEscapes(s: string, plusToSpace: bool)
    requires '%' !in s
    ensures |Decode(s, plusToSpace)| == |s|
    ensures forall i :: 0 <= i < |s| ==> Decode(s, plusToSpace)[i] == if plusToSpace && s[i] == '+' then ' ' else s[i]
    ensures !plusToSpace ==> Decode(s, plusToSpace) == s
  {
    if s != "" {
      DecodeWithoutEscapes(s[1..], plusToSpace);
      DecodePlain(s[0], s[1..], plusToSpace);
      assert s == [s[0]] + s[1..];
    }
  }

  /** No '%' of the text is an escape. */
  predicate NoEscape(s: string) {
    forall i :: 0 <= i < |s| && s[i] == '%' ==> !EscapeFollows(s[i + 1..])
  }

  lemma {:induction false} NoEscapeCons(c: char, t: string)
    ensures NoEscape([c] + t) <==> (c == '%' ==> !EscapeFollows(t)) && NoEscape(t)
  {
    var s := [c] + t;
    assert s[0 + 1..] == t;
    forall i | 0 <= i < |t| ensures s[i + 1] == t[i] && s[i + 1 + 1..] == t[i + 1..] {}
    if NoEscape(s) {
      assert c == '%' ==> s[0] == '%';
      forall i | 0 <= i < |t| && t[i] == '%' ensures !EscapeFollows(t[i + 1..]) { assert s[i + 1] == '%'; }
    } else {
      var i :| 0 <= i < |s| && s[i] == '%' && EscapeFollows(s[i + 1..]);
      if i > 0 { assert t[i - 1] == '%' && s[i - 1 + 1 + 1..] == t[i - 1 + 1..]; }
    }
  }

  /** An escape is longer than what it stands for. */
  lemma {:induction false} EscapeShrinks(t: string, plusToSpace: bool)
    requires EscapeFollows(t)
    ensures |Decode("%" + t, plusToSpace)| < |t| + 1
  {
    if t[0] == 'u' {
      var x := DecodeCode(t[1..], plusToSpace);
      assert "%u" + t[1..] == "%" + t;
      DecodeNotLonger(t[1..][4..], plusToSpace);
    } else {
      DecodeByte(t, plusToSpace);
      DecodeNotLonger(t[2..], plusToSpace);
    }
  }

  /** Decoding leaves exactly those texts alone that have no escape, and no plus sign that means a blank. */
  lemma {:induction false} DecodeKeepsExactly(s: string, plusToSpace: bool)
    ensures Decode(s, plusToSpace) == s <==> NoEscape(s) && (plusToSpace ==> '+' !in s)
  {
    if s != "" {
      var (c, t) := (s[0], s[1..]);
      assert s == [c] + t;
      DecodeKeepsExactly(t, plusToSpace);
      NoEscapeCons(c, t);
      if c != '%' {
        DecodePlain(c, t, plusToSpace);
      } else if EscapeFollows(t) {
        EscapeShrinks(t, plusToSpace);
      } else {
        DecodeBare(t, plusToSpace);
      }
    }
  }

  // -------------------------------------------------------------- what is encoded

  /** The unreserved characters of section 2.3 of RFC 2396. */
  const MARKS := "-_.!~*'()"

  predicate Unreserved(c: char) {
    '0' <= c <= '9' || 'A' <= c <= 'Z' || 'a' <= c <= 'z' || c in MARKS
  }

  lemma {:induction false} EncodedChar(c: char)
    requires c as int < 256
    ensures if Unreserved(c) then EncodeChar(c) == [c]
            else EncodeChar(c) == ['%', UPPER[c as nat / 16], UPPER[c as nat % 16]]
  {
    HexDigitsExactly(UpperHex(c as nat / 16), c as nat / 16);
    HexDigitsExactly(UpperHex(c as nat % 16), c as nat % 16);
  }

  /** Encoding keeps the unreserved characters and writes every other byte as two upper-case digits. */
  lemma {:induction false} EncodeExactly(s: string)
    requires IsBytes(s)
    ensures s == "" ==> Encode(s) == ""
    ensures s != "" && Unreserved(s[0]) ==> Encode(s) == [s[0]] + Encode(s[1..])
    ensures s != "" && !Unreserved(s[0]) ==>
              Encode(s) == ['%', UPPER[s[0] as nat / 16], UPPER[s[0] as nat % 16]] + Encode(s[1..])
  {
    if s != "" { EncodedChar(s[0]); }
  }
}
