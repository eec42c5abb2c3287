/** `base64_encode` of httplib.h against section 4 of RFC 4648. */
module Base64 {
  import opened Bytes

  const UPPER := "ABCDEFGHIJKLMNOPQRSTUVWXYZ"
  const LOWER := "abcdefghijklmnopqrstuvwxyz"
  const DIGITS := "0123456789"

  /** The `lookup` string. */
  const TABLE := UPPER + LOWER + DIGITS + "+/"

  /** The width at which the accumulator wraps. */
  const INT_RANGE: int := 0x1_0000_0000

  // ------------------------------------------------------ the RFC's encoding

  /** The character for a six-bit value (table 1 of the RFC). */
  function Sextet(v: nat): (c: char)
    requires v < 64
  {
    if v < 26 then ('A' as nat + v) as char
    else if v < 52 then ('a' as nat + (v - 26)) as char
    else if v < 62 then ('0' as nat + (v - 52)) as char
    else if v == 62 then '+'
    else '/'
  }

  lemma {:induction false} TableIsRfc(v: nat)
    requires v < 64
    ensures |TABLE| == 64 && TABLE[v] == Sextet(v)
  {
    if v < 26 {
      UpperAt(v);
    } else if v < 52 {
      LowerAt(v - 26);
    } else if v < 62 {
      DigitAt(v - 52);
    }
  }

  lemma {:induction false} UpperAt(v: nat)
    requires v < 26
    ensures UPPER[v] == ('A' as nat + v) as char
  {}

  lemma {:induction false} LowerAt(v: nat)
    requires v < 26
    ensures LOWER[v] == ('a' as nat + v) as char
  {}

  lemma {:induction false} DigitAt(v: nat)
    requires v < 10
    ensures DIGITS[v] == ('0' as nat + v) as char
  {}

  /** The characters fully determined by the bytes: four for three bytes, then two for two or one for one. */
  function Whole(s: string): (r: string)
    requires IsBytes(s)
    ensures |r| == |s| + |s| / 3
    decreases |s|
  {
    if |s| == 0 then ""
    else
      var a := s[0] as nat;
      if |s| == 1 then [Sextet(a / 4)]
      else
        var b := s[1] as nat;
        if |s| == 2 then [Sextet(a / 4), Sextet(a % 4 * 16 + b / 16)]
        else
          var c := s[2] as nat;
          [Sextet(a / 4), Sextet(a % 4 * 16 + b / 16), Sextet(b % 16 * 4 + c / 64), Sextet(c % 64)] + Whole(s[3..])
  }

  /** What follows them: the left-over bits filled up with zeros, and the padding. */
  function Tail(s: string): (r: string)
    requires IsBytes(s)
  {
    if |s| % 3 == 0 then ""
    else
      var last := s[|s| - 1] as nat;
      if |s| % 3 == 1 then [Sextet(last % 4 * 16), '=', '='] else [Sextet(last % 16 * 4), '=']
  }

  function RfcEncode(s: string): string
    requires IsBytes(s)
  {
    Whole(s) + Tail(s)
  }

  // ------------------------------------------------------- the accumulator loop

  function Pow2(n: nat): (r: nat)
    ensures r > 0
  {
    if n == 0 then 1 else 2 * Pow2(n - 1)
  }

  /** `val >> n & 0x3F`. */
  function Bits(val: nat, n: nat): nat {
    val / Pow2(n) % 64
  }

  /** The characters one more byte completes. */
  function Added(s: string, c: char): string
    requires IsBytes(s) && c as int < 256
  {
    var b := c as nat;
    if |s| % 3 == 0 then [Sextet(b / 4)]
    else
      var last := s[|s| - 1] as nat;
      if |s| % 3 == 1 then [Sextet(last % 4 * 16 + b / 16)]
      else [Sextet(last % 16 * 4 + b / 64), Sextet(b % 64)]
  }

  /** The four characters of the first three bytes. */
  function Quad(s: string): string
    requires IsBytes(s) && |s| >= 3
  {
    var (a, b, c) := (s[0] as nat, s[1] as nat, s[2] as nat);
    [Sextet(a / 4), Sextet(a % 4 * 16 + b / 16), Sextet(b % 16 * 4 + c / 64), Sextet(c % 64)]
  }

  lemma {:induction false} WholeByQuad(s: string, rest: string, w: string)
    requires IsBytes(s) && |s| >= 3 && rest == s[3..] && w == Whole(rest)
    ensures Whole(s) == Quad(s) + w
  {}

  lemma {:induction false} ShortSnoc(s: string, c: char)
    requires IsBytes(s) && c as int < 256 && |s| < 3
    ensures IsBytes(s + [c]) && Whole(s + [c]) == Whole(s) + Added(s, c)
  {
    if |s| == 2 { assert (s + [c])[3..] == ""; }
  }

  lemma {:induction false} WholeSnoc(s: string, c: char)
    requires IsBytes(s) && c as int < 256
    ensures IsBytes(s + [c]) && Whole(s + [c]) == Whole(s) + Added(s, c)
    decreases |s|
  {
    if |s| >= 3 {
      WholeSnoc(s[3..], c);
      assert (s + [c])[3..] == s[3..] + [c];
      AddedByGroups(s, c);
      WholeByQuad(s, s[3..], Whole(s[3..]));
      WholeByQuad(s + [c], s[3..] + [c], Whole(s[3..] + [c]));
      Regroup(Quad(s), Whole(s[3..]), Added(s, c));
    } else {
      ShortSnoc(s, c);
    }
  }

  lemma {:induction false} AddedByGroups(s: string, c: char)
    requires IsBytes(s) && c as int < 256 && |s| >= 3
    ensures Added(s, c) == Added(s[3..], c)
  {
    assert |s[3..]| % 3 == |s| % 3;
    assert s[3..] != "" ==> s[3..][|s| - 4] == s[|s| - 1];
  }

  /** The bits not yet written: none, two or four, according to the number of bytes read. */
  predicate Pending(s: string, val: nat, valb: int)
    requires IsBytes(s)
  {
    && valb == -6 + 2 * (|s| % 3)
    && (|s| % 3 == 1 ==> val % 4 == s[|s| - 1] as nat % 4)
    && (|s| % 3 == 2 ==> val % 16 == s[|s| - 1] as nat % 16)
  }

  lemma {:induction false} Powers()
    ensures Pow2(0) == 1 && Pow2(2) == 4 && Pow2(4) == 16 && Pow2(6) == 64
  {
    assert Pow2(1) == 2 && Pow2(3) == 8 && Pow2(5) == 32;
  }

  /** The inner loop of one byte writes exactly the completed characters, although the accumulator keeps
      its value only modulo 2^32. */
  method PushByte(ghost s: string, c: char, val0: nat, valb0: int) returns (val: nat, valb: int, out: string)
    requires IsBytes(s) && c as int < 256 && Pending(s, val0, valb0)
    ensures IsBytes(s + [c]) && Pending(s + [c], val, valb)
    ensures out == Added(s, c)
  {
    out := "";
    val := (val0 * 256 + c as nat) % INT_RANGE;
    Taken(val0, c as nat, val);
    valb := valb0 + 8;
    ghost var added := Added(s, c);
    while valb >= 0
      invariant |out| <= |added| && out == added[..|out|]
      invariant valb == 2 + 2 * (|s| % 3) - 6 * |out|
      decreases valb + 6
    {
      NextBits(s, c, val0, val, valb, |out|);
      TableIsRfc(Bits(val, valb));
      out := out + [TABLE[Bits(val, valb)]];
      valb := valb - 6;
    }
    assert |out| == |added|;
    PendingAfter(s, c, val0, val, valb);
  }

  lemma {:induction false} WrapKeepsLowBits(x: nat)
    ensures x % INT_RANGE % 4096 == x % 4096
  {
    var r, q := x % INT_RANGE, x / INT_RANGE;
    assert x == 4096 * (1048576 * q) + r;
  }

  lemma {:induction false} ShiftBy2(h: nat, l: nat)
    requires l < 4096
    ensures (4096 * h + l) / 4 % 64 == l / 4 % 64
  {
    assert (4096 * h + l) / 4 == 64 * (16 * h) + l / 4;
  }

  lemma {:induction false} ShiftBy4(h: nat, l: nat)
    requires l < 4096
    ensures (4096 * h + l) / 16 % 64 == l / 16 % 64
  {
    assert (4096 * h + l) / 16 == 64 * (4 * h) + l / 16;
  }

  lemma {:induction false} ShiftBy6(h: nat, l: nat)
    requires l < 4096
    ensures (4096 * h + l) / 64 % 64 == l / 64 % 64
  {
    assert (4096 * h + l) / 64 == 64 * h + l / 64;
  }

  lemma {:induction false} ShiftBy0(h: nat, l: nat)
    requires l < 4096
    ensures (4096 * h + l) / 1 % 64 == l / 1 % 64
  {
    assert 4096 * h + l == 64 * (64 * h) + l;
  }

  lemma {:induction false} LowBytes(val0: nat, b: nat)
    requires b < 256
    ensures (val0 * 256 + b) % 4096 == val0 % 16 * 256 + b
  {
    var q, r := val0 / 16, val0 % 16;
    assert val0 * 256 + b == 4096 * q + (r * 256 + b);
  }

  lemma {:induction false} SplitByte(h: nat, b: nat)
    requires h < 16 && b < 256
    ensures (h * 256 + b) % 64 == b % 64
    ensures (h * 256 + b) / 4 % 64 == b / 4
    ensures (h * 256 + b) / 16 % 64 == h % 4 * 16 + b / 16
    ensures (h * 256 + b) / 64 % 64 == h * 4 + b / 64
  {
    assert (h * 256 + b) == 64 * (4 * h) + b;
    assert (h * 256 + b) / 4 == 64 * h + b / 4;
    var x := b / 16;
    assert (h * 256 + b) / 16 == 16 * h + x;
    assert 16 * h + x == 64 * (h / 4) + (h % 4 * 16 + x);
    assert (h * 256 + b) / 64 == 4 * h + b / 64;
  }

  /** What the shifts take from an accumulator whose twelve low bits are `h` and `b`. */
  lemma {:induction false} TakenBits(val: nat, h: nat, b: nat)
    requires h < 16 && b < 256 && val % 4096 == h * 256 + b
    ensures val / 1 % 64 == b % 64 && val / 4 % 64 == b / 4
    ensures val / 16 % 64 == h % 4 * 16 + b / 16 && val / 64 % 64 == h * 4 + b / 64
  {
    var (q, l) := (val / 4096, h * 256 + b);
    assert val == 4096 * q + l;
    ShiftBy0(q, l);
    ShiftBy2(q, l);
    ShiftBy4(q, l);
    ShiftBy6(q, l);
    SplitByte(h, b);
  }

  lemma {:induction false} KeptBits(val: nat, h: nat, b: nat)
    requires b < 256 && val % 4096 == h * 256 + b
    ensures val % 16 == b % 16 && val % 4 == b % 4
  {
    var q := val / 4096;
    assert val == 4096 * q + (h * 256 + b);
    DropSixteens(256 * q + 16 * h, b);
    DropFours(1024 * q + 64 * h, b);
  }

  lemma {:induction false} DropSixteens(q: nat, b: nat)
    ensures (16 * q + b) % 16 == b % 16
  {}

  lemma {:induction false} DropFours(q: nat, b: nat)
    ensures (4 * q + b) % 4 == b % 4
  {}

  lemma {:induction false} Taken(val0: nat, b: nat, val: nat)
    requires b < 256 && val == (val0 * 256 + b) % INT_RANGE
    ensures val % 4096 == val0 % 16 * 256 + b
  {
    WrapKeepsLowBits(val0 * 256 + b);
    LowBytes(val0, b);
  }

  /** The six bits the inner loop takes are those of the next completed character. */
  lemma {:induction false} NextBits(s: string, c: char, val0: nat, val: nat, valb: nat, j: nat)
    requires IsBytes(s) && c as int < 256 && Pending(s, val0, -6 + 2 * (|s| % 3))
    requires val % 4096 == val0 % 16 * 256 + c as nat
    requires valb == 2 + 2 * (|s| % 3) - 6 * j
    ensures j < |Added(s, c)| && Sextet(Bits(val, valb)) == Added(s, c)[j]
  {
    Powers();
    TakenBits(val, val0 % 16, c as nat);
    var k := |s| % 3;
    if k == 0 {
      assert valb == 2 && Bits(val, valb) == c as nat / 4;
    } else if k == 1 {
      LowPair(val0);
      assert valb == 4 && Bits(val, valb) == val0 % 4 * 16 + c as nat / 16;
    } else if j == 0 {
      assert valb == 6 && Bits(val, valb) == val0 % 16 * 4 + c as nat / 64;
    } else {
      assert valb == 0 && Bits(val, valb) == c as nat % 64;
    }
  }

  lemma {:induction false} LowPair(x: nat)
    ensures x % 16 % 4 == x % 4
  {}

  lemma {:induction false} PendingAfter(s: string, c: char, val0: nat, val: nat, valb: int)
    requires IsBytes(s) && c as int < 256 && valb == 2 + 2 * (|s| % 3) - 6 * |Added(s, c)|
    requires val % 4096 == val0 % 16 * 256 + c as nat
    ensures IsBytes(s + [c]) && Pending(s + [c], val, valb)
  {
    KeptBits(val, val0 % 16, c as nat);
    NextCount(|s|);
  }

  lemma {:induction false} NextCount(n: nat)
    ensures (n + 1) % 3 == if n % 3 == 2 then 0 else n % 3 + 1
  {}

  /** `base64_encode`. */
  method Base64Encode(s: string) returns (out: string)
    requires IsBytes(s)
    ensures out == RfcEncode(s)
  {
    out := "";
    var val: nat, valb := 0, -6;
    for i := 0 to |s|
      invariant IsBytes(s[..i]) && out == Whole(s[..i]) && Pending(s[..i], val, valb)
    {
      WholeSnoc(s[..i], s[i]);
      var more;
      val, valb, more := PushByte(s[..i], s[i], val, valb);
      out := out + more;
      assert s[..i] + [s[i]] == s[..i + 1];
    }
    assert s[..|s|] == s;
    var last := LastCharacter(s, val, valb);
    out := Pad(out + last);
    PaddingIsTail(s);
  }

  /** The bits left over after the loop. */
  method LastCharacter(s: string, val: nat, valb: int) returns (last: string)
    requires IsBytes(s) && Pending(s, val, valb)
    ensures last == LastSextet(s)
  {
    last := "";
    if valb > -6 {
      Powers();
      LastBits(s, val, valb);
      TableIsRfc(Bits(val * 256 % INT_RANGE, valb + 8));
      last := [TABLE[Bits(val * 256 % INT_RANGE, valb + 8)]];
    }
  }

  /** The final loop: '=' up to a multiple of four. */
  method Pad(s: string) returns (out: string)
    ensures out == s + Padding(|s|)
  {
    out := s;
    while |out| % 4 != 0
      invariant out + Padding(|out|) == s + Padding(|s|)
      decreases (4 - |out| % 4) % 4
    {
      PaddingStep(|out|);
      Regroup(out, "=", Padding(|out| + 1));
      out := out + "=";
    }
  }

  function Padding(n: nat): string {
    if n % 4 == 0 then "" else if n % 4 == 3 then "=" else if n % 4 == 2 then "==" else "==="
  }

  lemma {:induction false} PaddingStep(n: nat)
    requires n % 4 != 0
    ensures Padding(n) == "=" + Padding(n + 1) && (4 - (n + 1) % 4) % 4 < (4 - n % 4) % 4
  {}

  function LastSextet(s: string): string
    requires IsBytes(s)
  {
    if |s| % 3 == 0 then ""
    else if |s| % 3 == 1 then [Sextet(s[|s| - 1] as nat % 4 * 16)]
    else [Sextet(s[|s| - 1] as nat % 16 * 4)]
  }

  lemma {:induction false} PaddingIsTail(s: string)
    requires IsBytes(s)
    ensures Whole(s) + LastSextet(s) + Padding(|Whole(s) + LastSextet(s)|) == RfcEncode(s)
  {
    Lengths(|s|);
    var u := Whole(s) + LastSextet(s);
    assert LastSextet(s) + Padding(|u|) == Tail(s);
    Regroup(Whole(s), LastSextet(s), Padding(|u|));
  }

  lemma {:induction false} Lengths(n: nat)
    ensures n % 3 == 0 ==> (n + n / 3) % 4 == 0
    ensures n % 3 == 1 ==> (n + n / 3 + 1) % 4 == 2
    ensures n % 3 == 2 ==> (n + n / 3 + 1) % 4 == 3
  {
    assert n == 3 * (n / 3) + n % 3;
  }

  lemma {:induction false} LastBits(s: string, val: nat, valb: int)
    requires IsBytes(s) && Pending(s, val, valb) && |s| % 3 != 0
    ensures [Sextet(Bits(val * 256 % INT_RANGE, valb + 8))] == LastSextet(s)
  {
    Powers();
    var last := val * 256 % INT_RANGE;
    Taken(val, 0, last);
    TakenBits(last, val % 16, 0);
    LowPair(val);
    if |s| % 3 == 1 {
      assert valb + 8 == 4 && Bits(last, valb + 8) == val % 4 * 16;
    } else {
      assert valb + 8 == 6 && Bits(last, valb + 8) == val % 16 * 4;
    }
  }

  // ------------------------------------------------------------- consequences

  /** The value of a character of the alphabet. */
  function SextetValue(c: char): (r: nat)
    ensures r < 64
  {
    if 'A' <= c <= 'Z' then c as nat - 'A' as nat
    else if 'a' <= c <= 'z' then c as nat - 'a' as nat + 26
    else if '0' <= c <= '9' then c as nat - '0' as nat + 52
    else if c == '+' then 62
    else 63
  }

  lemma {:induction false} SextetReads(v: nat)
    requires v < 64
    ensures SextetValue(Sextet(v)) == v && Sextet(v) != '='
  {}

  /** Section 4 of the RFC, read backwards: four characters give three bytes, padding marks fewer. */
  function RfcDecode(t: string): string
    decreases |t|
  {
    if |t| < 4 then ""
    else
      var (p, q, r, s) := (SextetValue(t[0]), SextetValue(t[1]), SextetValue(t[2]), SextetValue(t[3]));
      var b0 := (p * 4 + q / 16) as char;
      if t[2] == '=' then [b0]
      else
        var b1 := (q % 16 * 16 + r / 4) as char;
        if t[3] == '=' then [b0, b1]
        else [b0, b1, (r % 4 * 64 + s) as char] + RfcDecode(t[4..])
  }

  lemma {:induction false} Recombine(a: nat, b: nat, c: nat)
    requires a < 256 && b < 256 && c < 256
    ensures a / 4 * 4 + (a % 4 * 16 + b / 16) / 16 == a
    ensures (a % 4 * 16 + b / 16) % 16 * 16 + (b % 16 * 4 + c / 64) / 4 == b
    ensures (b % 16 * 4 + c / 64) % 4 * 64 + c % 64 == c
  {}

  lemma {:induction false} EncodeByGroups(s: string)
    requires IsBytes(s)
    ensures |s| >= 3 ==> RfcEncode(s) == Quad(s) + RfcEncode(s[3..])
  {
    if |s| >= 3 {
      assert Tail(s) == Tail(s[3..]) by {
        assert |s[3..]| % 3 == |s| % 3;
        assert s[3..] != "" ==> s[3..][|s| - 4] == s[|s| - 1];
      }
      WholeByQuad(s, s[3..], Whole(s[3..]));
      Regroup(Quad(s), Whole(s[3..]), Tail(s[3..]));
    }
  }

  /** The encoding is undone by the decoder of the RFC, on every byte string. */
  lemma {:induction false} DecodeOfEncode(s: string)
    requires IsBytes(s)
    ensures RfcDecode(RfcEncode(s)) == s
    decreases |s|
  {
    if |s| >= 3 {
      DecodeOfEncode(s[3..]);
      DecodeGroup(s, RfcEncode(s[3..]));
    } else if |s| == 2 {
      DecodeTwo(s);
    } else if |s| == 1 {
      DecodeOne(s);
    }
  }

  lemma {:induction false} ThreeInFront(s: string)
    requires |s| >= 3
    ensures s == [s[0], s[1], s[2]] + s[3..]
  {}

  lemma {:induction false} DecodeGroup(s: string, rest: string)
    requires IsBytes(s) && |s| >= 3 && rest == RfcEncode(s[3..]) && RfcDecode(rest) == s[3..]
    ensures RfcDecode(RfcEncode(s)) == s
  {
    EncodeByGroups(s);
    ReadGroup(s, rest, s[3..]);
    ThreeInFront(s);
  }

  lemma {:induction false} ReadGroup(s: string, rest: string, read: string)
    requires IsBytes(s) && |s| >= 3 && read == RfcDecode(rest)
    ensures RfcDecode(Quad(s) + rest) == [s[0], s[1], s[2]] + read
  {
    var (x, y, z) := (s[0] as nat, s[1] as nat, s[2] as nat);
    ReadQuad(x / 4, x % 4 * 16 + y / 16, y % 16 * 4 + z / 64, z % 64, rest);
    Recombine(x, y, z);
  }

  lemma {:induction false} DecodeTwo(s: string)
    requires IsBytes(s) && |s| == 2
    ensures RfcDecode(RfcEncode(s)) == s
  {
    var (a, b) := (s[0] as nat, s[1] as nat);
    assert RfcEncode(s) == [Sextet(a / 4), Sextet(a % 4 * 16 + b / 16), Sextet(b % 16 * 4), '='];
    ReadTriple(a / 4, a % 4 * 16 + b / 16, b % 16 * 4);
    Recombine(a, b, 0);
    assert s == [s[0], s[1]];
  }

  lemma {:induction false} DecodeOne(s: string)
    requires IsBytes(s) && |s| == 1
    ensures RfcDecode(RfcEncode(s)) == s
  {
    var a := s[0] as nat;
    assert RfcEncode(s) == [Sextet(a / 4), Sextet(a % 4 * 16), '=', '='];
    ReadDouble(a / 4, a % 4 * 16);
    Recombine(a, 0, 0);
    assert s == [s[0]];
  }

  lemma {:induction false} ReadTriple(p: nat, q: nat, r: nat)
    requires p < 64 && q < 64 && r < 64
    ensures RfcDecode([Sextet(p), Sextet(q), Sextet(r), '='])
         == [(p * 4 + q / 16) as char, (q % 16 * 16 + r / 4) as char]
  {
    SextetReads(p);
    SextetReads(q);
    SextetReads(r);
  }

  lemma {:induction false} ReadDouble(p: nat, q: nat)
    requires p < 64 && q < 64
    ensures RfcDecode([Sextet(p), Sextet(q), '=', '=']) == [(p * 4 + q / 16) as char]
  {
    SextetReads(p);
    SextetReads(q);
  }

  lemma {:induction false} ReadQuad(p: nat, q: nat, r: nat, v: nat, rest: string)
    requires p < 64 && q < 64 && r < 64 && v < 64
    ensures RfcDecode([Sextet(p), Sextet(q), Sextet(r), Sextet(v)] + rest)
         == [(p * 4 + q / 16) as char, (q % 16 * 16 + r / 4) as char, (r % 4 * 64 + v) as char] + RfcDecode(rest)
  {
    SextetReads(p);
    SextetReads(q);
    SextetReads(r);
    SextetReads(v);
    assert ([Sextet(p), Sextet(q), Sextet(r), Sextet(v)] + rest)[4..] == rest;
  }

  lemma {:induction false} EncodedLength(s: string)
    requires IsBytes(s)
    ensures |RfcEncode(s)| == (|s| + 2) / 3 * 4
  {}
}
