/**
 * The byte representation of a Rust `str`: the UTF-8 encoding of its
 * Unicode scalar values. `Encode` is what `str::as_bytes` exposes; `Decode`
 * is the strict validating inverse (it rejects overlong forms, surrogates
 * and values above U+10FFFF), used to say what "the bytes of a string" means.
 */
module Utf8 {
  import opened Types
  import opened Wrappers

  predicate IsScalarValue(n: int) {
    0 <= n < 0xD800 || 0xE000 <= n < 0x11_0000
  }

  predicate IsContinuation(b: byte) {
    0x80 <= b < 0xC0
  }

  /** Number of bytes UTF-8 uses for `c`. */
  function Width(c: char): (w: nat)
    ensures 1 <= w <= 4
  {
    var n := c as int;
    if n < 0x80 then 1 else if n < 0x800 then 2 else if n < 0x1_0000 then 3 else 4
  }

  /** Length of the sequence a leading byte announces; 0 for a byte that cannot lead. */
  function LeadWidth(b: byte): (w: nat)
    ensures w <= 4
    ensures w != 0 ==> !IsContinuation(b)
  {
    if b < 0x80 then 1
    else if 0xC2 <= b < 0xE0 then 2
    else if 0xE0 <= b < 0xF0 then 3
    else if 0xF0 <= b < 0xF5 then 4
    else 0
  }

  function EncodeChar(c: char): (bs: seq<byte>)
    ensures |bs| == Width(c)
    ensures LeadWidth(bs[0]) == |bs|
    ensures forall i :: 1 <= i < |bs| ==> IsContinuation(bs[i])
  {
    var n := c as int;
    if n < 0x80 then
      [n as byte]
    else if n < 0x800 then
      [(0xC0 + n / 64) as byte, (0x80 + n % 64) as byte]
    else if n < 0x1_0000 then
      [(0xE0 + n / 4096) as byte, (0x80 + n / 64 % 64) as byte, (0x80 + n % 64) as byte]
    else
      [(0xF0 + n / 262144) as byte, (0x80 + n / 4096 % 64) as byte,
       (0x80 + n / 64 % 64) as byte, (0x80 + n % 64) as byte]
  }

  /** The UTF-8 encoding of a whole string. */
  function Encode(s: string): (bs: seq<byte>)
    ensures |s| <= |bs| <= 4 * |s|
    decreases |s|
  {
    if s == [] then [] else EncodeChar(s[0]) + Encode(s[1..])
  }

  /** An ASCII string is its own byte sequence, one byte per character. */
  lemma {:induction false} EncodeAscii(s: string)
    requires forall i :: 0 <= i < |s| ==> s[i] as int < 0x80
    ensures |Encode(s)| == |s|
    ensures forall i :: 0 <= i < |s| ==> Encode(s)[i] as int == s[i] as int
    decreases |s|
  {
    if s != [] {
      EncodeAscii(s[1..]);
      assert Encode(s) == [s[0] as int as byte] + Encode(s[1..]);
    }
  }

  /** The scalar value a complete sequence `u` spells, if it is well formed. */
  function DecodeScalar(u: seq<byte>): (r: Option<char>)
    requires 1 <= |u| && LeadWidth(u[0]) == |u|
  {
    var b0 := u[0] as int;
    if |u| == 1 then
      Some(b0 as char)
    else if !(forall i :: 1 <= i < |u| ==> IsContinuation(u[i])) then
      None
    else if |u| == 2 then
      var n := (b0 - 0xC0) * 64 + (u[1] as int - 0x80);
      Some(n as char)
    else if |u| == 3 then
      var n := (b0 - 0xE0) * 4096 + (u[1] as int - 0x80) * 64 + (u[2] as int - 0x80);
      if 0x800 <= n && IsScalarValue(n) then Some(n as char) else None
    else
      var n := (b0 - 0xF0) * 262144 + (u[1] as int - 0x80) * 4096
               + (u[2] as int - 0x80) * 64 + (u[3] as int - 0x80);
      if 0x1_0000 <= n < 0x11_0000 then Some(n as char) else None
  }

  /** Strict UTF-8 decoding: `None` for any ill-formed or truncated input. */
  function Decode(bs: seq<byte>): (r: Option<string>)
    decreases |bs|
  {
    if bs == [] then Some([])
    else
      var w := LeadWidth(bs[0]);
      if w == 0 || |bs| < w then None
      else
        match DecodeScalar(bs[..w])
        case None => None
        case Some(c) =>
          match Decode(bs[w..])
          case None => None
          case Some(rest) => Some([c] + rest)
  }

  /** Reassembling the six-bit groups of `n` gives back `n`. */
  lemma SixBitGroups(n: int)
    requires 0 <= n
    ensures n / 64 % 64 * 64 + n % 64 == n % 4096
    ensures n / 4096 % 64 * 4096 + n % 4096 == n % 262144
  {
    var q := n / 64;
    assert n == q * 64 + n % 64;
    assert q / 64 == n / 4096;
    var p := n / 4096;
    assert n == p * 4096 + n % 4096;
    assert p / 64 == n / 262144;
  }

  lemma DecodeEncodeChar(c: char)
    ensures DecodeScalar(EncodeChar(c)) == Some(c)
  {
    var n := c as int;
    var u := EncodeChar(c);
    if 0x800 <= n {
      SixBitGroups(n);
    }
    if n < 0x80 {
    } else if n < 0x800 {
      assert (u[0] as int - 0xC0) * 64 + (u[1] as int - 0x80) == n;
    } else if n < 0x1_0000 {
      assert (u[0] as int - 0xE0) * 4096 + (u[1] as int - 0x80) * 64 + (u[2] as int - 0x80) == n;
    } else {
      assert (u[0] as int - 0xF0) * 262144 + (u[1] as int - 0x80) * 4096
             + (u[2] as int - 0x80) * 64 + (u[3] as int - 0x80) == n;
    }
  }

  /** `q * 64 + r` has quotient `q` and remainder `r` when `r` is a six-bit group. */
  lemma DivMod64(q: int, r: int)
    requires 0 <= q && 0 <= r < 64
    ensures (q * 64 + r) / 64 == q && (q * 64 + r) % 64 == r
  {
  }

  lemma EncodeCharOfDecoded2(u: seq<byte>, c: char)
    requires |u| == 2 && LeadWidth(u[0]) == 2
    requires DecodeScalar(u) == Some(c)
    ensures EncodeChar(c) == u
  {
    var n := c as int;
    assert n == (u[0] as int - 0xC0) * 64 + (u[1] as int - 0x80);
    DivMod64(u[0] as int - 0xC0, u[1] as int - 0x80);
  }

  lemma EncodeCharOfDecoded3(u: seq<byte>, c: char)
    requires |u| == 3 && LeadWidth(u[0]) == 3
    requires DecodeScalar(u) == Some(c)
    ensures EncodeChar(c) == u
  {
    var n := c as int;
    var hi := (u[0] as int - 0xE0) * 64 + (u[1] as int - 0x80);
    assert n == hi * 64 + (u[2] as int - 0x80);
    DivMod64(hi, u[2] as int - 0x80);
    DivMod64(u[0] as int - 0xE0, u[1] as int - 0x80);
    assert n / 4096 == hi / 64;
  }

  lemma EncodeCharOfDecoded4(u: seq<byte>, c: char)
    requires |u| == 4 && LeadWidth(u[0]) == 4
    requires DecodeScalar(u) == Some(c)
    ensures EncodeChar(c) == u
  {
    var n := c as int;
    var hi := (u[0] as int - 0xF0) * 64 + (u[1] as int - 0x80);
    var mid := hi * 64 + (u[2] as int - 0x80);
    assert n == mid * 64 + (u[3] as int - 0x80);
    DivMod64(mid, u[3] as int - 0x80);
    DivMod64(hi, u[2] as int - 0x80);
    DivMod64(u[0] as int - 0xF0, u[1] as int - 0x80);
    assert n / 4096 == mid / 64;
    assert n / 262144 == hi / 64;
  }

  /** A well-formed byte group is the encoding of the character it spells. */
  lemma EncodeCharOfDecoded(u: seq<byte>, c: char)
    requires 1 <= |u| && LeadWidth(u[0]) == |u|
    requires DecodeScalar(u) == Some(c)
    ensures EncodeChar(c) == u
  {
    if |u| == 2 {
      EncodeCharOfDecoded2(u, c);
    } else if |u| == 3 {
      EncodeCharOfDecoded3(u, c);
    } else if |u| == 4 {
      EncodeCharOfDecoded4(u, c);
    }
  }

  /** Decoding undoes encoding: the bytes of a string spell that string. */
  lemma {:induction false} DecodeEncode(s: string)
    ensures Decode(Encode(s)) == Some(s)
    decreases |s|
  {
    if s != [] {
      var u := EncodeChar(s[0]);
      var bs := Encode(s);
      assert bs == u + Encode(s[1..]);
      assert bs[..|u|] == u;
      assert bs[|u|..] == Encode(s[1..]);
      DecodeEncodeChar(s[0]);
      DecodeEncode(s[1..]);
      assert s == [s[0]] + s[1..];
    }
  }

  /** Only the encoding of `s` decodes to `s`: the byte representation is unique. */
  lemma {:induction false} EncodeDecode(bs: seq<byte>, s: string)
    requires Decode(bs) == Some(s)
    ensures Encode(s) == bs
    decreases |bs|
  {
    if bs != [] {
      var w := LeadWidth(bs[0]);
      var u := bs[..w];
      var c := DecodeScalar(u).value;
      var rest := Decode(bs[w..]).value;
      assert s == [c] + rest;
      EncodeCharOfDecoded(u, c);
      EncodeDecode(bs[w..], rest);
      assert s[0] == c && s[1..] == rest;
      assert Encode(s) == EncodeChar(c) + Encode(rest);
      assert bs == u + bs[w..];
    }
  }

  /** Encoding distributes over concatenation. */
  lemma {:induction false} EncodeAppend(s: string, t: string)
    ensures Encode(s + t) == Encode(s) + Encode(t)
    decreases |s|
  {
    if s != [] {
      assert (s + t)[0] == s[0];
      assert (s + t)[1..] == s[1..] + t;
      EncodeAppend(s[1..], t);
      assert Encode(s + t) == EncodeChar(s[0]) + Encode(s[1..] + t);
    } else {
      assert s + t == t;
    }
  }
}
