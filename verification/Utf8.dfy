/**
 UTF-8 as section 3 of RFC 3629 defines it. A Dafny `char` is a Unicode scalar value, so a
 `string` is what a Rust `str` holds and `Encode` gives the bytes that `as_bytes` shows.
 */
module Utf8 {
  import opened Prelude

  type byte = x: int | 0 <= x < 256

  function EncodeChar(c: char): (bs: seq<byte>)
    ensures 1 <= |bs| <= 4
    ensures |bs| == 1 <==> c as int < 0x80
    ensures |bs| == 1 ==> bs == [c as int]
    ensures |bs| > 1 ==> forall b | b in bs :: b >= 0x80
  {
    var n := c as int;
    if n < 0x80 then [n]
    else if n < 0x800 then [0xC0 + n / 64, 0x80 + n % 64]
    else if n < 0x1_0000 then [0xE0 + n / 4096, 0x80 + n / 64 % 64, 0x80 + n % 64]
    else [0xF0 + n / 262144, 0x80 + n / 4096 % 64, 0x80 + n / 64 % 64, 0x80 + n % 64]
  }

  function Encode(s: string): (bs: seq<byte>)
    ensures |s| <= |bs|
    ensures s == [] <==> bs == []
  {
    if s == [] then [] else EncodeChar(s[0]) + Encode(s[1..])
  }

  /** The number of bytes of the scalar that `first` starts, 0 when none starts with it. */
  function Width(first: byte): (w: nat)
    ensures w <= 4
  {
    if first <= 0x7F then 1
    else if 0xC2 <= first <= 0xDF then 2
    else if 0xE0 <= first <= 0xEF then 3
    else if 0xF0 <= first <= 0xF4 then 4
    else 0
  }

  predicate Continuation(b: byte) {
    0x80 <= b <= 0xBF
  }

  /** The bits that a byte adds to a scalar: what is left above its marker, shifted into place. */
  function Scaled(b: byte, marker: int, weight: int): int {
    (b - marker) * weight
  }

  /** The well-formed byte sequences of one scalar (the table in section 4 of RFC 3629). */
  function DecodeChar(bs: seq<byte>): (c: Option<char>)
    ensures c.Some? ==> 1 <= |bs| <= 4
  {
    if |bs| == 1 && bs[0] < 0x80 then
      Some(bs[0] as char)
    else if |bs| == 2 && 0xC2 <= bs[0] <= 0xDF && Continuation(bs[1]) then
      Some((Scaled(bs[0], 0xC0, 64) + Scaled(bs[1], 0x80, 1)) as char)
    else if |bs| == 3 && 0xE0 <= bs[0] <= 0xEF && Continuation(bs[1]) && Continuation(bs[2])
            && (bs[0] == 0xE0 ==> bs[1] >= 0xA0) && (bs[0] == 0xED ==> bs[1] <= 0x9F) then
      Some((Scaled(bs[0], 0xE0, 4096) + Scaled(bs[1], 0x80, 64) + Scaled(bs[2], 0x80, 1)) as char)
    else if |bs| == 4 && 0xF0 <= bs[0] <= 0xF4 && Continuation(bs[1]) && Continuation(bs[2])
            && Continuation(bs[3]) && (bs[0] == 0xF0 ==> bs[1] >= 0x90) && (bs[0] == 0xF4 ==> bs[1] <= 0x8F) then
      Some((Scaled(bs[0], 0xF0, 262144) + Scaled(bs[1], 0x80, 4096)
            + Scaled(bs[2], 0x80, 64) + Scaled(bs[3], 0x80, 1)) as char)
    else
      None
  }

  /** What `std::str::from_utf8` returns: the string that `bs` encodes, if there is one. */
  function Decode(bs: seq<byte>): Option<string> {
    if bs == [] then Some("")
    else
      var w := Width(bs[0]);
      if w == 0 || |bs| < w then None
      else match (DecodeChar(bs[..w]), Decode(bs[w..]))
           case (Some(c), Some(s)) => Some([c] + s)
           case _ => None
  }

  lemma DecodeEncodedThree(c: char)
    requires 0x800 <= c as int < 0x1_0000
    ensures DecodeChar(EncodeChar(c)) == Some(c)
  {
    var n := c as int;
    assert n / 64 == n / 4096 * 64 + n / 64 % 64;
    assert n / 64 * 64 + n % 64 == n;
  }

  lemma DecodeEncodedFour(c: char)
    requires 0x1_0000 <= c as int
    ensures DecodeChar(EncodeChar(c)) == Some(c)
  {
    var n := c as int;
    assert n / 4096 == n / 262144 * 64 + n / 4096 % 64;
    assert n / 64 == n / 4096 * 64 + n / 64 % 64;
    assert n / 64 * 64 + n % 64 == n;
  }

  lemma DecodeEncodedChar(c: char)
    ensures DecodeChar(EncodeChar(c)) == Some(c)
    ensures Width(EncodeChar(c)[0]) == |EncodeChar(c)|
  {
    var n := c as int;
    if 0x1_0000 <= n {
      DecodeEncodedFour(c);
    } else if 0x800 <= n {
      DecodeEncodedThree(c);
    } else {
      assert n / 64 * 64 + n % 64 == n;
    }
  }

  lemma SplitSextet(high: int, low: int)
    requires 0 <= low < 64
    ensures (high * 64 + low) / 64 == high && (high * 64 + low) % 64 == low
  {
  }

  lemma EncodeDecodedTwo(bs: seq<byte>)
    requires |bs| == 2 && DecodeChar(bs).Some?
    ensures EncodeChar(DecodeChar(bs).value) == bs
  {
    SplitSextet(Scaled(bs[0], 0xC0, 1), Scaled(bs[1], 0x80, 1));
  }

  lemma EncodeDecodedThree(bs: seq<byte>)
    requires |bs| == 3 && DecodeChar(bs).Some?
    ensures EncodeChar(DecodeChar(bs).value) == bs
  {
    var n := DecodeChar(bs).value as int;
    var high := Scaled(bs[0], 0xE0, 64) + Scaled(bs[1], 0x80, 1);
    SplitSextet(Scaled(bs[0], 0xE0, 1), Scaled(bs[1], 0x80, 1));
    SplitSextet(high, Scaled(bs[2], 0x80, 1));
    assert n / 64 == high && n / 4096 == high / 64;
  }

  lemma EncodeDecodedFour(bs: seq<byte>)
    requires |bs| == 4 && DecodeChar(bs).Some?
    ensures EncodeChar(DecodeChar(bs).value) == bs
  {
    var n := DecodeChar(bs).value as int;
    var top := Scaled(bs[0], 0xF0, 64) + Scaled(bs[1], 0x80, 1);
    var high := top * 64 + Scaled(bs[2], 0x80, 1);
    SplitSextet(Scaled(bs[0], 0xF0, 1), Scaled(bs[1], 0x80, 1));
    SplitSextet(top, Scaled(bs[2], 0x80, 1));
    SplitSextet(high, Scaled(bs[3], 0x80, 1));
    assert n / 64 == high && n / 4096 == high / 64 && n / 262144 == high / 64 / 64;
  }

  lemma EncodeDecodedChar(bs: seq<byte>)
    requires DecodeChar(bs).Some?
    ensures EncodeChar(DecodeChar(bs).value) == bs
    ensures Width(bs[0]) == |bs|
  {
    if |bs| == 2 {
      EncodeDecodedTwo(bs);
    } else if |bs| == 3 {
      EncodeDecodedThree(bs);
    } else if |bs| == 4 {
      EncodeDecodedFour(bs);
    }
  }

  /** Decoding inverts encoding, also in front of more text. */
  lemma {:induction false} DecodeEncoded(s: string)
    ensures Decode(Encode(s)) == Some(s)
  {
    if s != [] {
      var head, tail := EncodeChar(s[0]), Encode(s[1..]);
      DecodeEncodedChar(s[0]);
      DecodeEncoded(s[1..]);
      assert (head + tail)[..|head|] == head && (head + tail)[|head|..] == tail;
      assert [s[0]] + s[1..] == s;
    }
  }

  /** Encoding inverts decoding, so exactly the encoded strings decode. */
  lemma {:induction false} EncodeDecoded(bs: seq<byte>)
    requires Decode(bs).Some?
    ensures Encode(Decode(bs).value) == bs
  {
    hide DecodeChar, EncodeChar, Width;
    if bs != [] {
      var w := Width(bs[0]);
      EncodeDecodedChar(bs[..w]);
      EncodeDecoded(bs[w..]);
      assert bs == bs[..w] + bs[w..];
    }
  }

  lemma EncodeInjective(s: string, t: string)
    requires Encode(s) == Encode(t)
    ensures s == t
  {
    DecodeEncoded(s);
    DecodeEncoded(t);
  }

  lemma EncodeStep(c: char, s: string)
    ensures Encode([c] + s) == EncodeChar(c) + Encode(s)
  {
    assert ([c] + s)[1..] == s;
  }

  lemma {:induction false} EncodeConcat(s: string, t: string)
    ensures Encode(s + t) == Encode(s) + Encode(t)
  {
    hide EncodeChar, Encode;
    if s == [] {
      assert s + t == t;
    } else {
      EncodeConcat(s[1..], t);
      EncodeStep(s[0], s[1..] + t);
      EncodeStep(s[0], s[1..]);
      assert s == [s[0]] + s[1..] && s + t == [s[0]] + (s[1..] + t);
    }
  }
}
