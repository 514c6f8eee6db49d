/**
 * Strict UTF-8, as Python's `bytes.decode('utf8')` applies it: only the
 * well-formed byte sequences of the Unicode standard decode; overlong forms,
 * encoded surrogates, code points above U+10FFFF, stray continuation bytes and
 * truncated sequences are rejected. A Dafny `char` is a Unicode scalar value,
 * so a `string` is exactly what a successful decode can produce.
 */
module Utf8 {
  import opened Wire
  import opened Results

  predicate IsContinuation(b: byte) {
    0x80 <= b < 0xC0
  }

  /** The UTF-8 bytes of one scalar value: the shortest form, one to four bytes. */
  function EncodeChar(c: char): (r: seq<byte>)
    ensures 1 <= |r| <= 4
    ensures r[0] == 0 <==> c == '\0'
    ensures |r| > 1 ==> forall i :: 0 <= i < |r| ==> r[i] >= 0x80
  {
    var cp := c as int;
    if cp < 0x80 then
      [cp]
    else if cp < 0x800 then
      [0xC0 + cp / 64, 0x80 + cp % 64]
    else if cp < 0x1_0000 then
      [0xE0 + cp / 4096, 0x80 + cp / 64 % 64, 0x80 + cp % 64]
    else
      [0xF0 + cp / 262144, 0x80 + cp / 4096 % 64, 0x80 + cp / 64 % 64, 0x80 + cp % 64]
  }

  function Encode(s: string): (r: seq<byte>)
    ensures |s| <= |r| <= 4 * |s|
  {
    if s == [] then [] else EncodeChar(s[0]) + Encode(s[1..])
  }

  /**
   * Decodes the scalar value at the front of bs and says how many bytes it
   * took, or None when bs does not start with a well-formed sequence.
   */
  function DecodeChar(bs: seq<byte>): (r: Option<(char, nat)>)
    ensures r.Some? ==> 1 <= r.value.1 <= |bs| && r.value.1 <= 4
  {
    if |bs| == 0 then None
    else
      var b0 := bs[0] as int;
      if b0 < 0x80 then
        Some((b0 as char, 1))
      else if b0 < 0xC0 then
        None
      else if b0 < 0xE0 then
        if |bs| < 2 || !IsContinuation(bs[1]) then None
        else
          var cp := (b0 - 0xC0) * 64 + (bs[1] as int - 0x80);
          if cp < 0x80 then None else Some((cp as char, 2))
      else if b0 < 0xF0 then
        if |bs| < 3 || !IsContinuation(bs[1]) || !IsContinuation(bs[2]) then None
        else
          var cp := (b0 - 0xE0) * 4096 + (bs[1] as int - 0x80) * 64 + (bs[2] as int - 0x80);
          if cp < 0x800 || 0xD800 <= cp < 0xE000 then None else Some((cp as char, 3))
      else if b0 < 0xF8 then
        if |bs| < 4 || !IsContinuation(bs[1]) || !IsContinuation(bs[2]) || !IsContinuation(bs[3]) then None
        else
          var cp := (b0 - 0xF0) * 262144 + (bs[1] as int - 0x80) * 4096 + (bs[2] as int - 0x80) * 64 + (bs[3] as int - 0x80);
          if cp < 0x1_0000 || 0x11_0000 <= cp then None else Some((cp as char, 4))
      else
        None
  }

  /** Strict decoding of a whole byte string; None when any part of it is ill-formed. */
  function Decode(bs: seq<byte>): Option<string>
    decreases |bs|
  {
    if bs == [] then Some([])
    else
      match DecodeChar(bs)
      case None => None
      case Some((c, n)) =>
        match Decode(bs[n..])
        case None => None
        case Some(rest) => Some([c] + rest)
  }

  lemma DivMod(x: int, d: int)
    requires x >= 0 && d > 0
    ensures x == x / d * d + x % d && 0 <= x % d < d && x / d >= 0
  {
  }

  lemma DecodeEncodeTwo(c: char, tail: seq<byte>)
    requires 0x80 <= c as int < 0x800
    ensures DecodeChar(EncodeChar(c) + tail) == Some((c, 2))
  {
    var cp := c as int;
    var hi, lo := cp / 64, cp % 64;
    DivMod(cp, 64);
    assert EncodeChar(c) == [0xC0 + hi, 0x80 + lo];
    var bs := EncodeChar(c) + tail;
    assert bs[0] == 0xC0 + hi && bs[1] == 0x80 + lo;
    assert (bs[0] as int - 0xC0) * 64 + (bs[1] as int - 0x80) == cp;
  }

  lemma DecodeEncodeThree(c: char, tail: seq<byte>)
    requires 0x800 <= c as int < 0x1_0000
    ensures DecodeChar(EncodeChar(c) + tail) == Some((c, 3))
  {
    var cp := c as int;
    var q, d := cp / 64, cp % 64;
    DivMod(cp, 64);
    var a, b := q / 64, q % 64;
    DivMod(q, 64);
    assert cp == a * 4096 + b * 64 + d;
    assert cp / 4096 == a;
    assert EncodeChar(c) == [0xE0 + a, 0x80 + b, 0x80 + d];
    var bs := EncodeChar(c) + tail;
    assert bs[0] == 0xE0 + a && bs[1] == 0x80 + b && bs[2] == 0x80 + d;
  }

  lemma DecodeEncodeFour(c: char, tail: seq<byte>)
    requires 0x1_0000 <= c as int
    ensures DecodeChar(EncodeChar(c) + tail) == Some((c, 4))
  {
    var cp := c as int;
    var q1, d := cp / 64, cp % 64;
    DivMod(cp, 64);
    var q2, b2 := q1 / 64, q1 % 64;
    DivMod(q1, 64);
    var a, b1 := q2 / 64, q2 % 64;
    DivMod(q2, 64);
    assert cp == a * 262144 + b1 * 4096 + b2 * 64 + d;
    assert cp / 262144 == a;
    assert cp / 4096 == q2;
    assert EncodeChar(c) == [0xF0 + a, 0x80 + b1, 0x80 + b2, 0x80 + d];
    var bs := EncodeChar(c) + tail;
    assert bs[0] == 0xF0 + a && bs[1] == 0x80 + b1 && bs[2] == 0x80 + b2 && bs[3] == 0x80 + d;
  }

  lemma DivMod64(q: int, r: int)
    requires 0 <= r < 64
    ensures (q * 64 + r) / 64 == q && (q * 64 + r) % 64 == r
  {
  }

  lemma DivBy4096(q: int, r: int)
    requires 0 <= r < 4096
    ensures (q * 4096 + r) / 4096 == q
  {
  }

  lemma DivBy262144(q: int, r: int)
    requires 0 <= r < 262144
    ensures (q * 262144 + r) / 262144 == q
  {
  }

  lemma EncodeDecodeTwo(bs: seq<byte>)
    requires DecodeChar(bs).Some? && DecodeChar(bs).value.1 == 2
    ensures EncodeChar(DecodeChar(bs).value.0) == bs[..2]
  {
    var a, d := bs[0] as int - 0xC0, bs[1] as int - 0x80;
    DivMod64(a, d);
  }

  lemma EncodeDecodeThree(bs: seq<byte>)
    requires DecodeChar(bs).Some? && DecodeChar(bs).value.1 == 3
    ensures EncodeChar(DecodeChar(bs).value.0) == bs[..3]
  {
    var a, b, d := bs[0] as int - 0xE0, bs[1] as int - 0x80, bs[2] as int - 0x80;
    var cp := a * 4096 + b * 64 + d;
    DivMod64(a * 64 + b, d);
    DivMod64(a, b);
    DivBy4096(a, b * 64 + d);
    assert DecodeChar(bs).value.0 as int == cp;
  }

  lemma EncodeDecodeFour(bs: seq<byte>)
    requires DecodeChar(bs).Some? && DecodeChar(bs).value.1 == 4
    ensures EncodeChar(DecodeChar(bs).value.0) == bs[..4]
  {
    var a, b1, b2, d := bs[0] as int - 0xF0, bs[1] as int - 0x80, bs[2] as int - 0x80, bs[3] as int - 0x80;
    var cp := a * 262144 + b1 * 4096 + b2 * 64 + d;
    DivMod64(a * 4096 + b1 * 64 + b2, d);
    DivMod64(a * 64 + b1, b2);
    DivMod64(a, b1);
    DivBy4096(a * 64 + b1, b2 * 64 + d);
    DivBy262144(a, b1 * 4096 + b2 * 64 + d);
    assert DecodeChar(bs).value.0 as int == cp;
  }

  /** The shortest form of a character decodes back to it, whatever follows. */
  lemma DecodeEncodeChar(c: char, tail: seq<byte>)
    ensures DecodeChar(EncodeChar(c) + tail) == Some((c, |EncodeChar(c)|))
  {
    if c as int < 0x80 {
    } else if c as int < 0x800 {
      DecodeEncodeTwo(c, tail);
    } else if c as int < 0x1_0000 {
      DecodeEncodeThree(c, tail);
    } else {
      DecodeEncodeFour(c, tail);
    }
  }

  /** A well-formed sequence is exactly the shortest form of the character it decodes to. */
  lemma EncodeDecodeChar(bs: seq<byte>)
    requires DecodeChar(bs).Some?
    ensures EncodeChar(DecodeChar(bs).value.0) == bs[..DecodeChar(bs).value.1]
  {
    var n := DecodeChar(bs).value.1;
    if n == 2 {
      EncodeDecodeTwo(bs);
    } else if n == 3 {
      EncodeDecodeThree(bs);
    } else if n == 4 {
      EncodeDecodeFour(bs);
    }
  }

  /** Every string survives encoding followed by strict decoding. */
  lemma {:induction false} DecodeEncode(s: string)
    ensures Decode(Encode(s)) == Some(s)
  {
    if s != [] {
      var head := EncodeChar(s[0]);
      DecodeEncodeChar(s[0], Encode(s[1..]));
      assert (head + Encode(s[1..]))[|head|..] == Encode(s[1..]);
      DecodeEncode(s[1..]);
      assert Encode(s) == head + Encode(s[1..]);
      assert s == [s[0]] + s[1..];
    }
  }

  /** Strict decoding accepts only shortest forms: a decoded string re-encodes to the very bytes it came from. */
  lemma {:induction false} EncodeDecode(bs: seq<byte>)
    requires Decode(bs).Some?
    ensures Encode(Decode(bs).value) == bs
    decreases |bs|
  {
    if bs != [] {
      var c, n := DecodeChar(bs).value.0, DecodeChar(bs).value.1;
      EncodeDecodeChar(bs);
      EncodeDecode(bs[n..]);
      var s := Decode(bs).value;
      assert s[0] == c && s[1..] == Decode(bs[n..]).value;
      assert bs == bs[..n] + bs[n..];
    }
  }

  /** The encoding holds a NUL byte exactly when the string holds U+0000. */
  lemma {:induction false} EncodeHasNul(s: string)
    ensures 0 in Encode(s) <==> '\0' in s
  {
    if s != [] {
      EncodeHasNul(s[1..]);
      var head := EncodeChar(s[0]);
      assert 0 in head <==> s[0] == '\0' by {
        if |head| > 1 {
          assert forall i :: 0 <= i < |head| ==> head[i] != 0;
        } else {
          assert head == [head[0]];
        }
      }
      assert Encode(s) == head + Encode(s[1..]);
      assert s == [s[0]] + s[1..];
    }
  }
}
