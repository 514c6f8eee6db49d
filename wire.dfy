/** Machine integers and byte strings as the inotify record layout uses them. */
module Wire {

  /** One octet of a buffer read from the inotify descriptor. */
  type byte = b: int | 0 <= b < 0x100

  /** A C `unsigned int` (struct format code `I`). */
  type u32 = x: int | 0 <= x < 0x1_0000_0000

  /** A C `int` (struct format code `i`). */
  type i32 = x: int | -0x8000_0000 <= x < 0x8000_0000

  /** The four bytes of a 32-bit word, least significant first (little-endian byte order). */
  function Le32(x: u32): (r: seq<byte>)
    ensures |r| == 4
  {
    [x % 256, x / 256 % 256, x / 256 / 256 % 256, x / 256 / 256 / 256]
  }

  /** The unsigned 32-bit word stored little-endian in s[i..i + 4]. */
  function U32At(s: seq<byte>, i: nat): (x: u32)
    requires i + 4 <= |s|
  {
    s[i] as int + 256 * s[i + 1] as int + 0x1_0000 * s[i + 2] as int + 0x100_0000 * s[i + 3] as int
  }

  lemma Div256(q: int, r: int)
    requires 0 <= r < 256
    ensures (q * 256 + r) / 256 == q && (q * 256 + r) % 256 == r
  {
  }

  /** Reading back the four bytes of a word gives the word, wherever they sit. */
  lemma U32AtLe32(x: u32, s: seq<byte>, i: nat)
    requires i + 4 <= |s| && s[i..i + 4] == Le32(x)
    ensures U32At(s, i) == x
  {
    var q1 := x / 256;
    var q2 := q1 / 256;
    var q3 := q2 / 256;
    assert x == q1 * 256 + x % 256;
    assert q1 == q2 * 256 + q1 % 256;
    assert q2 == q3 * 256 + q2 % 256;
    assert s[i] == x % 256 && s[i + 1] == q1 % 256 && s[i + 2] == q2 % 256 && s[i + 3] == q3 by {
      assert s[i..i + 4][0] == s[i] && s[i..i + 4][1] == s[i + 1];
      assert s[i..i + 4][2] == s[i + 2] && s[i..i + 4][3] == s[i + 3];
    }
  }

  /** Packing the word read at i gives the four bytes there back. */
  lemma Le32U32At(s: seq<byte>, i: nat)
    requires i + 4 <= |s|
    ensures Le32(U32At(s, i)) == s[i..i + 4]
  {
    var b0, b1, b2, b3 := s[i] as int, s[i + 1] as int, s[i + 2] as int, s[i + 3] as int;
    var x := U32At(s, i);
    Div256(b1 + 256 * b2 + 0x1_0000 * b3, b0);
    Div256(b2 + 256 * b3, b1);
    Div256(b3, b2);
    assert x % 256 == b0 && x / 256 == b1 + 256 * b2 + 0x1_0000 * b3;
  }

  /** Reinterprets the bits of an unsigned 32-bit word as a two's-complement C int. */
  function ToSigned(u: u32): (x: i32)
    ensures x >= 0 <==> u < 0x8000_0000
    ensures x % 0x1_0000_0000 == u
  {
    if u < 0x8000_0000 then u else u - 0x1_0000_0000
  }

  /** The two's-complement bit pattern of a C int. */
  function FromSigned(x: i32): (u: u32)
    ensures ToSigned(u) == x
  {
    if x < 0 then x + 0x1_0000_0000 else x
  }

  /** A run of NUL bytes, as used for the padding after an event name. */
  function Zeros(n: nat): (r: seq<byte>)
    ensures |r| == n
    ensures forall i :: 0 <= i < n ==> r[i] == 0
  {
    seq(n, _ => 0)
  }

  /**
   * The bytes of s before its first NUL, or all of s when it holds no NUL:
   * what `s.split(b'\x00', 1)[0]` and the value of a C char buffer both give.
   */
  function TakeUntilNul(s: seq<byte>): seq<byte> {
    if s == [] || s[0] == 0 then [] else [s[0]] + TakeUntilNul(s[1..])
  }

  /** The cut is a NUL-free prefix of s that ends at the first NUL or at the end of s. */
  lemma {:induction false} TakeUntilNulCut(s: seq<byte>)
    ensures var r := TakeUntilNul(s);
      r <= s && 0 !in r && (r == s || s[|r|] == 0)
  {
    if s != [] && s[0] != 0 {
      TakeUntilNulCut(s[1..]);
    }
  }

  /** NUL padding after a NUL-free string is cut off again by TakeUntilNul. */
  lemma {:induction false} TakeUntilNulPadded(s: seq<byte>, n: nat)
    requires 0 !in s
    ensures TakeUntilNul(s + Zeros(n)) == s
  {
    if s == [] {
      assert n > 0 ==> (s + Zeros(n))[0] == 0;
    } else {
      assert (s + Zeros(n))[1..] == s[1..] + Zeros(n);
      TakeUntilNulPadded(s[1..], n);
    }
  }

  /**
   * Python's `s[lo:hi]` for non-negative bounds: both bounds are clamped to the
   * length, and an empty range gives the empty string.
   */
  function Slice(s: seq<byte>, lo: nat, hi: nat): (r: seq<byte>)
  {
    if hi <= lo || |s| <= lo then [] else if hi <= |s| then s[lo..hi] else s[lo..]
  }

  /**
   * A slice holds exactly the bytes of s from lo to hi, both clamped to the
   * length of s and hi to no less than lo, and so no more than hi - lo of them.
   */
  lemma SliceBytes(s: seq<byte>, lo: nat, hi: nat)
    ensures var a := if lo < |s| then lo else |s|;
      var b := if hi < a then a else if hi < |s| then hi else |s|;
      Slice(s, lo, hi) == s[a..b]
    ensures |Slice(s, lo, hi)| <= if hi < lo then 0 else hi - lo
    ensures lo <= |s| ==> Slice(s, lo, hi) <= s[lo..]
  {
  }
}
