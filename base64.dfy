/**
 * `Convert.ToBase64String`: the base 64 encoding of section 4 of RFC 4648
 * (alphabet A-Z, a-z, 0-9, '+', '/', padded with '=' to a multiple of four
 * characters), and the decoding of the same section as its inverse.
 */
module Base64 {
  import opened Wrappers

  type byte = b: int | 0 <= b < 256

  /** The character of the alphabet with value `i`. */
  function CharOf(i: int): char
    requires 0 <= i < 64
  {
    if i < 26 then ('A' as int + i) as char
    else if i < 52 then ('a' as int + (i - 26)) as char
    else if i < 62 then ('0' as int + (i - 52)) as char
    else if i == 62 then '+'
    else '/'
  }

  /** The value of an alphabet character; `None` for any other character. */
  function ValueOf(c: char): (r: Option<int>)
    ensures r.Some? ==> 0 <= r.value < 64 && CharOf(r.value) == c
  {
    if 'A' <= c <= 'Z' then Some(c as int - 'A' as int)
    else if 'a' <= c <= 'z' then Some(c as int - 'a' as int + 26)
    else if '0' <= c <= '9' then Some(c as int - '0' as int + 52)
    else if c == '+' then Some(62)
    else if c == '/' then Some(63)
    else None
  }

  predicate IsAlphabetChar(c: char) {
    ValueOf(c).Some?
  }

  lemma ValueOfCharOf(i: int)
    requires 0 <= i < 64
    ensures ValueOf(CharOf(i)) == Some(i)
  {
  }

  const Padding: char := '='

  /** Three bytes become four six-bit values. */
  function EncodeBlock(b0: byte, b1: byte, b2: byte): string {
    [CharOf(b0 / 4), CharOf(b0 % 4 * 16 + b1 / 16), CharOf(b1 % 16 * 4 + b2 / 64), CharOf(b2 % 64)]
  }

  function Encode(bs: seq<byte>): string
    decreases |bs|
  {
    if |bs| >= 3 then EncodeBlock(bs[0], bs[1], bs[2]) + Encode(bs[3..])
    else if |bs| == 2 then [CharOf(bs[0] / 4), CharOf(bs[0] % 4 * 16 + bs[1] / 16), CharOf(bs[1] % 16 * 4), Padding]
    else if |bs| == 1 then [CharOf(bs[0] / 4), CharOf(bs[0] % 4 * 16), Padding, Padding]
    else []
  }

  /** How many '=' end the encoding of `n` bytes. */
  function PaddingCount(n: nat): (r: nat)
    ensures r <= 2 && (n == 0 ==> r == 0)
  {
    if n >= 3 then PaddingCount(n - 3) else if n == 0 then 0 else 3 - n
  }

  /** Every group of up to three bytes takes four characters. */
  lemma {:induction false} EncodeLength(bs: seq<byte>)
    ensures |Encode(bs)| == (|bs| + 2) / 3 * 4
    decreases |bs|
  {
    if |bs| >= 3 {
      EncodeLength(bs[3..]);
      assert (|bs| + 2) / 3 == (|bs[3..]| + 2) / 3 + 1;
    }
  }

  /** The four characters of a full group are all from the alphabet. */
  lemma BlockChars(b0: byte, b1: byte, b2: byte)
    ensures forall i :: 0 <= i < 4 ==> IsAlphabetChar(EncodeBlock(b0, b1, b2)[i])
  {
    ValueOfCharOf(b0 / 4);
    ValueOfCharOf(b0 % 4 * 16 + b1 / 16);
    ValueOfCharOf(b1 % 16 * 4 + b2 / 64);
    ValueOfCharOf(b2 % 64);
  }

  /** The unused positions of the last group are '=' and every other
    * character is from the alphabet. */
  lemma {:induction false} EncodeShape(bs: seq<byte>)
    ensures |Encode(bs)| == (|bs| + 2) / 3 * 4
    ensures forall i :: 0 <= i < |Encode(bs)| - PaddingCount(|bs|) ==> IsAlphabetChar(Encode(bs)[i])
    ensures forall i :: |Encode(bs)| - PaddingCount(|bs|) <= i < |Encode(bs)| ==> Encode(bs)[i] == Padding
    decreases |bs|
  {
    EncodeLength(bs);
    if |bs| >= 3 {
      var rest := bs[3..];
      EncodeShape(rest);
      BlockChars(bs[0], bs[1], bs[2]);
      var e, block, tail := Encode(bs), EncodeBlock(bs[0], bs[1], bs[2]), Encode(rest);
      assert e == block + tail;
      var p := PaddingCount(|bs|);
      assert p == PaddingCount(|rest|);
      assert p <= |tail| by {
        if |rest| > 0 {
          EncodeLength(rest);
        }
      }
      forall i | 0 <= i < |e| - p
        ensures IsAlphabetChar(e[i])
      {
        if i < 4 {
          assert e[i] == block[i];
        } else {
          assert e[i] == tail[i - 4];
        }
      }
      forall i | |e| - p <= i < |e|
        ensures e[i] == Padding
      {
        assert e[i] == tail[i - 4];
      }
    } else if |bs| == 2 {
      ValueOfCharOf(bs[0] / 4);
      ValueOfCharOf(bs[0] % 4 * 16 + bs[1] / 16);
      ValueOfCharOf(bs[1] % 16 * 4);
    } else if |bs| == 1 {
      ValueOfCharOf(bs[0] / 4);
      ValueOfCharOf(bs[0] % 4 * 16);
    }
  }

  /** Four six-bit values become three bytes. */
  function DecodeBlock(v0: int, v1: int, v2: int, v3: int): seq<byte>
    requires 0 <= v0 < 64 && 0 <= v1 < 64 && 0 <= v2 < 64 && 0 <= v3 < 64
  {
    [v0 * 4 + v1 / 16, v1 % 16 * 16 + v2 / 4, v2 % 4 * 64 + v3]
  }

  function Decode(s: string): Option<seq<byte>>
    decreases |s|
  {
    if s == [] then Some([])
    else if |s| < 4 then None
    else
      var v0, v1, v2, v3 := ValueOf(s[0]), ValueOf(s[1]), ValueOf(s[2]), ValueOf(s[3]);
      if |s| == 4 && s[2] == Padding && s[3] == Padding then
        if v0.Some? && v1.Some? then Some([v0.value * 4 + v1.value / 16]) else None
      else if |s| == 4 && s[3] == Padding then
        if v0.Some? && v1.Some? && v2.Some? then Some([v0.value * 4 + v1.value / 16, v1.value % 16 * 16 + v2.value / 4]) else None
      else if v0.Some? && v1.Some? && v2.Some? && v3.Some? then
        match Decode(s[4..])
        case Some(rest) => Some(DecodeBlock(v0.value, v1.value, v2.value, v3.value) + rest)
        case None => None
      else None
  }

  lemma BlockRoundTrip(b0: byte, b1: byte, b2: byte)
    ensures DecodeBlock(b0 / 4, b0 % 4 * 16 + b1 / 16, b1 % 16 * 4 + b2 / 64, b2 % 64) == [b0, b1, b2]
  {
    assert (b0 % 4 * 16 + b1 / 16) / 16 == b0 % 4;
    assert (b0 % 4 * 16 + b1 / 16) % 16 == b1 / 16;
    assert (b1 % 16 * 4 + b2 / 64) / 4 == b1 % 16;
    assert (b1 % 16 * 4 + b2 / 64) % 4 == b2 / 64;
  }

  lemma DecodeTwoBytes(b0: byte, b1: byte)
    ensures Decode(Encode([b0, b1])) == Some([b0, b1])
  {
    ValueOfCharOf(b0 / 4);
    ValueOfCharOf(b0 % 4 * 16 + b1 / 16);
    ValueOfCharOf(b1 % 16 * 4);
    assert (b0 % 4 * 16 + b1 / 16) / 16 == b0 % 4;
    assert (b0 % 4 * 16 + b1 / 16) % 16 == b1 / 16;
    assert (b1 % 16 * 4) / 4 == b1 % 16;
  }

  lemma DecodeOneByte(b0: byte)
    ensures Decode(Encode([b0])) == Some([b0])
  {
    ValueOfCharOf(b0 / 4);
    ValueOfCharOf(b0 % 4 * 16);
    assert (b0 % 4 * 16) / 16 == b0 % 4;
  }

  /** A full block in front of any well-formed rest decodes to its three bytes. */
  lemma DecodeFullBlock(b0: byte, b1: byte, b2: byte, rest: string, tail: seq<byte>)
    requires Decode(rest) == Some(tail)
    requires rest == [] || |rest| >= 4
    ensures Decode(EncodeBlock(b0, b1, b2) + rest) == Some([b0, b1, b2] + tail)
  {
    var i0, i1, i2, i3 := b0 / 4, b0 % 4 * 16 + b1 / 16, b1 % 16 * 4 + b2 / 64, b2 % 64;
    ValueOfCharOf(i0);
    ValueOfCharOf(i1);
    ValueOfCharOf(i2);
    ValueOfCharOf(i3);
    var s := EncodeBlock(b0, b1, b2) + rest;
    assert s[4..] == rest;
    assert s[3] != Padding;
    BlockRoundTrip(b0, b1, b2);
  }

  /** Decoding the encoding of any byte string gives the byte string back. */
  lemma {:induction false} DecodeEncode(bs: seq<byte>)
    ensures Decode(Encode(bs)) == Some(bs)
    decreases |bs|
  {
    if |bs| >= 3 {
      DecodeEncode(bs[3..]);
      EncodeLength(bs[3..]);
      DecodeFullBlock(bs[0], bs[1], bs[2], Encode(bs[3..]), bs[3..]);
      assert bs == [bs[0], bs[1], bs[2]] + bs[3..];
    } else if |bs| == 2 {
      DecodeTwoBytes(bs[0], bs[1]);
      assert bs == [bs[0], bs[1]];
    } else if |bs| == 1 {
      DecodeOneByte(bs[0]);
      assert bs == [bs[0]];
    }
  }
}
