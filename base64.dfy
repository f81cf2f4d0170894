/**
 * Base64 encoding with padding, as in section 4 of RFC 4648 and PHP's
 * `base64_encode`: every three bytes become four characters of the standard
 * alphabet, and a final group of one or two bytes is padded with '='.
 */
module Base64 {
  import opened Text

  type byte = x: int | 0 <= x < 256

  /** The standard alphabet: A-Z, a-z, 0-9, '+' and '/'. */
  predicate IsStdChar(c: char) {
    ('A' <= c <= 'Z') || ('a' <= c <= 'z') || ('0' <= c <= '9') || c == '+' || c == '/'
  }

  /** Table 1 of RFC 4648: the character for a 6-bit value. */
  function Alpha(v: int): (c: char)
    requires 0 <= v < 64
    ensures IsStdChar(c)
  {
    if v < 26 then ('A' as int + v) as char
    else if v < 52 then ('a' as int + v - 26) as char
    else if v < 62 then ('0' as int + v - 52) as char
    else if v == 62 then '+'
    else '/'
  }

  /** Three bytes as four characters. */
  function Quad(b0: byte, b1: byte, b2: byte): (q: string)
    ensures |q| == 4 && All(q, IsStdChar)
  {
    [Alpha(b0 / 4), Alpha((b0 % 4) * 16 + b1 / 16), Alpha((b1 % 16) * 4 + b2 / 64), Alpha(b2 % 64)]
  }

  function Encode(b: seq<byte>): (r: string)
    ensures |r| == 4 * ((|b| + 2) / 3)
    decreases |b|
  {
    if |b| == 0 then []
    else if |b| == 1 then [Alpha(b[0] / 4), Alpha((b[0] % 4) * 16), '=', '=']
    else if |b| == 2 then [Alpha(b[0] / 4), Alpha((b[0] % 4) * 16 + b[1] / 16), Alpha((b[1] % 16) * 4), '=']
    else Quad(b[0], b[1], b[2]) + Encode(b[3..])
  }

  /** The number of data characters for `n` bytes, padding excluded. */
  function DataLength(n: nat): nat {
    if n == 0 then 0
    else if n == 1 then 2
    else if n == 2 then 3
    else 4 + DataLength(n - 3)
  }

  /**
   * The encoding is data characters followed by at most two '=', and there is
   * padding only after some data.
   */
  lemma {:induction false} EncodeSplit(b: seq<byte>) returns (d: string, p: string)
    ensures Encode(b) == d + p
    ensures All(d, IsStdChar) && |d| == DataLength(|b|)
    ensures |p| <= 2 && forall i :: 0 <= i < |p| ==> p[i] == '='
    ensures p != [] ==> d != []
    decreases |b|
  {
    if |b| == 0 {
      d, p := [], [];
    } else if |b| == 1 {
      d, p := Encode(b)[..2], "==";
      assert Encode(b) == d + p;
    } else if |b| == 2 {
      d, p := Encode(b)[..3], "=";
      assert Encode(b) == d + p;
    } else {
      var q := Quad(b[0], b[1], b[2]);
      var d', p' := EncodeSplit(b[3..]);
      d, p := q + d', p';
    }
  }
}
