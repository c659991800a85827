/** Bytes, C strings and the 32-bit words of the record header. */
module Bytes {

  type byte = x: int | 0 <= x < 256

  const TWO_TO_THE_32: nat := 0x1_0000_0000

  type uint32 = x: int | 0 <= x < 0x1_0000_0000

  /** Keys and values: std::string contents. */
  type Text = seq<byte>

  predicate NulFree(s: Text) {
    forall i :: 0 <= i < |s| ==> s[i] != 0
  }

  /** What std::string(p, 0, n) builds from a char pointer: it converts p to a
      C string first, so the result stops at the first NUL, if one comes before n. */
  function CStr(p: Text, n: nat): (r: Text)
    requires n <= |p|
    ensures r <= p[..n] && NulFree(r)
    ensures |r| < n ==> p[|r|] == 0
  {
    if n == 0 || p[0] == 0 then [] else [p[0]] + CStr(p[1..], n - 1)
  }

  /** CStr keeps all n bytes exactly when none of them is NUL. */
  lemma CStrWhole(p: Text, n: nat)
    requires n <= |p|
    ensures |CStr(p, n)| == n <==> NulFree(p[..n])
    ensures NulFree(p[..n]) ==> CStr(p, n) == p[..n]
  {
    var r := CStr(p, n);
    if |r| == n {
      assert r == p[..n];
    } else {
      assert p[..n][|r|] == 0;
    }
  }

  /** Little-endian layout of a uint32_t in memory. */
  function U32Bytes(n: uint32): (b: seq<byte>)
    ensures |b| == 4
  {
    [n % 256, n / 256 % 256, n / 256 / 256 % 256, n / 256 / 256 / 256]
  }

  function U32At(b: seq<byte>, i: nat): uint32
    requires i + 4 <= |b|
  {
    var b0: int, b1: int, b2: int, b3: int := b[i], b[i + 1], b[i + 2], b[i + 3];
    b0 + 256 * b1 + 65536 * b2 + 16777216 * b3
  }

  lemma U32RoundTrip(n: uint32)
    ensures U32At(U32Bytes(n), 0) == n
  {
    var q1 := n / 256;
    var q2 := q1 / 256;
    var q3 := q2 / 256;
    assert n == 256 * q1 + n % 256 && q1 == 256 * q2 + q1 % 256 && q2 == 256 * q3 + q2 % 256;
  }

  lemma U32BytesOfAt(b: seq<byte>, i: nat)
    requires i + 4 <= |b|
    ensures U32Bytes(U32At(b, i)) == b[i..i + 4]
  {
    var b0: int, b1: int, b2: int, b3: int := b[i], b[i + 1], b[i + 2], b[i + 3];
    var n: int := U32At(b, i);
    assert n % 256 == b0 && n / 256 == b1 + 256 * (b2 + 256 * b3);
    assert n / 256 % 256 == b1 && n / 256 / 256 == b2 + 256 * b3;
  }
}
