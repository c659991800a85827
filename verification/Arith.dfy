/** Division facts behind the buffer index and offset computations. */
module Arith {

  function Min(a: int, b: int): int {
    if a <= b then a else b
  }

  /** Number of buffers of w bytes that n bytes fill. */
  function Full(n: nat, w: nat): nat
    requires w > 0
  {
    n / w
  }

  /** Bytes in the buffer after those. */
  function Rem(n: nat, w: nat): nat
    requires w > 0
  {
    n % w
  }

  /** Number of buffers of w bytes that n bytes occupy. */
  function NumBufs(n: nat, w: nat): nat
    requires w > 0
  {
    Full(n, w) + if n % w == 0 then 0 else 1
  }

  lemma DivBounds(n: nat, w: nat)
    requires w > 0
    ensures n / w * w <= n < n / w * w + w
    ensures n == n / w * w + n % w
    ensures n == Full(n, w) * w + Rem(n, w) && Rem(n, w) < w
  {
  }

  lemma MulMono(a: nat, b: nat, w: nat)
    requires a <= b
    ensures a * w <= b * w
  {
  }

  lemma MulSucc(a: nat, w: nat)
    ensures (a + 1) * w == a * w + w
  {
  }

  /** Different buffer indices are at least one buffer apart. */
  lemma MulGap(a: nat, b: nat, w: nat)
    ensures a < b ==> a * w + w <= b * w
  {
    if a < b {
      MulMono(a + 1, b, w);
    }
  }

  lemma DivUnique(n: nat, w: nat, q: nat)
    requires w > 0 && q * w <= n < q * w + w
    ensures n / w == q && n % w == n - q * w
    ensures Full(n, w) == q && Rem(n, w) == n - q * w
  {
    DivBounds(n, w);
    MulGap(q, n / w, w);
    MulGap(n / w, q, w);
  }

  /** The first n / w buffers are full and NumBufs of them cover the n bytes. */
  lemma NumBufsBounds(n: nat, w: nat)
    requires w > 0
    ensures n <= NumBufs(n, w) * w < n + w
    ensures n / w <= NumBufs(n, w) <= n / w + 1
  {
    DivBounds(n, w);
    MulSucc(n / w, w);
  }

  /** NumBufs(n, w) is the only number of buffers that covers n bytes with less than w to spare. */
  lemma CoverUnique(n: nat, w: nat, k: nat)
    requires w > 0 && n <= k * w < n + w
    ensures NumBufs(n, w) == k
  {
    NumBufsBounds(n, w);
    MulGap(k, NumBufs(n, w), w);
    MulGap(NumBufs(n, w), k, w);
  }

  // ---------- Powers and bits ----------

  function Pow(b: nat, n: nat): nat {
    if n == 0 then 1 else b * Pow(b, n - 1)
  }

  /** Bit k of a number, the lowest being bit 0. */
  function Bit(x: nat, k: nat): nat {
    if k == 0 then x % 2 else Bit(x / 2, k - 1)
  }

  lemma {:induction false} ZeroBits(k: nat)
    ensures Bit(0, k) == 0
  {
    if k > 0 {
      ZeroBits(k - 1);
    }
  }

  lemma {:induction false} PowPositive(b: nat, n: nat)
    requires b > 0
    ensures Pow(b, n) > 0
  {
    if n > 0 {
      PowPositive(b, n - 1);
    }
  }

  /** The lowest n bits of 2 to the n, less one, are ones. */
  lemma {:induction false} OnesBits(n: nat, k: nat)
    requires k < n
    ensures Pow(2, n) > 0 && Bit(Pow(2, n) - 1, k) == 1
  {
    PowPositive(2, n - 1);
    assert (Pow(2, n) - 1) / 2 == Pow(2, n - 1) - 1;
    if k > 0 {
      OnesBits(n - 1, k - 1);
    }
  }

  /** A number of m bits below another. */
  lemma {:induction false} BitSplit(high: nat, low: nat, m: nat, k: nat)
    requires low < Pow(2, m)
    ensures Bit(Pow(2, m) * high + low, k) == if k < m then Bit(low, k) else Bit(high, k - m)
    decreases m
  {
    if m > 0 {
      var p := Pow(2, m - 1);
      assert Pow(2, m) * high == 2 * (p * high);
      assert (2 * (p * high) + low) / 2 == p * high + low / 2;
      assert (2 * (p * high) + low) % 2 == low % 2;
      if k > 0 {
        BitSplit(high, low / 2, m - 1, k - 1);
      }
    }
  }

  lemma PowersOfTwo()
    ensures Pow(2, 7) == 0x80 && Pow(2, 25) == 0x200_0000
  {
    assert Pow(2, 5) == 0x20;
    assert Pow(2, 10) == 0x400;
    assert Pow(2, 15) == 0x8000;
    assert Pow(2, 20) == 0x10_0000;
  }

  /** Arithmetic modulo m may reduce early. */
  lemma ModEarly(x: nat, p: nat, c: nat, m: nat)
    requires m > 0
    ensures (x % m * p + c) % m == (x * p + c) % m
  {
    var q, r := x / m, x % m;
    var t := r * p + c;
    DivBounds(x, m);
    DivBounds(t, m);
    Distribute(q * m, r, p);
    Swap(q, m, p);
    Distribute(q * p, t / m, m);
    DivUnique(x * p + c, m, q * p + t / m);
  }

  lemma Swap(a: nat, b: nat, c: nat)
    ensures a * b * c == a * c * b
  {
  }

  lemma Distribute(a: nat, b: nat, p: nat)
    ensures (a + b) * p == a * p + b * p
  {
  }
}
