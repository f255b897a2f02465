/** Bytes and half-words as numbers: their bits, nibbles and little-endian forms. `& 0xf0 >> 4`
    is division by 16, `& 0x0f` the remainder, `hi << 8 | lo` a sum. */
module Bytes {
  type byte = n: nat | n < 0x100
  type half = n: nat | n < 0x1_0000

  // ----- Bits -----

  /** n >> k & 1 */
  predicate Bit(n: nat, k: nat) {
    if k == 0 then n % 2 == 1 else Bit(n / 2, k - 1)
  }

  function Pow2(w: nat): nat {
    if w == 0 then 1 else 2 * Pow2(w - 1)
  }

  lemma PowersOfTwo()
    ensures Pow2(4) == 0x10 && Pow2(8) == 0x100 && Pow2(16) == 0x1_0000
  {
    assert Pow2(8) == 16 * Pow2(4);
    assert Pow2(12) == 16 * Pow2(8);
  }

  lemma {:induction false} BitsDetermine(n: nat, m: nat, w: nat)
    requires n < Pow2(w) && m < Pow2(w)
    requires forall k: nat :: k < w ==> Bit(n, k) == Bit(m, k)
    ensures n == m
  {
    if w > 0 {
      assert Bit(n, 0) == Bit(m, 0);
      forall k: nat | k < w - 1
        ensures Bit(n / 2, k) == Bit(m / 2, k)
      {
        assert Bit(n, k + 1) == Bit(m, k + 1);
      }
      BitsDetermine(n / 2, m / 2, w - 1);
    }
  }

  // ----- Half-words -----

  function Word(hi: byte, lo: byte): half {
    0x100 * hi + lo
  }

  /** The 16-bit words of a byte buffer, low byte first. */
  function Halves(data: seq<byte>): (ws: seq<half>)
    ensures |ws| == |data| / 2
  {
    seq(|data| / 2, k requires 0 <= k < |data| / 2 => Word(data[2 * k + 1], data[2 * k]))
  }

  // ----- Nibbles -----

  function HighNibble(b: byte): byte {
    b / 16
  }

  function LowNibble(b: byte): byte {
    b % 16
  }

  // ----- 32-bit numbers, little endian -----

  /** The number of 32-bit words, and so of size_t values on the target. */
  const WORD32: nat := 0x1_0000_0000

  function Le32(n: nat): (s: seq<byte>)
    requires n < WORD32
    ensures |s| == 4
  {
    [n % 0x100, n / 0x100 % 0x100, n / 0x100 / 0x100 % 0x100, n / 0x100 / 0x100 / 0x100]
  }

  function UnLe32(s: seq<byte>): nat
    requires |s| == 4
  {
    var b0: nat, b1: nat, b2: nat, b3: nat := s[0], s[1], s[2], s[3];
    b0 + 0x100 * (b1 + 0x100 * (b2 + 0x100 * b3))
  }

  lemma Le32RoundTrip(n: nat)
    requires n < WORD32
    ensures UnLe32(Le32(n)) == n
  {
    var q1, q2, q3 := n / 0x100, n / 0x100 / 0x100, n / 0x100 / 0x100 / 0x100;
    assert n == 0x100 * q1 + n % 0x100 && q1 == 0x100 * q2 + q1 % 0x100 && q2 == 0x100 * q3 + q2 % 0x100;
  }
}
