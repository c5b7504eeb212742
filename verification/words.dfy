/**
 Bytes, 32-bit words and the conversions MD5 needs between them: little-endian
 word decoding and encoding, the byte swap used for output, rotation, and the
 little-endian encoding of the 64-bit bit-length field.
 */
module Words {

  type byte = bv8
  type word = bv32

  /** 2^64: the modulus of the bit-length field. */
  const TwoTo64: nat := 0x1_0000_0000_0000_0000

  /** n zero bytes. */
  function Zeros(n: nat): (r: seq<byte>)
    ensures |r| == n
    ensures forall i :: 0 <= i < n ==> r[i] == 0
  {
    seq(n, _ => 0)
  }

  /** The word whose little-endian byte representation is b0 b1 b2 b3
      (u32::from_le_bytes). */
  function LeWord(b0: byte, b1: byte, b2: byte, b3: byte): word
  {
    (b0 as word) | ((b1 as word) << 8) | ((b2 as word) << 16) | ((b3 as word) << 24)
  }

  /** The four bytes of w, low-order byte first (u32::to_le_bytes). */
  function WordBytes(w: word): (r: seq<byte>)
    ensures |r| == 4
    ensures LeWord(r[0], r[1], r[2], r[3]) == w
  {
    [(w & 0xFF) as byte, ((w >> 8) & 0xFF) as byte,
     ((w >> 16) & 0xFF) as byte, ((w >> 24) & 0xFF) as byte]
  }

  /** Decoding a word and encoding it again gives back the four bytes. */
  lemma WordBytesOfLeWord(b0: byte, b1: byte, b2: byte, b3: byte)
    ensures WordBytes(LeWord(b0, b1, b2, b3)) == [b0, b1, b2, b3]
  {
  }

  /** u32::swap_bytes: reverses the byte order of a word. */
  function SwapBytes(w: word): (r: word)
    ensures WordBytes(r) == [WordBytes(w)[3], WordBytes(w)[2], WordBytes(w)[1], WordBytes(w)[0]]
  {
    (w << 24) | ((w & 0xFF00) << 8) | ((w >> 8) & 0xFF00) | (w >> 24)
  }

  /** Swapping twice restores the word. */
  lemma SwapBytesInvolution(w: word)
    ensures SwapBytes(SwapBytes(w)) == w
  {
  }

  /** u32::rotate_left: the amount is taken modulo 32. */
  function RotL(x: word, s: word): word
  {
    var n := s & 31;
    if n == 0 then x else (x << n) | (x >> (32 - n))
  }

  /** For each shift amount MD5 uses, the shift-and-or rotation is the
      bit-vector rotation: the bits shifted out at the top come back in at
      the bottom. One lemma per amount keeps each proof a
      fixed-width bit-vector identity. */
  lemma RotL4(x: word)
    ensures RotL(x, 4) == x.RotateLeft(4)
  {
  }

  lemma RotL5(x: word)
    ensures RotL(x, 5) == x.RotateLeft(5)
  {
  }

  lemma RotL6(x: word)
    ensures RotL(x, 6) == x.RotateLeft(6)
  {
  }

  lemma RotL7(x: word)
    ensures RotL(x, 7) == x.RotateLeft(7)
  {
  }

  lemma RotL9(x: word)
    ensures RotL(x, 9) == x.RotateLeft(9)
  {
  }

  lemma RotL10(x: word)
    ensures RotL(x, 10) == x.RotateLeft(10)
  {
  }

  lemma RotL11(x: word)
    ensures RotL(x, 11) == x.RotateLeft(11)
  {
  }

  lemma RotL12(x: word)
    ensures RotL(x, 12) == x.RotateLeft(12)
  {
  }

  lemma RotL14(x: word)
    ensures RotL(x, 14) == x.RotateLeft(14)
  {
  }

  lemma RotL15(x: word)
    ensures RotL(x, 15) == x.RotateLeft(15)
  {
  }

  lemma RotL16(x: word)
    ensures RotL(x, 16) == x.RotateLeft(16)
  {
  }

  lemma RotL17(x: word)
    ensures RotL(x, 17) == x.RotateLeft(17)
  {
  }

  lemma RotL20(x: word)
    ensures RotL(x, 20) == x.RotateLeft(20)
  {
  }

  lemma RotL21(x: word)
    ensures RotL(x, 21) == x.RotateLeft(21)
  {
  }

  lemma RotL22(x: word)
    ensures RotL(x, 22) == x.RotateLeft(22)
  {
  }

  lemma RotL23(x: word)
    ensures RotL(x, 23) == x.RotateLeft(23)
  {
  }

  /** 256^k. */
  function Pow256(k: nat): (r: nat)
    ensures r > 0
  {
    if k == 0 then 1 else 256 * Pow256(k - 1)
  }

  /** The k low-order bytes of n, low-order byte first. The result only
      depends on n modulo 256^k: higher bits are dropped, as a truncating
      cast to a k-byte unsigned integer drops them. */
  function LeBytes(n: nat, k: nat): (r: seq<byte>)
    ensures |r| == k
  {
    if k == 0 then [] else [(n % 256) as byte] + LeBytes(n / 256, k - 1)
  }

  /** The number whose little-endian representation is bs. */
  function FromLe(bs: seq<byte>): (n: nat)
    ensures n < Pow256(|bs|)
  {
    if |bs| == 0 then 0 else bs[0] as nat + 256 * FromLe(bs[1..])
  }

  lemma MulAtLeast(m: nat, d: nat)
    requires d >= 1
    ensures m * d >= m
  {
    assert m * d == m * (d - 1) + m;
  }

  /** Quotient and remainder are the only q, r with n == m * q + r and r < m. */
  lemma ModUnique(n: nat, m: nat, q: nat, r: nat)
    requires 0 < m && r < m && n == m * q + r
    ensures n % m == r && n / m == q
  {
    var q', r' := n / m, n % m;
    assert n == m * q' + r' && r' < m;
    if q < q' {
      MulAtLeast(m, q' - q);
    } else if q > q' {
      MulAtLeast(m, q - q');
    }
  }

  lemma ByteOfLowBits(x: nat)
    requires x < 256
    ensures (x as byte) as nat == x
  {
    assert ((x as bv16) as byte) as nat == x;
  }

  /** The residue modulo 256 * p, split into its low byte and the rest. */
  lemma SplitMod(n: nat, p: nat)
    requires p > 0
    ensures n % (256 * p) == n % 256 + 256 * ((n / 256) % p)
  {
    var q, r := n / 256, n % 256;
    var t, u := q / p, q % p;
    assert q == p * t + u && u < p;
    assert n == 256 * q + r && r < 256;
    assert n == (256 * p) * t + (256 * u + r);
    ModUnique(n, 256 * p, t, 256 * u + r);
  }

  /** Encoding k bytes and decoding them gives n modulo 256^k. */
  lemma {:induction false} FromLeOfLeBytes(n: nat, k: nat)
    ensures FromLe(LeBytes(n, k)) == n % Pow256(k)
  {
    if k > 0 {
      FromLeOfLeBytes(n / 256, k - 1);
      var bs := LeBytes(n, k);
      assert bs[1..] == LeBytes(n / 256, k - 1);
      ByteOfLowBits(n % 256);
      assert FromLe(bs) == n % 256 + 256 * FromLe(bs[1..]);
      SplitMod(n, Pow256(k - 1));
    }
  }

  /** A number below 256^k is determined by its k little-endian bytes. */
  lemma {:induction false} LeBytesInjective(n: nat, bs: seq<byte>, k: nat)
    requires |bs| == k && n < Pow256(k) && FromLe(bs) == n
    ensures LeBytes(n, k) == bs
  {
    if k > 0 {
      var rest := FromLe(bs[1..]);
      assert n == bs[0] as nat + 256 * rest;
      ModUnique(n, 256, rest, bs[0] as nat);
      assert 256 * (n / 256) <= n < 256 * Pow256(k - 1);
      LeBytesInjective(n / 256, bs[1..], k - 1);
      assert bs == [bs[0]] + bs[1..];
    }
  }

  /** u64::to_le_bytes(n as u64): the 8-byte little-endian encoding of n
      modulo 2^64. */
  function Le64(n: nat): (r: seq<byte>)
    ensures |r| == 8
    ensures FromLe(r) == n % TwoTo64
  {
    assert Pow256(8) == TwoTo64;
    FromLeOfLeBytes(n, 8);
    LeBytes(n, 8)
  }
}
