/** SHA-1 as section 6.1 of FIPS 180-4 defines it: a function of the whole message. */
module Sha1Spec {

  type byte = x: int | 0 <= x < 0x100

  // The five working words; H(i) of the standard is stored in the same shape.
  datatype Chain = Chain(a: bv32, b: bv32, c: bv32, d: bv32, e: bv32)

  const INITIAL := Chain(0x67452301, 0xEFCDAB89, 0x98BADCFE, 0x10325476, 0xC3D2E1F0)

  const MAX_MESSAGE: nat := 0x2000_0000_0000_0000

  // Section 4.1.1: the logical functions, written with exclusive-or as in the standard.
  function Ch(x: bv32, y: bv32, z: bv32): bv32 {
    (x & y) ^ (!x & z)
  }

  function Parity(x: bv32, y: bv32, z: bv32): bv32 {
    x ^ y ^ z
  }

  function Maj(x: bv32, y: bv32, z: bv32): bv32 {
    (x & y) ^ (x & z) ^ (y & z)
  }

  // On any set m of bits: where x is set Ch selects y, and where it is clear z.
  lemma ChSelects(x: bv32, y: bv32, z: bv32, m: bv32)
    ensures x & m == m ==> Ch(x, y, z) & m == y & m
    ensures x & m == 0 ==> Ch(x, y, z) & m == z & m
  {
  }

  // Where two of the three agree, Maj is what they are.
  lemma MajIsTwoOfThree(x: bv32, y: bv32, z: bv32, m: bv32)
    ensures x & m == y & m || x & m == z & m ==> Maj(x, y, z) & m == x & m
    ensures y & m == z & m ==> Maj(x, y, z) & m == y & m
  {
  }

  // Where x and y agree, Parity is z; where they differ, it is not z.
  lemma ParityIsOdd(x: bv32, y: bv32, z: bv32, m: bv32)
    ensures x & m == y & m ==> Parity(x, y, z) & m == z & m
    ensures x & m == !y & m ==> Parity(x, y, z) & m == !z & m
  {
    XorMasked(x ^ y, z, m);
    XorMasked(x, y, m);
    XorOfEqual(y, m);
    XorOfEqual(z, m);
    XorOfOpposite(y, m);
    XorWithAll(z, m);
  }

  lemma XorMasked(x: bv32, y: bv32, m: bv32)
    ensures (x ^ y) & m == (x & m) ^ (y & m)
  {
  }

  lemma XorOfEqual(z: bv32, m: bv32)
    ensures (z & m) ^ (z & m) == 0 && 0 ^ (z & m) == z & m
  {
  }

  lemma XorOfOpposite(z: bv32, m: bv32)
    ensures (!z & m) ^ (z & m) == m
  {
  }

  lemma XorWithAll(z: bv32, m: bv32)
    ensures m ^ (z & m) == !z & m
  {
  }

  function F(t: nat, x: bv32, y: bv32, z: bv32): bv32 {
    if t < 20 then Ch(x, y, z)
    else if t < 40 then Parity(x, y, z)
    else if t < 60 then Maj(x, y, z)
    else Parity(x, y, z)
  }

  // Section 4.2.1.
  function K(t: nat): bv32 {
    if t < 20 then 0x5A827999
    else if t < 40 then 0x6ED9EBA1
    else if t < 60 then 0x8F1BBCDC
    else 0xCA62C1D6
  }

  // Four octets as one big-endian word.
  function BigEndian(b0: byte, b1: byte, b2: byte, b3: byte): bv32 {
    (b0 as bv32 << 24) | (b1 as bv32 << 16) | (b2 as bv32 << 8) | (b3 as bv32)
  }

  function Mix(w: bv32, x: bv32, y: bv32, z: bv32): bv32 {
    (w ^ x ^ y ^ z).RotateLeft(1)
  }

  // Section 6.1.2 step 1: the first t words of the message schedule of one 64-byte block.
  function Schedule(block: seq<byte>, t: nat): (w: seq<bv32>)
    requires |block| == 64 && t <= 80
    ensures |w| == t
  {
    if t == 0 then []
    else
      var w := Schedule(block, t - 1);
      var u := t - 1;
      w + [if u < 16 then BigEndian(block[4 * u], block[4 * u + 1], block[4 * u + 2], block[4 * u + 3])
           else Mix(w[u - 3], w[u - 8], w[u - 14], w[u - 16])]
  }

  // Addition is modulo 2 to the 32.
  function Sum(a5: bv32, f: bv32, e: bv32, w: bv32, k: bv32): bv32 {
    a5 + f + e + w + k
  }

  // Section 6.1.2 step 3: one round.
  function Round(t: nat, w: bv32, s: Chain): Chain {
    Chain(Sum(s.a.RotateLeft(5), F(t, s.b, s.c, s.d), s.e, w, K(t)), s.a, s.b.RotateLeft(30), s.c, s.d)
  }

  function Rounds(w: seq<bv32>, h: Chain, t: nat): Chain
    requires t <= |w|
  {
    if t == 0 then h else Round(t - 1, w[t - 1], Rounds(w, h, t - 1))
  }

  function Add(x: bv32, y: bv32): bv32 {
    x + y
  }

  // Section 6.1.2 step 4.
  function Plus(h: Chain, s: Chain): Chain {
    Chain(Add(h.a, s.a), Add(h.b, s.b), Add(h.c, s.c), Add(h.d, s.d), Add(h.e, s.e))
  }

  function Compress(h: Chain, block: seq<byte>): Chain
    requires |block| == 64
  {
    Plus(h, Rounds(Schedule(block, 80), h, 80))
  }

  // Sections 5.2.1 and 6.1.2: fold the n blocks of m, in order, into the initial chain.
  function HashBlocks(m: seq<byte>, n: nat): Chain
    requires |m| == 64 * n
  {
    if n == 0 then INITIAL else Compress(HashBlocks(m[..64 * (n - 1)], n - 1), m[64 * (n - 1)..])
  }

  // Section 5.1.1: a 1 bit, then the fewest 0 bits, then the bit length in 64 bits.
  function ZeroCount(n: nat): (k: nat)
    ensures (n + 1 + k + 8) % 64 == 0
    ensures k < 64
  {
    (55 - n) % 64
  }

  function Zeros(k: nat): (z: seq<byte>)
    ensures |z| == k
  {
    seq(k, _ => 0)
  }

  // The i-th base-256 digit of a 64-bit number, most significant first.
  function LengthDigit(n: nat, i: nat): (d: byte)
    requires i < 8
  {
    (if i == 0 then n / 0x100_0000_0000_0000
     else if i == 1 then n / 0x1_0000_0000_0000
     else if i == 2 then n / 0x100_0000_0000
     else if i == 3 then n / 0x1_0000_0000
     else if i == 4 then n / 0x100_0000
     else if i == 5 then n / 0x1_0000
     else if i == 6 then n / 0x100
     else n) % 0x100
  }

  function LengthField(n: nat): (f: seq<byte>)
    ensures |f| == 8
  {
    seq(8, i requires 0 <= i < 8 => LengthDigit(n, i))
  }

  function FieldValue(f: seq<byte>): nat {
    if f == [] then 0 else FieldValue(f[..|f| - 1]) * 0x100 + f[|f| - 1]
  }

  // The eight octets are the length in base 256.
  lemma LengthFieldReadsBack(n: nat)
    requires n < 0x1_0000_0000_0000_0000
    ensures FieldValue(LengthField(n)) == n
  {
    DigitsUpTo(n, 7);
    assert LengthField(n)[..8] == LengthField(n);
  }

  function Scale(i: nat): nat
    requires i < 8
  {
    [0x100_0000_0000_0000, 0x1_0000_0000_0000, 0x100_0000_0000, 0x1_0000_0000, 0x100_0000, 0x1_0000, 0x100, 1][i]
  }

  lemma Scales(n: nat, i: nat)
    requires i < 8
    ensures Scale(i) > 0 && LengthDigit(n, i) == n / Scale(i) % 0x100
    ensures i > 0 ==> Scale(i - 1) == Scale(i) * 0x100
  {
  }

  lemma {:induction false} DigitsUpTo(n: nat, i: nat)
    requires n < 0x1_0000_0000_0000_0000 && i < 8
    ensures Scale(i) > 0 && FieldValue(LengthField(n)[..i + 1]) == n / Scale(i)
    decreases i
  {
    hide FieldValue, Scale, LengthDigit;
    Scales(n, i);
    ValueNext(LengthField(n), i);
    if i > 0 {
      DigitsUpTo(n, i - 1);
      Digit(n, Scale(i));
    } else {
      assert LengthField(n)[..0] == [];
      FirstDigit(n);
    }
  }

  lemma FirstDigit(n: nat)
    requires n < 0x1_0000_0000_0000_0000
    ensures FieldValue([]) == 0 && n / Scale(0) % 0x100 == n / Scale(0)
  {
  }

  lemma Digit(n: nat, d: nat)
    requires d > 0
    ensures n / (d * 0x100) * 0x100 + n / d % 0x100 == n / d
  {
    var q, r := n / d, n % d;
    var p, s := q / 0x100, q % 0x100;
    assert n == q * d + r == (p * 0x100 + s) * d + r;
    var rest := s * d + r;
    assert s * d <= 0xFF * d by { if s < 0xFF { Less(s, 0xFF, d); } }
    assert n == p * (d * 0x100) + rest;
    Quotient(n, d * 0x100, p, rest);
  }

  lemma Less(a: nat, b: nat, d: nat)
    requires a <= b
    ensures a * d <= b * d
  {
  }

  lemma Quotient(n: nat, d: nat, q: nat, r: nat)
    requires n == q * d + r && r < d
    ensures n / d == q
  {
    var p := n / d;
    assert n == p * d + n % d;
    if p < q { Less(p + 1, q, d); } else if q < p { Less(q + 1, p, d); }
  }

  lemma ValueNext(f: seq<byte>, i: nat)
    requires i < |f|
    ensures FieldValue(f[..i + 1]) == FieldValue(f[..i]) * 0x100 + f[i]
  {
    assert f[..i + 1][..i] == f[..i];
  }

  function Pad(m: seq<byte>): (p: seq<byte>)
    ensures |p| % 64 == 0 && m < p
  {
    m + [0x80] + Zeros(ZeroCount(|m|)) + LengthField(8 * |m|)
  }

  function Sha1(m: seq<byte>): Chain {
    HashBlocks(Pad(m), |Pad(m)| / 64)
  }

  lemma HashBlocksAppend(m: seq<byte>, n: nat, block: seq<byte>)
    requires |m| == 64 * n && |block| == 64
    ensures HashBlocks(m + block, n + 1) == Compress(HashBlocks(m, n), block)
  {
    var all := m + block;
    assert all[..64 * n] == m && all[64 * n..] == block;
  }

  // Padding n full blocks and w more octets: zeros up to octet 56 of that block, or of the next one.
  lemma ZeroCountSplit(n: nat, w: nat)
    requires w < 64
    ensures ZeroCount(64 * n + w) == if w <= 55 then 55 - w else 119 - w
  {
  }

  // The last non-zero octet before the length field is the 0x80 that marks where the message ends.
  lemma PadMarksTheEnd(m: seq<byte>, i: nat)
    requires |m| <= i < |Pad(m)| - 8
    ensures Pad(m)[i] == if i == |m| then 0x80 else 0
  {
  }

  // So different messages are padded to different block sequences.
  lemma PadInjective(m: seq<byte>, k: seq<byte>)
    requires Pad(m) == Pad(k)
    ensures m == k
  {
    var i := if |m| < |k| then |k| else |m|;
    PadMarksTheEnd(m, i);
    PadMarksTheEnd(k, i);
    assert m == Pad(m)[..|m|] && k == Pad(k)[..|k|];
  }
}
