/** The Secure Hash Standard, FIPS PUB 180-1, on whole messages. */
module Sha1Spec {
  newtype octet = x: int | 0 <= x < 256
  newtype word = x: int | 0 <= x < 0x1_0000_0000

  // the bits of a word
  type bits = bv32

  const BLOCK_SIZE: nat := 64
  // messages of 2^64 bits and more are out of the standard's reach
  const MESSAGE_LIMIT: nat := 0x2000_0000_0000_0000

  datatype Regs = Regs(a: word, b: word, c: word, d: word, e: word)

  // section 7, the initial values
  function H0(): Regs {
    Regs(0x67452301, 0xEFCDAB89, 0x98BADCFE, 0x10325476, 0xC3D2E1F0)
  }

  function Bits(x: word): bits {
    x as bv32
  }

  function FromBits(b: bits): word {
    b as word
  }

  // section 3, S^n(X)
  function Rotate(n: nat, b: bits): bits
    requires n <= 32
  {
    b.RotateLeft(n)
  }

  function S(n: nat, x: word): word
    requires n <= 32
  {
    FromBits(Rotate(n, Bits(x)))
  }

  // section 5, the three logical functions
  function ChooseBits(b: bits, c: bits, d: bits): bits {
    (b & c) | ((!b) & d)
  }

  function ParityBits(b: bits, c: bits, d: bits): bits {
    b ^ c ^ d
  }

  function MajorityBits(b: bits, c: bits, d: bits): bits {
    (b & c) | (b & d) | (c & d)
  }

  function Choose(b: word, c: word, d: word): word {
    FromBits(ChooseBits(Bits(b), Bits(c), Bits(d)))
  }

  function Parity(b: word, c: word, d: word): word {
    FromBits(ParityBits(Bits(b), Bits(c), Bits(d)))
  }

  function Majority(b: word, c: word, d: word): word {
    FromBits(MajorityBits(Bits(b), Bits(c), Bits(d)))
  }

  function F(t: nat, b: word, c: word, d: word): word {
    if t < 20 then Choose(b, c, d)
    else if t < 40 then Parity(b, c, d)
    else if t < 60 then Majority(b, c, d)
    else Parity(b, c, d)
  }

  // section 6
  function K(t: nat): word {
    if t < 20 then 0x5A827999
    else if t < 40 then 0x6ED9EBA1
    else if t < 60 then 0x8F1BBCDC
    else 0xCA62C1D6
  }

  /** Four octets as a word, the first one highest. */
  function Pack(b0: octet, b1: octet, b2: octet, b3: octet): word {
    b0 as word * 0x100_0000 + b1 as word * 0x1_0000 + b2 as word * 0x100 + b3 as word
  }

  function XorBits(a: bits, b: bits, c: bits, d: bits): bits {
    a ^ b ^ c ^ d
  }

  function Xor(a: word, b: word, c: word, d: word): word {
    FromBits(XorBits(Bits(a), Bits(b), Bits(c), Bits(d)))
  }

  // section 7, steps a and b
  function W(block: seq<octet>, t: nat): word
    requires |block| == BLOCK_SIZE
  {
    if t < 16 then Pack(block[4 * t], block[4 * t + 1], block[4 * t + 2], block[4 * t + 3])
    else S(1, Xor(W(block, t - 3), W(block, t - 8), W(block, t - 14), W(block, t - 16)))
  }

  function Plus5(s: word, f: word, e: word, w: word, k: word): word {
    Plus(Plus(Plus(Plus(s, f), e), w), k)
  }

  // section 7, one turn of step d
  function Round(r: Regs, t: nat, w: word): Regs {
    Regs(Plus5(S(5, r.a), F(t, r.b, r.c, r.d), r.e, w, K(t)), r.a, S(30, r.b), r.c, r.d)
  }

  /** The first `t` turns. */
  function Rounds(block: seq<octet>, h: Regs, t: nat): Regs
    requires |block| == BLOCK_SIZE
  {
    if t == 0 then h else Round(Rounds(block, h, t - 1), t - 1, W(block, t - 1))
  }

  lemma RoundsStep(block: seq<octet>, h: Regs, t: nat)
    requires |block| == BLOCK_SIZE
    ensures Rounds(block, h, 0) == h
    ensures Rounds(block, h, t + 1) == Round(Rounds(block, h, t), t, W(block, t))
  {
  }

  // section 3, addition modulo 2^32
  function Plus(x: word, y: word): word {
    ((x as int + y as int) % 0x1_0000_0000) as word
  }

  // section 7, step e
  function Sum(h: Regs, r: Regs): Regs {
    Regs(Plus(h.a, r.a), Plus(h.b, r.b), Plus(h.c, r.c), Plus(h.d, r.d), Plus(h.e, r.e))
  }

  // the turns of step d
  const TURNS: nat := 80

  function Compress(h: Regs, block: seq<octet>): Regs
    requires |block| == BLOCK_SIZE
  {
    Sum(h, Rounds(block, h, TURNS))
  }

  /** The blocks of a padded message, one after the other. */
  function Hash(h: Regs, blocks: seq<octet>): Regs
    decreases |blocks|
  {
    if |blocks| < BLOCK_SIZE then h
    else Hash(Compress(h, blocks[..BLOCK_SIZE]), blocks[BLOCK_SIZE..])
  }

  function Octet(n: nat): octet {
    (n % 256) as octet
  }

  function Zeros(n: nat): (z: seq<octet>)
    ensures |z| == n
  {
    seq(n, _ => 0)
  }

  /** The length in bits, as two words. */
  function LengthField(bits: nat): (f: seq<octet>)
    ensures |f| == 8
  {
    [Octet(bits / 0x100_0000_0000_0000), Octet(bits / 0x1_0000_0000_0000),
     Octet(bits / 0x100_0000_0000), Octet(bits / 0x1_0000_0000),
     Octet(bits / 0x100_0000), Octet(bits / 0x1_0000), Octet(bits / 0x100), Octet(bits)]
  }

  /** The zero octets after the one bit, so that eight octets are left in the last block. */
  function ZeroCount(n: nat): (z: nat)
    ensures z < BLOCK_SIZE && (n + 1 + z + 8) % BLOCK_SIZE == 0
  {
    if n % 64 < 56 then 55 - n % 64 else 119 - n % 64
  }

  /** The length field from the two 32-bit words of the length. */
  lemma LengthFieldOfWords(bits: nat)
    ensures var hi, lo := bits / 0x1_0000_0000, bits % 0x1_0000_0000;
            LengthField(bits) ==
            [Octet(hi / 0x100_0000), Octet(hi / 0x1_0000), Octet(hi / 0x100), Octet(hi),
             Octet(lo / 0x100_0000), Octet(lo / 0x1_0000), Octet(lo / 0x100), Octet(lo)]
  {
    hide Octet;
    var hi, lo := bits / 0x1_0000_0000, bits % 0x1_0000_0000;
    assert hi / 0x100_0000 == bits / 0x100_0000_0000_0000;
    assert hi / 0x1_0000 == bits / 0x1_0000_0000_0000;
    assert hi / 0x100 == bits / 0x100_0000_0000;
    SameOctet(lo / 0x100_0000, bits / 0x100_0000, hi);
    SameOctet(lo / 0x1_0000, bits / 0x1_0000, hi * 0x100);
    SameOctet(lo / 0x100, bits / 0x100, hi * 0x1_0000);
    SameOctet(lo, bits, hi * 0x100_0000);
  }

  lemma SameOctet(x: nat, y: nat, k: nat)
    requires y == x + 256 * k
    ensures Octet(x) == Octet(y)
  {
  }

  // section 4: a one bit, zeros, the length
  function Pad(m: seq<octet>): (p: seq<octet>)
    ensures |p| == |m| + 1 + ZeroCount(|m|) + 8
  {
    m + [0x80] + Zeros(ZeroCount(|m|)) + LengthField(8 * |m|)
  }

  function Digest(m: seq<octet>): Regs {
    Hash(H0(), Pad(m))
  }

  /** The padded message after `n` whole blocks: one more, or two when the length does not fit in one. */
  lemma PadSplit(m: seq<octet>, n: nat, index: nat)
    requires |m| == BLOCK_SIZE * n + index && index < BLOCK_SIZE
    ensures var done, tail, len := m[..BLOCK_SIZE * n], m[BLOCK_SIZE * n..], LengthField(8 * |m|);
            if index > 55 then
              Pad(m) == done + (tail + [0x80] + Zeros(63 - index)) + (Zeros(56) + len)
            else
              Pad(m) == done + (tail + [0x80] + Zeros(55 - index) + len)
  {
    hide LengthField;
    assert |m| % 64 == index;
    assert m == m[..BLOCK_SIZE * n] + m[BLOCK_SIZE * n..];
    if index > 55 {
      assert Zeros(119 - index) == Zeros(63 - index) + Zeros(56);
    }
  }

  lemma HashNone(h: Regs)
    ensures Hash(h, []) == h
  {
  }

  lemma {:induction false} HashAppend(h: Regs, a: seq<octet>, n: nat, b: seq<octet>)
    requires |a| == BLOCK_SIZE * n
    ensures Hash(h, a + b) == Hash(Hash(h, a), b)
    decreases n
  {
    if n == 0 {
      assert a + b == b;
    } else {
      var first, rest := a[..BLOCK_SIZE], a[BLOCK_SIZE..];
      assert (a + b)[..BLOCK_SIZE] == first && (a + b)[BLOCK_SIZE..] == rest + b;
      HashAppend(Compress(h, first), rest, n - 1, b);
    }
  }

  /** One more block: the step the streaming form takes. */
  lemma HashBlock(h: Regs, a: seq<octet>, n: nat, block: seq<octet>)
    requires |a| == BLOCK_SIZE * n && |block| == BLOCK_SIZE
    ensures Hash(h, a + block) == Compress(Hash(h, a), block)
  {
    HashAppend(h, a, n, block);
    assert block[..BLOCK_SIZE] == block && block[BLOCK_SIZE..] == [];
    HashNone(Compress(Hash(h, a), block));
  }
}
