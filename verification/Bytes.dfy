/** Byte strings, network byte order and the status codes shared by every component. */
module Bytes {
  newtype byte = x: int | 0 <= x < 0x100

  type bytes = seq<byte>

  datatype Option<+T> = None | Some(value: T)

  const UINT32_LIMIT: int := 0x1_0000_0000

  // Status codes. Negative values are errors; the errno values are those of Linux.
  type Status = x: int | x <= 0

  const E_NOENT: int := -2
  const E_NOMEM: int := -12
  const E_FAULT: int := -14
  const E_2BIG: int := -7
  const E_INVAL: int := -22
  const E_RANGE: int := -34
  const E_BADMSG: int := -74
  const E_NOTSUP: int := -95
  // 0x80010003 and 0x80010007 read as signed 32-bit numbers
  const ERROR_STATE: int := 0x8001_0003 - UINT32_LIMIT
  const ERROR_FALSE: int := 0x8001_0007 - UINT32_LIMIT

  function Min(a: int, b: int): int {
    if a <= b then a else b
  }

  function Max(a: int, b: int): int {
    if a <= b then b else a
  }

  /** The next multiple of four (AlignDword). */
  function AlignDword(n: nat): (r: nat)
    ensures n <= r < n + 4 && r % 4 == 0
  {
    (n + 3) / 4 * 4
  }

  function Pow256(w: nat): (p: nat)
    ensures p > 0
  {
    if w == 0 then 1 else 256 * Pow256(w - 1)
  }

  /** The low `w` bytes of `n`, most significant first: what htons, htonl and htonll put in memory. */
  function BE(n: nat, w: nat): (s: bytes)
    ensures |s| == w
  {
    if w == 0 then [] else BE(n / 256, w - 1) + [(n % 256) as byte]
  }

  function FromBE(s: bytes): (n: nat)
    ensures n < Pow256(|s|)
  {
    if s == [] then 0 else 256 * FromBE(s[..|s| - 1]) + s[|s| - 1] as int
  }

  lemma {:induction false} FromBEOfBE(n: nat, w: nat)
    requires n < Pow256(w)
    ensures FromBE(BE(n, w)) == n
  {
    if w != 0 {
      assert Pow256(w) == 256 * Pow256(w - 1);
      assert n / 256 < Pow256(w - 1);
      FromBEOfBE(n / 256, w - 1);
      assert BE(n, w)[..w - 1] == BE(n / 256, w - 1);
    }
  }

  lemma {:induction false} BEOfFromBE(s: bytes)
    ensures BE(FromBE(s), |s|) == s
  {
    if s != [] {
      var w := |s| - 1;
      BEOfFromBE(s[..w]);
      assert FromBE(s) / 256 == FromBE(s[..w]) && FromBE(s) % 256 == s[w] as int;
      assert s == s[..w] + [s[w]];
    }
  }

  lemma Pow256Values()
    ensures Pow256(1) == 0x100 && Pow256(2) == 0x1_0000 && Pow256(4) == UINT32_LIMIT
    ensures Pow256(8) == UINT32_LIMIT * UINT32_LIMIT
  {
    assert Pow256(4) == UINT32_LIMIT;
    assert Pow256(6) == 0x1_0000 * UINT32_LIMIT;
  }

  /** Four-byte fields, the common case. */
  lemma FromBEOfBE4(n: nat)
    requires n < UINT32_LIMIT
    ensures FromBE(BE(n, 4)) == n
  {
    Pow256Values();
    FromBEOfBE(n, 4);
  }

  function Digit(n: nat): byte {
    (n % 256) as byte
  }

  lemma LastDigit(n: nat, w: nat)
    requires w > 0
    ensures BE(n, w) == BE(n / 256, w - 1) + [Digit(n)]
  {
  }

  lemma NoDigits(n: nat)
    ensures BE(n, 0) == []
  {
  }

  lemma Quotients(n: nat)
    ensures n / 256 / 256 == n / 0x1_0000 && n / 0x1_0000 / 256 == n / 0x100_0000
    ensures n / 0x100_0000 / 256 == n / 0x1_0000_0000
  {
  }

  /** The four lowest bytes. */
  lemma LowDigits(n: nat, w: nat)
    ensures BE(n, w + 4) == BE(n / 0x1_0000_0000, w) +
                            [Digit(n / 0x100_0000), Digit(n / 0x1_0000), Digit(n / 0x100), Digit(n)]
  {
    hide BE, Digit;
    Quotients(n);
    LastDigit(n, w + 4);
    LastDigit(n / 0x100, w + 3);
    LastDigit(n / 0x1_0000, w + 2);
    LastDigit(n / 0x100_0000, w + 1);
  }

  /** Network order: the most significant byte comes first. */
  lemma NetworkOrder1(n: nat)
    ensures BE(n, 1) == [Digit(n)]
  {
    hide BE, Digit;
    LastDigit(n, 1);
    NoDigits(n / 256);
  }

  lemma NetworkOrder2(n: nat)
    ensures BE(n, 2) == [Digit(n / 256), Digit(n)]
  {
    hide BE, Digit;
    LastDigit(n, 2);
    NetworkOrder1(n / 256);
  }

  lemma NetworkOrder4(n: nat)
    ensures BE(n, 4) == [Digit(n / 0x100_0000), Digit(n / 0x1_0000), Digit(n / 0x100), Digit(n)]
  {
    hide BE, Digit;
    LowDigits(n, 0);
    NoDigits(n / 0x1_0000_0000);
  }

  lemma NetworkOrder8(n: nat)
    ensures BE(n, 8) ==
            [Digit(n / 0x100_0000_0000_0000), Digit(n / 0x1_0000_0000_0000), Digit(n / 0x100_0000_0000),
             Digit(n / 0x1_0000_0000), Digit(n / 0x100_0000), Digit(n / 0x1_0000), Digit(n / 0x100), Digit(n)]
  {
    hide BE, Digit;
    var hi := n / 0x1_0000_0000;
    LowDigits(n, 4);
    NetworkOrder4(hi);
    assert hi / 0x100_0000 == n / 0x100_0000_0000_0000;
    assert hi / 0x1_0000 == n / 0x1_0000_0000_0000 && hi / 0x100 == n / 0x100_0000_0000;
  }

  /** memcpy and memmove: the source bytes are read before any is written. */
  method MemMove(dst: array<byte>, dstOff: nat, src: array<byte>, srcOff: nat, n: nat)
    requires dstOff + n <= dst.Length && srcOff + n <= src.Length
    modifies dst
    ensures dst[dstOff..dstOff + n] == old(src[srcOff..srcOff + n])
    ensures dst[..dstOff] == old(dst[..dstOff]) && dst[dstOff + n..] == old(dst[dstOff + n..])
  {
    forall i | 0 <= i < n {
      dst[dstOff + i] := src[srcOff + i];
    }
  }

  /** `s` with the bytes from `pos` on overwritten by `block`. */
  function Splice(s: bytes, pos: nat, block: bytes): (r: bytes)
    requires pos + |block| <= |s|
    ensures |r| == |s|
  {
    s[..pos] + block + s[pos + |block|..]
  }

  /** Overwriting inside a slice is overwriting the slice. */
  lemma SpliceSlice(s: bytes, pos: nat, block: bytes, lo: nat, hi: nat)
    requires lo <= pos && pos + |block| <= hi <= |s|
    ensures Splice(s, pos, block)[lo..hi] == Splice(s[lo..hi], pos - lo, block)
  {
  }

  lemma ArraySlice(a: array<byte>, n: nat, lo: nat, hi: nat)
    requires lo <= hi <= n <= a.Length
    ensures a[..n][lo..hi] == a[lo..hi] && (lo == 0 ==> a[..n][..hi] == a[..hi])
  {
  }

  lemma SliceInSlice(s: bytes, a: nat, b: nat, c: nat, d: nat)
    requires a <= b <= |s| && c <= d <= b - a
    ensures s[a..b][c..d] == s[a + c..a + d]
  {
    var x, y := s[a..b][c..d], s[a + c..a + d];
    forall i | 0 <= i < d - c ensures x[i] == y[i] {
      assert s[a..b][c + i] == s[a + c + i];
    }
  }

  lemma SliceInMiddle(a: bytes, b: bytes, c: bytes, lo: nat, hi: nat)
    requires lo <= hi <= |b|
    ensures (a + b + c)[|a| + lo..|a| + hi] == b[lo..hi]
  {
  }

  lemma SliceOfSlice(s: bytes, a: nat, b: nat, n: nat)
    requires a <= a + n <= b <= |s|
    ensures s[a..b][..n] == s[a..a + n] && s[a..b][n..] == s[a + n..b]
  {
  }

  /** Bytes away from the overwritten ones stay. */
  lemma SpliceOutside(s: bytes, pos: nat, block: bytes, a: nat, b: nat)
    requires pos + |block| <= |s| && a <= b <= |s|
    requires b <= pos || pos + |block| <= a
    ensures Splice(s, pos, block)[a..b] == s[a..b]
  {
  }

  /** The overwritten ones are those of the block. */
  lemma SpliceInside(s: bytes, pos: nat, block: bytes, a: nat, b: nat)
    requires pos + |block| <= |s| && a <= b <= |block|
    ensures Splice(s, pos, block)[pos + a..pos + b] == block[a..b]
  {
  }

  /** Overwriting inside a block just written is writing the changed block. */
  lemma SpliceTwice(s: bytes, pos: nat, block: bytes, at: nat, part: bytes)
    requires pos + |block| <= |s| && at + |part| <= |block|
    ensures Splice(Splice(s, pos, block), pos + at, part) == Splice(s, pos, Splice(block, at, part))
  {
  }

  /** memcpy from a byte string. */
  method MemCopy(dst: array<byte>, dstOff: nat, src: bytes)
    requires dstOff + |src| <= dst.Length
    modifies dst
    ensures dst[..] == Splice(old(dst[..]), dstOff, src)
  {
    forall i | 0 <= i < |src| {
      dst[dstOff + i] := src[i];
    }
  }
}
