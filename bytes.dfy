/**
 * Memory and integer helpers shared by every module: memory is a byte
 * sequence indexed by absolute address, fixed-width values are bounded
 * integers, and wrap-around is written out where the C code relies on it.
 */
module Bytes {

  const U16: int := 0x1_0000
  const U32: int := 0x1_0000_0000
  const U64: int := 0x1_0000_0000_0000_0000

  /** The largest UINTN value on X64; also MAX_ADDRESS there. */
  const MAX_UINTN: int := U64 - 1

  type byte = x: int | 0 <= x < 0x100
  type u16 = x: int | 0 <= x < 0x1_0000
  type u32 = x: int | 0 <= x < 0x1_0000_0000

  /** Optional value, used for pointers that may be NULL. */
  datatype Option<T> = None | Some(value: T)

  /** The byte at address `a`; memory outside the modelled sequence reads as 0. */
  function ByteAt(mem: seq<byte>, a: int): byte
  {
    if 0 <= a < |mem| then mem[a] else 0
  }

  /** ReadUnaligned16: little-endian 16-bit value at `a`. */
  function Read16(mem: seq<byte>, a: int): u16
  {
    ByteAt(mem, a) + 256 * ByteAt(mem, a + 1)
  }

  /** Little-endian 32-bit value at `a`. */
  function Read32(mem: seq<byte>, a: int): u32
  {
    ByteAt(mem, a) + 256 * ByteAt(mem, a + 1) + 65536 * ByteAt(mem, a + 2)
      + 16777216 * ByteAt(mem, a + 3)
  }

  /** Reading a concatenation: the first part, then the second. */
  lemma {:induction false} ByteAtAppend(a: seq<byte>, b: seq<byte>)
    ensures forall k :: 0 <= k < |a| ==> ByteAt(a + b, k) == ByteAt(a, k)
    ensures forall k :: 0 <= k < |b| ==> ByteAt(a + b, |a| + k) == ByteAt(b, k)
  {
    assert forall k :: 0 <= k < |b| ==> (a + b)[|a| + k] == b[k];
  }

  /** The little-endian bytes of a 16-bit and a 32-bit value. */
  function Le16(x: u16): seq<byte>
  {
    [x % 0x100, x / 0x100]
  }

  function Le32(x: u32): seq<byte>
  {
    [x % 0x100, (x / 0x100) % 0x100, (x / 0x1_0000) % 0x100, x / 0x100_0000]
  }

  /** The four little-endian bytes of a 32-bit value make it up again. */
  lemma {:induction false} Le32Read(x: u32)
    ensures Read32(Le32(x), 0) == x
  {
    var q1 := x / 0x100;
    var q2 := q1 / 0x100;
    assert x == x % 0x100 + 0x100 * q1;
    assert q1 == q1 % 0x100 + 0x100 * q2;
    assert x / 0x1_0000 == q2;
    assert q2 == q2 % 0x100 + 0x100 * (x / 0x100_0000);
  }

  /** UINT32 addition and subtraction, which wrap modulo 2^32. */
  function Add32(a: int, b: int): u32 { (a + b) % U32 }
  function Sub32(a: int, b: int): u32 { (a - b) % U32 }

  /** Bit `k` of a value, the C test `(x & (1 << k)) != 0`. */
  predicate BitSet(x: nat, k: nat)
  {
    if k == 0 then x % 2 == 1 else BitSet(x / 2, k - 1)
  }

  /** The bytes `[a, a + n)` of memory (CopyMem's source). */
  function BytesAt(mem: seq<byte>, a: int, n: nat): (r: seq<byte>)
    ensures |r| == n
    ensures forall k :: 0 <= k < n ==> r[k] == ByteAt(mem, a + k)
  {
    if n == 0 then [] else BytesAt(mem, a, n - 1) + [ByteAt(mem, a + n - 1)]
  }

  /** n zero bytes (ZeroMem's result). */
  function Zeros(n: nat): (r: seq<byte>)
    ensures |r| == n && forall k :: 0 <= k < n ==> r[k] == 0
  {
    if n == 0 then [] else Zeros(n - 1) + [0]
  }

  /** IsZeroBuffer. */
  predicate AllZero(s: seq<byte>)
  {
    forall k :: 0 <= k < |s| ==> s[k] == 0
  }

  /** The 32-bit words `[a, a + 4n)` read little-endian. */
  function Words(mem: seq<byte>, a: int, n: nat): (r: seq<int>)
    ensures |r| == n
    ensures forall i :: 0 <= i < n ==> r[i] == Read32(mem, a + 4 * i)
  {
    if n == 0 then [] else Words(mem, a, n - 1) + [Read32(mem, a + 4 * (n - 1))]
  }

  /** Unbounded sum of a sequence, from the front. */
  function Sum(ws: seq<int>): int
  {
    if ws == [] then 0 else Sum(ws[..|ws| - 1]) + ws[|ws| - 1]
  }

  /**
   * CalculateSum32: 32-bit wrapping sum of the `len / 4` little-endian words
   * starting at `a`. `len` must be a multiple of 4 (the library asserts it).
   */
  function Sum32(mem: seq<byte>, a: int, len: nat): u32
    requires len % 4 == 0
  {
    Sum(Words(mem, a, len / 4)) % U32
  }

  /** Replacing one element changes the sum by the difference. */
  lemma {:induction false} SumUpdate(ws: seq<int>, k: nat, v: int)
    requires k < |ws|
    ensures Sum(ws[k := v]) == Sum(ws) - ws[k] + v
  {
    var n := |ws|;
    var us := ws[k := v];
    if k == n - 1 {
      assert us[..n - 1] == ws[..n - 1];
    } else {
      assert us[..n - 1] == ws[..n - 1][k := v];
      SumUpdate(ws[..n - 1], k, v);
    }
  }

  /** Congruence modulo 2^32: adding a multiple of 2^32 does not change the residue. */
  lemma {:induction false} ModShift(x: int, q: int)
    ensures (x + q * U32) % U32 == x % U32
  {
  }

  /** The residue of a sum depends only on the residues of its terms. */
  lemma {:induction false} ModAdd(x: int, y: int)
    ensures (x % U32 + y) % U32 == (x + y) % U32
  {
    ModShift(x % U32 + y, x / U32);
  }

  /** A wrapping subtraction from a reduced value is the unbounded one reduced. */
  lemma {:induction false} SubReduced(x: int, y: int)
    ensures Sub32(x % U32, y) == (x - y) % U32
  {
    ModAdd(x, -y);
  }

  /** A wrapping addition to a reduced value is the unbounded one reduced. */
  lemma {:induction false} AddReduced(x: int, y: int)
    ensures Add32(x % U32, y) == (x + y) % U32
  {
    ModAdd(x, y);
  }

  /** CopyMem (dst + d, a, n): the `n` bytes at `a` overwrite `dst[d .. d + n)`, nothing else changes. */
  method CopyMem(dst: array<byte>, d: nat, mem: seq<byte>, a: nat, n: nat)
    requires d + n <= dst.Length
    modifies dst
    ensures forall k :: 0 <= k < dst.Length ==>
              dst[k] == if d <= k < d + n then ByteAt(mem, a + (k - d)) else old(dst[k])
  {
    var i := 0;
    while i < n
      invariant i <= n
      invariant forall k :: 0 <= k < dst.Length ==>
                  dst[k] == if d <= k < d + i then ByteAt(mem, a + (k - d)) else old(dst[k])
    {
      dst[d + i] := ByteAt(mem, a + i);
      i := i + 1;
    }
  }

  /** ZeroMem (dst + d, n): `dst[d .. d + n)` becomes zero, nothing else changes. */
  method ZeroMem(dst: array<byte>, d: nat, n: nat)
    requires d + n <= dst.Length
    modifies dst
    ensures forall k :: 0 <= k < dst.Length ==> dst[k] == if d <= k < d + n then 0 else old(dst[k])
  {
    var i := 0;
    while i < n
      invariant i <= n
      invariant forall k :: 0 <= k < dst.Length ==> dst[k] == if d <= k < d + i then 0 else old(dst[k])
    {
      dst[d + i] := 0;
      i := i + 1;
    }
  }

  /** AllocateCopyPool (n, mem + a) when the allocation succeeds: a new buffer holding those bytes. */
  method AllocateCopyPool(mem: seq<byte>, a: nat, n: nat) returns (dst: array<byte>)
    requires a + n <= |mem|
    ensures fresh(dst) && dst[..] == mem[a .. a + n]
  {
    dst := new byte[n];
    CopyMem(dst, 0, mem, a, n);
    forall k | 0 <= k < n
      ensures dst[k] == mem[a + k]
    {
    }
  }

  /** CompareMem (a + i, b + j, n) == 0: the `n` bytes at `i` of one buffer equal those at `j` of the other. */
  method CompareMem(a: seq<byte>, i: int, b: seq<byte>, j: int, n: nat) returns (same: bool)
    ensures same <==> BytesAt(a, i, n) == BytesAt(b, j, n)
  {
    var k := 0;
    while k < n && ByteAt(a, i + k) == ByteAt(b, j + k)
      invariant k <= n
      invariant BytesAt(a, i, k) == BytesAt(b, j, k)
    {
      k := k + 1;
    }
    same := k == n;
    if !same {
      assert BytesAt(a, i, n)[k] != BytesAt(b, j, n)[k];
    }
  }

  /** The `n` bytes at `i` in `a` equal the `n` bytes at `j` in `b`, compared from the last one down. */
  predicate SameBytes(a: seq<byte>, i: int, b: seq<byte>, j: int, n: nat)
  {
    n == 0 || (SameBytes(a, i, b, j, n - 1) && ByteAt(a, i + n - 1) == ByteAt(b, j + n - 1))
  }

  lemma {:induction false} SameBytesIff(a: seq<byte>, i: int, b: seq<byte>, j: int, n: nat)
    ensures SameBytes(a, i, b, j, n) <==> BytesAt(a, i, n) == BytesAt(b, j, n)
  {
    if n > 0 {
      SameBytesIff(a, i, b, j, n - 1);
      if BytesAt(a, i, n) == BytesAt(b, j, n) {
        assert BytesAt(a, i, n)[..n - 1] == BytesAt(a, i, n - 1);
        assert BytesAt(b, j, n)[..n - 1] == BytesAt(b, j, n - 1);
        assert BytesAt(a, i, n)[n - 1] == BytesAt(b, j, n)[n - 1];
      }
    }
  }

  /** The first bytes of a buffer are its prefix. */
  lemma {:induction false} BytesAtPrefix(a: seq<byte>, n: nat)
    requires n <= |a|
    ensures BytesAt(a, 0, n) == a[..n]
  {
  }

  /** The bytes `bs` sit at offset `p` of `mem`. */
  predicate At(mem: seq<byte>, p: nat, bs: seq<byte>)
  {
    p + |bs| <= |mem| && forall k :: 0 <= k < |bs| ==> mem[p + k] == bs[k]
  }

  lemma {:induction false} AtSplit(mem: seq<byte>, p: nat, a: seq<byte>, b: seq<byte>)
    requires At(mem, p, a + b)
    ensures At(mem, p, a) && At(mem, p + |a|, b)
  {
    forall k | 0 <= k < |a|
      ensures mem[p + k] == a[k]
    {
      assert (a + b)[k] == a[k];
    }
    forall k | 0 <= k < |b|
      ensures mem[p + |a| + k] == b[k]
    {
      assert (a + b)[|a| + k] == b[k];
    }
  }
}
