/** Machine integers, byte strings, and the big-endian layout used by every multi-byte field. */
module Bytes {

  type byte = x: int | 0 <= x < 0x100
  type bytes = seq<byte>

  type int8 = x: int | -0x80 <= x < 0x80
  type int64 = x: int | -0x8000_0000_0000_0000 <= x < 0x8000_0000_0000_0000
  type uint32 = x: int | 0 <= x < 0x1_0000_0000
  type uint64 = x: int | 0 <= x < 0x1_0000_0000_0000_0000

  const MAX_INT64: int := 0x7FFF_FFFF_FFFF_FFFF

  /** 256 to the power w: the number of values a field of w bytes can hold. */
  function Pow256(w: nat): (r: nat)
    ensures r > 0
  {
    if w == 0 then 1 else 0x100 * Pow256(w - 1)
  }

  lemma PowValues()
    ensures Pow256(0) == 1
    ensures Pow256(1) == 0x100
    ensures Pow256(2) == 0x1_0000
    ensures Pow256(4) == 0x1_0000_0000
    ensures Pow256(8) == 0x1_0000_0000_0000_0000
  {
    assert Pow256(3) == 0x100_0000;
    assert Pow256(4) == 0x1_0000_0000;
    assert Pow256(5) == 0x100_0000_0000;
    assert Pow256(6) == 0x1_0000_0000_0000;
    assert Pow256(7) == 0x100_0000_0000_0000;
  }

  /** The w low-order bytes of n, most significant first. */
  function BE(w: nat, n: nat): (s: bytes)
    ensures |s| == w
  {
    if w == 0 then [] else BE(w - 1, n / 0x100) + [n % 0x100]
  }

  /** The number written big-endian in s. */
  function UnBE(s: bytes): (n: nat)
    ensures n < Pow256(|s|)
  {
    if s == [] then 0 else UnBE(s[..|s| - 1]) * 0x100 + s[|s| - 1]
  }

  lemma {:induction false} UnBEofBE(w: nat, n: nat)
    requires n < Pow256(w)
    ensures UnBE(BE(w, n)) == n
  {
    if w != 0 {
      UnBEofBE(w - 1, n / 0x100);
      assert BE(w, n)[..w - 1] == BE(w - 1, n / 0x100);
    }
  }

  lemma {:induction false} BEofUnBE(s: bytes)
    ensures BE(|s|, UnBE(s)) == s
  {
    if s != [] {
      BEofUnBE(s[..|s| - 1]);
      assert s == s[..|s| - 1] + [s[|s| - 1]];
    }
  }

  /** Half the range of a w-byte field. */
  function Half(w: nat): (h: int)
    requires 0 < w
    ensures Pow256(w) == 2 * h && h > 0
  {
    0x80 * Pow256(w - 1)
  }

  /** Two's complement reading of a w-byte field. */
  function Signed(w: nat, n: nat): (i: int)
    requires 0 < w && n < Pow256(w)
    ensures -Half(w) <= i < Half(w)
  {
    if n < Half(w) then n else n - Pow256(w)
  }

  /** Two's complement writing: Go's conversions byte(v), uint16(v), uint32(v), uint64(v). */
  function Unsigned(w: nat, i: int): (n: nat)
    ensures n < Pow256(w)
  {
    i % Pow256(w)
  }

  lemma SignedOfUnsigned(w: nat, i: int)
    requires w == 1 || w == 2 || w == 4 || w == 8
    requires -Half(w) <= i < Half(w)
    ensures Signed(w, Unsigned(w, i)) == i
  {
    PowValues();
  }

  /** Go's wrap-around conversion of any integer to int64. */
  function Wrap64(i: int): (r: int64)
    ensures -0x8000_0000_0000_0000 <= i < 0x8000_0000_0000_0000 ==> r == i
  {
    var u := i % 0x1_0000_0000_0000_0000;
    if u < 0x8000_0000_0000_0000 then u else u - 0x1_0000_0000_0000_0000
  }

  /** The conversion keeps the low 64 bits. */
  lemma Wrap64Means(i: int)
    ensures (i - Wrap64(i)) % 0x1_0000_0000_0000_0000 == 0
  {
  }

  /** The i-th byte of s is the one in data behind offset pos. */
  predicate SameByte(data: bytes, pos: nat, s: bytes, i: nat)
    requires i < |s|
  {
    pos + i < |data| && data[pos + i] == s[i]
  }

  /** s occurs in data at offset pos; stated byte by byte, so that proofs take the bytes in one step or none. */
  predicate At(data: bytes, pos: nat, s: bytes)
    ensures At(data, pos, s) && s != [] ==> pos < |data| && data[pos] == s[0]
  {
    assert s != [] && SameByte(data, pos, s, 0) ==> data[pos] == s[0];
    pos + |s| <= |data| && forall i: nat | i < |s| :: SameByte(data, pos, s, i)
  }

  lemma AtSlice(data: bytes, pos: nat, s: bytes)
    ensures At(data, pos, s) <==> pos + |s| <= |data| && data[pos..pos + |s|] == s
  {
    if At(data, pos, s) {
      forall i: nat | i < |s| ensures data[pos..pos + |s|][i] == s[i] {
        assert SameByte(data, pos, s, i);
      }
    }
    if pos + |s| <= |data| && data[pos..pos + |s|] == s {
      forall i: nat | i < |s| ensures SameByte(data, pos, s, i) {
        assert data[pos..pos + |s|][i] == s[i];
      }
    }
  }

  lemma AtConcat(data: bytes, pos: nat, a: bytes, b: bytes)
    ensures At(data, pos, a + b) <==> At(data, pos, a) && At(data, pos + |a|, b)
  {
    AtSlice(data, pos, a);
    AtSlice(data, pos + |a|, b);
    AtSlice(data, pos, a + b);
    if pos + |a + b| <= |data| {
      Split(data, pos, pos + |a|, pos + |a + b|);
    }
  }

  lemma Split(data: bytes, a: nat, b: nat, c: nat)
    requires a <= b <= c <= |data|
    ensures data[a..c] == data[a..b] + data[b..c]
  {
  }
}
