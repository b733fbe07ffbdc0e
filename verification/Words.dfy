/**
 Machine words and their big-endian bytes: the 256-bit words the EVM computes with, 160-bit
 addresses, and byte strings as they appear in calldata, memory and return data.
 */
module Words {
  const TWO_64: int := 0x1_0000_0000_0000_0000
  const TWO_160: int := 0x1_0000_0000_0000_0000_0000_0000_0000_0000_0000_0000
  const TWO_255: int := 0x8000_0000_0000_0000_0000_0000_0000_0000_0000_0000_0000_0000_0000_0000_0000_0000
  const TWO_256: int := 0x1_0000_0000_0000_0000_0000_0000_0000_0000_0000_0000_0000_0000_0000_0000_0000_0000

  type Byte = x: int | 0 <= x < 256
  type Word = x: int | 0 <= x < TWO_256
  type Address = x: int | 0 <= x < TWO_160

  function Pow256(k: nat): (p: nat)
    ensures p > 0
  {
    if k == 0 then 1 else 256 * Pow256(k - 1)
  }

  /** The low `len` bytes of `n`, most significant first; higher bytes are dropped, as a store does. */
  function ToBytes(n: nat, len: nat): (b: seq<Byte>)
    ensures |b| == len
  {
    if len == 0 then [] else ToBytes(n / 256, len - 1) + [n % 256]
  }

  function FromBytes(b: seq<Byte>): nat {
    if |b| == 0 then 0 else 256 * FromBytes(b[..|b| - 1]) + b[|b| - 1]
  }

  function WordBytes(w: nat): (b: seq<Byte>)
    ensures |b| == 32
  {
    ToBytes(w, 32)
  }

  lemma {:induction false} FromBytesBound(b: seq<Byte>)
    ensures FromBytes(b) < Pow256(|b|)
  {
    if |b| > 0 {
      FromBytesBound(b[..|b| - 1]);
    }
  }

  lemma {:induction false} FromToBytes(n: nat, len: nat)
    requires n < Pow256(len)
    ensures FromBytes(ToBytes(n, len)) == n
  {
    if len > 0 {
      FromToBytes(n / 256, len - 1);
      assert ToBytes(n, len)[..len - 1] == ToBytes(n / 256, len - 1);
    }
  }

  lemma {:induction false} ToFromBytes(b: seq<Byte>)
    ensures ToBytes(FromBytes(b), |b|) == b
  {
    if |b| > 0 {
      var high := FromBytes(b[..|b| - 1]);
      ToFromBytes(b[..|b| - 1]);
      assert (256 * high + b[|b| - 1]) / 256 == high;
      assert b == b[..|b| - 1] + [b[|b| - 1]];
    }
  }

  lemma {:induction false} Pow256Plus(a: nat, b: nat)
    ensures Pow256(a + b) == Pow256(a) * Pow256(b)
  {
    if a > 0 {
      Pow256Plus(a - 1, b);
      assert 256 * (Pow256(a - 1) * Pow256(b)) == Pow256(a) * Pow256(b);
    }
  }

  lemma Pow256Word()
    ensures Pow256(8) == TWO_64
    ensures Pow256(20) == TWO_160
    ensures Pow256(32) == TWO_256 == 2 * TWO_255
  {
    Pow256Plus(8, 8);
    Pow256Plus(16, 4);
    Pow256Plus(16, 16);
  }

  /** A 32-byte word reads back unchanged, and the bytes of two different words differ. */
  lemma WordRoundTrip(w: Word)
    ensures FromBytes(WordBytes(w)) == w
  {
    Pow256Word();
    FromToBytes(w, 32);
  }

  lemma {:induction false} FromBytesConcat(a: seq<Byte>, b: seq<Byte>)
    ensures FromBytes(a + b) == FromBytes(a) * Pow256(|b|) + FromBytes(b)
  {
    if |b| == 0 {
      assert a + b == a;
    } else {
      var init, last := b[..|b| - 1], b[|b| - 1];
      FromBytesConcat(a, init);
      assert (a + b)[..|a + b| - 1] == a + init;
      assert 256 * (FromBytes(a) * Pow256(|init|)) == FromBytes(a) * Pow256(|b|);
    }
  }
}
