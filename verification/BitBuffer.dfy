/**
 * The growing buffer of bits, most significant bit of each byte first.
 */
module BitBuffers {
  import opened Gf2
  import opened Galois

  /** The n low bits of x, most significant first. */
  function NumBits(x: nat, n: nat): (bits: seq<bool>)
    ensures |bits| == n
  {
    seq(n, i requires 0 <= i < n => Bit(x, n - 1 - i))
  }

  /** The number a sequence of bits spells. */
  function BitsNum(bits: seq<bool>): nat {
    if bits == [] then 0
    else 2 * BitsNum(bits[..|bits| - 1]) + if bits[|bits| - 1] then 1 else 0
  }

  lemma NumBitsAppend(x: nat, n: nat)
    requires n > 0
    ensures NumBits(x, n) == NumBits(x / 2, n - 1) + [x % 2 == 1]
  {
    forall i | 0 <= i < n - 1 ensures NumBits(x, n)[i] == NumBits(x / 2, n - 1)[i] {
      assert Bit(x, n - 1 - i) == Bit(x / 2, n - 2 - i);
    }
    assert NumBits(x, n)[n - 1] == Bit(x, 0) == (x % 2 == 1);
  }

  lemma {:induction false} BitsNumInverse(x: nat, n: nat)
    requires x < Pow2(n)
    ensures BitsNum(NumBits(x, n)) == x
  {
    if n > 0 {
      BitsNumInverse(x / 2, n - 1);
      NumBitsAppend(x, n);
    }
  }

  lemma {:induction false} NumBitsInverse(bits: seq<bool>)
    ensures BitsNum(bits) < Pow2(|bits|)
    ensures NumBits(BitsNum(bits), |bits|) == bits
  {
    hide NumBits;
    if bits == [] {
      assert NumBits(0, 0) == [];
    } else {
      var n := |bits| - 1;
      NumBitsInverse(bits[..n]);
      NumBitsAppend(BitsNum(bits), n + 1);
      assert BitsNum(bits) / 2 == BitsNum(bits[..n]);
      assert bits == bits[..n] + [bits[n]];
    }
  }

  lemma {:induction false} OrBit(x: nat, y: nat, k: nat)
    ensures Bit(Or(x, y), k) <==> Bit(x, k) || Bit(y, k)
  {
    hide Or;
    OrHalves(x, y);
    if k > 0 {
      OrBit(x / 2, y / 2, k - 1);
    }
  }

  lemma {:induction false} OrBelow(x: nat, y: nat, n: nat)
    requires x < Pow2(n) && y < Pow2(n)
    ensures Or(x, y) < Pow2(n)
  {
    if n > 0 {
      OrBelow(x / 2, y / 2, n - 1);
    }
  }

  lemma {:induction false} PowerBit(j: nat, k: nat)
    ensures Bit(Pow2(j), k) <==> j == k
  {
    if j == 0 {
      ZeroBit(k);
      if k > 0 {
        ZeroBit(k - 1);
      }
    } else if k > 0 {
      PowerBit(j - 1, k - 1);
    }
  }

  lemma {:induction false} ZeroBit(k: nat)
    ensures !Bit(0, k)
  {
    if k > 0 {
      ZeroBit(k - 1);
    }
  }

  /** Bit i of a byte sequence, the most significant bit of byte 0 first. */
  function ByteBit(bytes: seq<Byte>, i: nat): bool
    requires i < 8 * |bytes|
  {
    Bit(bytes[i / 8], 7 - i % 8)
  }

  function ByteBits(bytes: seq<Byte>): (bits: seq<bool>)
    ensures |bits| == 8 * |bytes|
  {
    seq(8 * |bytes|, i requires 0 <= i < 8 * |bytes| => ByteBit(bytes, i))
  }

  /** Sets one bit of one byte, as `buffer[b] |= 128 >>> k` does. */
  function WithBit(x: Byte, k: nat): Byte
    requires k < 8
  {
    WithBitCloses(x, k);
    Or(x, Pow2(7 - k))
  }

  lemma WithBitCloses(x: Byte, k: nat)
    requires k < 8
    ensures Or(x, Pow2(7 - k)) < 256
  {
    BytePowers();
    Pow2Grows(7 - k, 7);
    OrBelow(x, Pow2(7 - k), 8);
  }

  lemma WithBitReads(x: Byte, k: nat, i: nat)
    requires k < 8 && i < 8
    ensures Bit(WithBit(x, k), 7 - i) <==> i == k || Bit(x, 7 - i)
  {
    OrBit(x, Pow2(7 - k), 7 - i);
    PowerBit(7 - k, 7 - i);
  }

  class BitBuffer {
    var buffer: seq<Byte>
    var length: nat
    ghost var bits: seq<bool>

    ghost predicate Valid()
      reads this
    {
      && length == |bits|
      && 8 * |buffer| < length + 8 && length <= 8 * |buffer|
      && (forall i | 0 <= i < length :: ByteBit(buffer, i) == bits[i])
      && (forall i | length <= i < 8 * |buffer| :: !ByteBit(buffer, i))
    }

    constructor ()
      ensures Valid() && bits == []
    {
      buffer, length, bits := [], 0, [];
    }

    method Get(a: nat) returns (r: bool)
      requires Valid() && a < length
      ensures r == bits[a]
    {
      var b := a / 8;
      r := Bit(buffer[b], 7 - a % 8);
      assert r == ByteBit(buffer, a);
    }

    method GetLengthInBits() returns (n: nat)
      requires Valid()
      ensures n == |bits|
    {
      n := length;
    }

    method PutBit(a: bool)
      requires Valid()
      modifies this
      ensures Valid() && bits == old(bits) + [a]
    {
      hide Bit, WithBit;
      var b := length / 8;
      if |buffer| <= b {
        ghost var before := buffer;
        buffer := buffer + [0];
        forall i | length <= i < 8 * |buffer| ensures !ByteBit(buffer, i) {
          ZeroBit(7 - i % 8);
          assert i / 8 == |before|;
        }
        forall i | 0 <= i < length ensures ByteBit(buffer, i) == bits[i] {
          assert ByteBit(buffer, i) == ByteBit(before, i);
        }
      }
      ghost var was := buffer;
      if a {
        buffer := buffer[b := WithBit(buffer[b], length % 8)];
        forall i | 0 <= i < 8 * |buffer| ensures ByteBit(buffer, i) == (i == length || ByteBit(was, i)) {
          if i / 8 == b {
            WithBitReads(was[b], length % 8, i % 8);
          }
        }
      }
      length := length + 1;
      bits := bits + [a];
    }

    method Put(num: nat, n: nat)
      requires Valid()
      modifies this
      ensures Valid() && bits == old(bits) + NumBits(num, n)
    {
      for c := 0 to n
        invariant Valid() && bits == old(bits) + NumBits(num, n)[..c]
      {
        PutBit(Bit(num, n - c - 1));
      }
    }
  }

  /** A byte-aligned buffer spells its bits byte by byte. */
  lemma AlignedBytes(bytes: seq<Byte>, bits: seq<bool>)
    requires |bits| == 8 * |bytes|
    requires forall i | 0 <= i < |bits| :: ByteBit(bytes, i) == bits[i]
    ensures bits == ByteBits(bytes)
  {
  }

  /** The bits of one byte within the whole. */
  lemma ByteSlice(bytes: seq<Byte>, k: nat)
    requires k < |bytes|
    ensures ByteBits(bytes)[8 * k..8 * k + 8] == NumBits(bytes[k], 8)
    ensures BitsNum(ByteBits(bytes)[8 * k..8 * k + 8]) == bytes[k]
  {
    hide Bit, BitsNum;
    BytePowers();
    BitsNumInverse(bytes[k], 8);
    forall i | 0 <= i < 8 ensures ByteBits(bytes)[8 * k + i] == NumBits(bytes[k], 8)[i] {
      assert (8 * k + i) / 8 == k && (8 * k + i) % 8 == i;
    }
  }
}
