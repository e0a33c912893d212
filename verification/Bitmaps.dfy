/** Bitmaps over byte arrays: the macros that set, clear and test one bit, and the scan for
    the first clear bit. */
module Bitmaps {
  import opened Bytes
  import opened Bits

  /** Bit `k` of a byte. */
  predicate Bit(b: nat, k: nat) {
    if k == 0 then b % 2 == 1 else Bit(b / 2, k - 1)
  }

  /** The byte with bit `k` set, or cleared. */
  function WithBit(b: nat, k: nat, on: bool): nat {
    if k == 0 then b / 2 * 2 + (if on then 1 else 0) else b % 2 + 2 * WithBit(b / 2, k - 1, on)
  }

  lemma {:induction false} WithBitBit(b: nat, k: nat, on: bool, m: nat)
    ensures Bit(WithBit(b, k, on), m) == if m == k then on else Bit(b, m)
  {
    if k > 0 {
      var r := WithBit(b / 2, k - 1, on);
      assert (b % 2 + 2 * r) % 2 == b % 2 && (b % 2 + 2 * r) / 2 == r;
      if m > 0 {
        WithBitBit(b / 2, k - 1, on, m - 1);
      }
    } else {
      var r := b / 2 * 2 + (if on then 1 else 0);
      assert r / 2 == b / 2 && r % 2 == if on then 1 else 0;
    }
  }

  lemma {:induction false} WithBitFits(b: nat, k: nat, on: bool, w: nat)
    requires b < Pow2(w) && k < w
    ensures WithBit(b, k, on) < Pow2(w)
  {
    if k > 0 {
      WithBitFits(b / 2, k - 1, on, w - 1);
    }
  }

  lemma ByteBits()
    ensures Pow2(8) == 256
  {
    assert Pow2(4) == 16;
  }

  /** All bits of 2^w - 1 are set. */
  lemma {:induction false} OnesBit(w: nat, k: nat)
    requires k < w
    ensures Bit(Pow2(w) - 1, k)
  {
    assert (Pow2(w) - 1) / 2 == Pow2(w - 1) - 1;
    if k > 0 {
      OnesBit(w - 1, k - 1);
    }
  }

  /** A smaller number has a clear bit. */
  lemma {:induction false} SomeClear(b: nat, w: nat) returns (k: nat)
    requires b < Pow2(w) - 1
    ensures k < w && !Bit(b, k)
  {
    if b % 2 == 0 {
      k := 0;
    } else {
      k := SomeClear(b / 2, w - 1);
      k := k + 1;
    }
  }

  class Bitmap {
    const data: array<byte>

    constructor (data: array<byte>)
      ensures this.data == data
    {
      this.data := data;
    }

    /** Number of bits. */
    function Size(): nat {
      8 * data.Length
    }

    function Test(i: nat): bool
      requires i < Size()
      reads data
    {
      Bit(data[i / 8], i % 8)
    }

    /** The bits, one after the other. */
    ghost function View(): (v: seq<bool>)
      reads data
      ensures |v| == Size()
    {
      seq(Size(), i requires 0 <= i < Size() reads data => Test(i))
    }

    method Put(i: nat, on: bool)
      requires i < Size()
      modifies data
      ensures View() == old(View())[i := on]
    {
      ByteBits();
      WithBitFits(data[i / 8], i % 8, on, 8);
      ghost var b := data[i / 8];
      data[i / 8] := WithBit(data[i / 8], i % 8, on);
      forall j | 0 <= j < Size() ensures Test(j) == if j == i then on else old(Test(j)) {
        WithBitBit(b, i % 8, on, j % 8);
      }
    }

    /** The first clear bit, byte by byte; the number of bits if there is none. */
    method FirstClear() returns (i: nat)
      ensures i <= Size() && (forall j :: 0 <= j < i ==> View()[j]) && (i < Size() ==> !View()[i])
    {
      ByteBits();
      var byte := 0;
      while byte < data.Length
        invariant 0 <= byte <= data.Length && forall j :: 0 <= j < 8 * byte ==> Test(j)
      {
        if data[byte] != 0xFF {
          ghost var k := SomeClear(data[byte], 8);
          var bit := 0;
          while bit < 8
            invariant 0 <= bit <= k < 8 && forall j :: 0 <= j < 8 * byte + bit ==> Test(j)
            decreases 8 - bit
          {
            assert Test(8 * byte + bit) == Bit(data[byte], bit);
            if !Bit(data[byte], bit) {
              return 8 * byte + bit;
            }
            bit := bit + 1;
          }
        } else {
          forall j | 8 * byte <= j < 8 * byte + 8 ensures Test(j) {
            OnesBit(8, j % 8);
          }
        }
        byte := byte + 1;
      }
      i := Size();
    }
  }
}
