/** How FAT entries are packed into the bytes of a FAT. An entry is described by its
    nibbles: it starts at nibble Stride * c and occupies Width nibbles. */
module FatCodec {
  import opened Bytes
  import opened Layout
  import Bits

  function Nibble(b: seq<byte>, k: nat): (r: nat)
    requires k < 2 * |b|
    ensures r < 16
  {
    if k % 2 == 0 then b[k / 2] % 16 else b[k / 2] / 16
  }

  lemma NibblesOf(b: seq<byte>, q: nat)
    requires q < |b|
    ensures Nibble(b, 2 * q) == b[q] % 16 && Nibble(b, 2 * q + 1) == b[q] / 16
  {
    assert 2 * q / 2 == q && (2 * q + 1) / 2 == q && 2 * q % 2 == 0 && (2 * q + 1) % 2 == 1;
  }

  predicate Fits(b: seq<byte>, k: Kind, n: nat) {
    Stride(k) * n <= 2 * |b|
  }

  /** The number whose `w` hexadecimal digits start at nibble `k`, lowest first. */
  function Digits(b: seq<byte>, k: nat, w: nat): nat
    requires k + w <= 2 * |b|
    decreases w
  {
    if w == 0 then 0 else Nibble(b, k) + 16 * Digits(b, k + 1, w - 1)
  }

  /** The value of entry `c`. */
  function Entry(b: seq<byte>, kind: Kind, c: nat): nat
    requires Fits(b, kind, c + 1)
  {
    Digits(b, Stride(kind) * c, Width(kind))
  }

  /** The whole table of `n` entries. */
  function Table(b: seq<byte>, kind: Kind, n: nat): (f: seq<nat>)
    requires Fits(b, kind, n)
    ensures |f| == n
  {
    seq(n, c requires 0 <= c < n => Entry(b, kind, c))
  }

  /** A value cut to the width of an entry. */
  function Truncate(k: Kind, v: nat): nat {
    match k case Fat12 => v % 0x1000 case Fat16 => v % 0x1_0000 case Fat32 => v % 0x1000_0000
  }

  function Digit(v: nat, j: nat): nat {
    if j == 0 then v % 16 else Digit(v / 16, j - 1)
  }

  /** Storing `v` in entry `c`: the nibbles of the entry become the digits of `v`,
      every other nibble of the FAT stays. */
  ghost predicate IsPut(b: seq<byte>, b': seq<byte>, kind: Kind, c: nat, v: nat)
  {
    && |b'| == |b|
    && forall k: nat | k < 2 * |b| ::
      Nibble(b', k) ==
      if Stride(kind) * c <= k < Stride(kind) * c + Width(kind) then Digit(v, k - Stride(kind) * c)
      else Nibble(b, k)
  }

  function Pow16(w: nat): (r: nat)
    ensures r > 0
  {
    if w == 0 then 1 else 16 * Pow16(w - 1)
  }

  lemma ModStep(v: nat, p: nat)
    requires p > 0
    ensures v % (16 * p) == v % 16 + 16 * (v / 16 % p)
  {
    var q, r := v / 16, v % 16;
    var s, t := q / p, q % p;
    assert v == 16 * q + r && q == p * s + t;
    assert 16 * q == 16 * (p * s) + 16 * t;
    assert 16 * (p * s) == (16 * p) * s;
    assert v == (16 * p) * s + (r + 16 * t);
    Bits.ModIs(v, 16 * p, s, r + 16 * t);
  }

  lemma {:induction false} DigitsOf(b: seq<byte>, k: nat, w: nat, v: nat)
    requires k + w <= 2 * |b|
    requires forall j: nat | j < w :: Nibble(b, k + j) == Digit(v, j)
    ensures Digits(b, k, w) == v % Pow16(w)
    decreases w
  {
    if w > 0 {
      assert Nibble(b, k + 0) == Digit(v, 0);
      forall j: nat | j < w - 1 ensures Nibble(b, k + 1 + j) == Digit(v / 16, j) {
        assert Nibble(b, k + (j + 1)) == Digit(v, j + 1);
      }
      DigitsOf(b, k + 1, w - 1, v / 16);
      ModStep(v, Pow16(w - 1));
    }
  }

  lemma {:induction false} DigitsSame(b: seq<byte>, b': seq<byte>, k: nat, w: nat)
    requires k + w <= 2 * |b| && |b'| == |b|
    requires forall j: nat | k <= j < k + w :: Nibble(b', j) == Nibble(b, j)
    ensures Digits(b', k, w) == Digits(b, k, w)
    decreases w
  {
    if w > 0 {
      DigitsSame(b, b', k + 1, w - 1);
    }
  }

  lemma PowWidth(kind: Kind, v: nat)
    ensures v % Pow16(Width(kind)) == Truncate(kind, v)
  {
    assert Pow16(3) == 0x1000;
    assert Pow16(4) == 0x1_0000;
    assert Pow16(6) == 0x100_0000;
    assert Pow16(7) == 0x1000_0000;
  }

  /** Reading back: the entry holds the truncated value, every other entry what it held. */
  lemma {:induction false} PutThenGet(b: seq<byte>, b': seq<byte>, kind: Kind, n: nat, c: nat, v: nat)
    requires Fits(b, kind, n) && c < n && IsPut(b, b', kind, c, v)
    ensures Table(b', kind, n) == Table(b, kind, n)[c := Truncate(kind, v)]
  {
    var st, w := Stride(kind), Width(kind);
    forall e: nat | e < n
      ensures Entry(b', kind, e) == if e == c then Truncate(kind, v) else Entry(b, kind, e)
    {
      if e == c {
        DigitsOf(b', st * c, w, v);
        PowWidth(kind, v);
      } else {
        EntriesApart(kind, c, e);
        DigitsSame(b, b', st * e, w);
      }
    }
  }

  lemma EntriesApart(kind: Kind, c: nat, e: nat)
    requires c != e
    ensures Stride(kind) * c + Width(kind) <= Stride(kind) * e || Stride(kind) * e + Width(kind) <= Stride(kind) * c
  {
  }

  // ----- the bytes put_fat stores -----

  /** FAT12: the byte at which an entry starts. */
  function Byte12(c: nat): nat {
    c + c / 2
  }

  lemma Byte12Fits(c: nat, n: nat, len: nat)
    requires c < n && 3 * n <= 2 * len
    ensures Byte12(c) + 1 < len
  {
  }

  /** FAT12: the first byte stored over `b0`, and the second stored over `b1`. */
  function Put12Low(c: nat, v: nat, b0: byte): byte {
    if c % 2 == 1 then b0 % 16 + v % 16 * 16 else v % 256
  }

  function Put12High(c: nat, v: nat, b1: byte): byte {
    if c % 2 == 1 then v / 16 % 256 else b1 / 16 * 16 + v / 256 % 16
  }

  lemma DivFacts(v: nat)
    ensures v % 256 % 16 == v % 16 && v % 256 / 16 == v / 16 % 16
    ensures v / 16 / 16 == v / 256
  {
  }

  lemma Nibble12(c: nat)
    ensures 3 * c == 2 * Byte12(c) + c % 2
  {
  }

  lemma Put12Case(b: seq<byte>, b': seq<byte>, c: nat, v: nat, p: nat)
    requires p == Byte12(c) && p + 1 < |b|
    requires b' == b[p := Put12Low(c, v, b[p])][p + 1 := Put12High(c, v, b[p + 1])]
    ensures Nibble(b', 3 * c) == Digit(v, 0) && Nibble(b', 3 * c + 1) == Digit(v, 1)
    ensures Nibble(b', 3 * c + 2) == Digit(v, 2)
    ensures c % 2 == 1 ==> Nibble(b', 3 * c - 1) == Nibble(b, 3 * c - 1)
    ensures c % 2 == 0 ==> Nibble(b', 3 * c + 3) == Nibble(b, 3 * c + 3)
  {
    Nibble12(c);
    ThreeDigits(v);
    if c % 2 == 1 {
      TopNibble(b'[p], b[p] % 16, v % 16);
    } else {
      TopNibble(b'[p + 1], v / 256 % 16, b[p + 1] / 16);
    }
  }

  lemma ThreeDigits(v: nat)
    ensures Digit(v, 0) == v % 256 % 16 && Digit(v, 1) == v % 256 / 16 == v / 16 % 256 % 16
    ensures Digit(v, 2) == v / 16 % 256 / 16 == v / 256 % 16
  {
    DivFacts(v);
    DivFacts(v / 16);
  }

  lemma {:induction false} Put12Bytes(b: seq<byte>, b': seq<byte>, c: nat, v: nat)
    requires Fits(b, Fat12, c + 1) && Byte12(c) + 1 < |b|
    requires var p := Byte12(c); b' == b[p := Put12Low(c, v, b[p])][p + 1 := Put12High(c, v, b[p + 1])]
    ensures IsPut(b, b', Fat12, c, v)
  {
    var p := Byte12(c);
    Put12Case(b, b', c, v, p);
    forall k: nat | k < 2 * |b|
      ensures Nibble(b', k) == if 3 * c <= k < 3 * c + 3 then Digit(v, k - 3 * c) else Nibble(b, k)
    {
      if k / 2 != p && k / 2 != p + 1 {
        assert Nibble(b', k) == Nibble(b, k);
      }
    }
  }

  lemma Pair(b: seq<byte>, q: nat, v: nat)
    requires q < |b| && b[q] == v % 256
    ensures Nibble(b, 2 * q) == Digit(v, 0) && Nibble(b, 2 * q + 1) == Digit(v, 1)
  {
    hide Nibble;
    NibblesOf(b, q);
    DivFacts(v);
  }

  lemma DigitShift(v: nat, j: nat)
    ensures Digit(v, j + 2) == Digit(v / 256, j)
  {
    assert Digit(v, j + 2) == Digit(v / 16, j + 1);
    DivFacts(v);
  }

  lemma {:induction false} Put16Bytes(b: seq<byte>, b': seq<byte>, c: nat, v: nat)
    requires Fits(b, Fat16, c + 1)
    requires b' == Patch(b, 2 * c, WordBytes(v))
    ensures IsPut(b, b', Fat16, c, v)
  {
    Pair(b', 2 * c, v);
    Pair(b', 2 * c + 1, v / 256);
    DigitShift(v, 0);
    DigitShift(v, 1);
    forall k: nat | k < 2 * |b|
      ensures Nibble(b', k) == if 4 * c <= k < 4 * c + 4 then Digit(v, k - 4 * c) else Nibble(b, k)
    {
      if k / 2 < 2 * c || 2 * c + 2 <= k / 2 {
        assert Nibble(b', k) == Nibble(b, k);
      }
    }
  }

  /** FAT32: the dword put_fat stores keeps the top four bits it found. */
  function Keep4(v: nat, x: nat): nat {
    v % 0x1000_0000 + x / 0x1000_0000 * 0x1000_0000
  }

  lemma Keep4Top(v: nat, x: nat)
    ensures Keep4(v, x) / 16777216 == v / 16777216 % 16 + 16 * (x / 0x1000_0000)
  {
    var m, w, t := v / 0x1000_0000, v % 0x1000_0000, x / 0x1000_0000;
    var a, r := w / 16777216, w % 16777216;
    assert v == 16777216 * (16 * m + a) + r && a < 16;
    assert v / 16777216 == 16 * m + a;
    assert Keep4(v, x) == 16777216 * (16 * t + a) + r;
  }

  lemma Keep4Low(v: nat, x: nat)
    ensures Keep4(v, x) % 256 == v % 256
    ensures Keep4(v, x) / 256 % 256 == v / 256 % 256
    ensures Keep4(v, x) / 65536 % 256 == v / 65536 % 256
  {
    var m, w, t := v / 0x1000_0000, v % 0x1000_0000, x / 0x1000_0000;
    Under28(v, m, w);
    Under28(Keep4(v, x), t, w);
  }

  /** The low three bytes do not depend on what lies above bit 28. */
  lemma Under28(v: nat, m: nat, w: nat)
    requires v == w + 0x1000_0000 * m && w < 0x1000_0000
    ensures v % 256 == w % 256 && v / 256 % 256 == w / 256 % 256 && v / 65536 % 256 == w / 65536 % 256
  {
    Carry(v, w, m, 256, 0x10_0000);
    Carry(v, w, m, 65536, 0x1000);
    LowByte(w, 0x10_0000 * m);
    LowByte(w / 256, 0x1000 * m);
    LowByte(w / 65536, 0x10 * m);
    assert v == w + 256 * (0x10_0000 * m);
  }

  lemma LowByte(a: nat, k: nat)
    ensures (a + 256 * k) % 256 == a % 256
  {
  }

  lemma Carry(v: nat, w: nat, m: nat, p: nat, q: nat)
    requires (p == 256 && q == 0x10_0000) || (p == 65536 && q == 0x1000)
    requires v == w + 0x1000_0000 * m
    ensures v / p == w / p + q * m
  {
    var a, r := w / p, w % p;
    if p == 256 {
      assert v == 256 * (a + 0x10_0000 * m) + r;
    } else {
      assert v == 65536 * (a + 0x1000 * m) + r;
    }
  }

  lemma DwordTop(a: seq<byte>, i: nat)
    requires i + 4 <= |a|
    ensures LoadDword(a, i) / 0x1000_0000 == a[i + 3] / 16
  {
    var lo := a[i] as int + 256 * a[i + 1] as int + 65536 * a[i + 2] as int;
    var h, l := a[i + 3] as int / 16, a[i + 3] as int % 16;
    assert LoadDword(a, i) == lo + 16777216 * l + 0x1000_0000 * h;
    assert lo + 16777216 * l < 0x1000_0000;
  }

  lemma {:induction false} Put32Bytes(b: seq<byte>, b': seq<byte>, c: nat, v: nat)
    requires Fits(b, Fat32, c + 1)
    requires b' == Patch(b, 4 * c, DwordBytes(Keep4(v, LoadDword(b, 4 * c))))
    ensures IsPut(b, b', Fat32, c, v)
  {
    var x := LoadDword(b, 4 * c);
    var y := Keep4(v, x);
    Keep4Low(v, x);
    Keep4Top(v, x);
    DwordTop(b, 4 * c);
    assert b'[4 * c] == y % 256 && b'[4 * c + 1] == y / 256 % 256 && b'[4 * c + 2] == y / 65536 % 256;
    assert b'[4 * c + 3] == y / 16777216 % 256;
    Put32Digits(b', c, v, x / 0x1000_0000);
    Put32Frame(b, b', c, v);
  }

  lemma {:induction false} Put32Digits(b: seq<byte>, c: nat, v: nat, t: nat)
    requires 4 * c + 4 <= |b| && t < 16
    requires b[4 * c] == v % 256 && b[4 * c + 1] == v / 256 % 256 && b[4 * c + 2] == v / 65536 % 256
    requires b[4 * c + 3] == v / 16777216 % 16 + 16 * t
    ensures forall j: nat | j < 7 :: Nibble(b, 8 * c + j) == Digit(v, j)
    ensures b[4 * c + 3] / 16 == t
  {
    Pair(b, 4 * c, v);
    Pair(b, 4 * c + 1, v / 256);
    Pair(b, 4 * c + 2, v / 65536);
    SevenDigits(v);
    NibblesOf(b, 4 * c + 3);
    hide Digit;
    assert Nibble(b, 8 * c) == Digit(v, 0) && Nibble(b, 8 * c + 1) == Digit(v, 1);
    assert Nibble(b, 8 * c + 2) == Digit(v, 2) && Nibble(b, 8 * c + 3) == Digit(v, 3);
    assert Nibble(b, 8 * c + 4) == Digit(v, 4) && Nibble(b, 8 * c + 5) == Digit(v, 5);
    TopNibble(b[4 * c + 3], v / 16777216 % 16, t);
    assert Nibble(b, 8 * c + 6) == Digit(v, 6);
  }

  lemma TopNibble(x: int, lo: int, hi: int)
    requires x == lo + 16 * hi && 0 <= lo < 16
    ensures x % 16 == lo && x / 16 == hi
  {
  }

  lemma SevenDigits(v: nat)
    ensures Digit(v, 2) == Digit(v / 256, 0) && Digit(v, 3) == Digit(v / 256, 1)
    ensures Digit(v, 4) == Digit(v / 65536, 0) && Digit(v, 5) == Digit(v / 65536, 1)
    ensures Digit(v, 6) == v / 16777216 % 16
  {
    Quarters(v);
    DigitShift(v, 0);
    DigitShift(v, 1);
    DigitShift(v, 2);
    DigitShift(v / 256, 0);
    DigitShift(v, 3);
    DigitShift(v / 256, 1);
    DigitShift(v, 4);
    DigitShift(v / 256, 2);
    DigitShift(v / 65536, 0);
  }

  lemma Quarters(v: nat)
    ensures v / 256 / 256 == v / 65536 && v / 65536 / 256 == v / 16777216
  {
  }

  lemma {:induction false} Put32Frame(b: seq<byte>, b': seq<byte>, c: nat, v: nat)
    requires Fits(b, Fat32, c + 1) && |b'| == |b|
    requires forall q :: 0 <= q < |b| && !(4 * c <= q < 4 * c + 4) ==> b'[q] == b[q]
    requires forall j: nat | j < 7 :: Nibble(b', 8 * c + j) == Digit(v, j)
    requires b'[4 * c + 3] / 16 == b[4 * c + 3] / 16
    ensures IsPut(b, b', Fat32, c, v)
  {
    forall k: nat | k < 2 * |b|
      ensures Nibble(b', k) == if 8 * c <= k < 8 * c + 7 then Digit(v, k - 8 * c) else Nibble(b, k)
    {
      if 8 * c <= k < 8 * c + 7 {
        assert k == 8 * c + (k - 8 * c);
      }
    }
  }

  // ----- the bytes get_fat combines -----

  lemma DigitsPair(b: seq<byte>, q: nat, w: nat)
    requires q < |b| && 2 * q + 2 + w <= 2 * |b|
    ensures Digits(b, 2 * q, w + 2) == b[q] as int + 256 * Digits(b, 2 * q + 2, w)
  {
    hide Nibble;
    NibblesOf(b, q);
    assert Digits(b, 2 * q, w + 2) == Nibble(b, 2 * q) + 16 * Digits(b, 2 * q + 1, w + 1);
    assert Digits(b, 2 * q + 1, w + 1) == Nibble(b, 2 * q + 1) + 16 * Digits(b, 2 * q + 2, w);
  }

  /** FAT12: the two bytes merged and shifted to the entry. */
  function Merge12(c: nat, b0: byte, b1: byte): nat {
    var wc := b0 as int + 256 * b1 as int;
    if c % 2 == 1 then wc / 16 else wc % 4096
  }

  lemma {:induction false} Get12(b: seq<byte>, c: nat)
    requires Fits(b, Fat12, c + 1) && Byte12(c) + 1 < |b|
    ensures Entry(b, Fat12, c) == Merge12(c, b[Byte12(c)], b[Byte12(c) + 1])
  {
    var p := Byte12(c);
    hide Byte12, Digits;
    Nibble12(c);
    DigitsOne(b, p + 1);
    DigitsPair(b, p, 1);
    DigitsPair(b, p + 1, 0);
    DigitsOdd(b, p);
    Shift12(b[p] as int, b[p + 1] as int);
  }

  lemma DigitsOne(b: seq<byte>, q: nat)
    requires q < |b|
    ensures Digits(b, 2 * q, 0) == 0 && Digits(b, 2 * q + 2, 0) == 0 && Digits(b, 2 * q, 1) == b[q] % 16
  {
    hide Nibble;
    NibblesOf(b, q);
    assert Digits(b, 2 * q + 1, 0) == 0;
  }

  lemma DigitsOdd(b: seq<byte>, q: nat)
    requires q + 1 < |b|
    ensures Digits(b, 2 * q + 1, 3) == b[q] / 16 + 16 * Digits(b, 2 * q + 2, 2)
  {
    hide Nibble;
    NibblesOf(b, q);
    assert Digits(b, 2 * q + 1, 3) == Nibble(b, 2 * q + 1) + 16 * Digits(b, 2 * q + 2, 2);
  }

  lemma Shift12(x: nat, y: nat)
    requires x < 256
    ensures (x + 256 * y) / 16 == x / 16 + 16 * y
    ensures (x + 256 * y) % 4096 == x + 256 * (y % 16)
  {
  }

  lemma {:induction false} Get16(b: seq<byte>, c: nat)
    requires Fits(b, Fat16, c + 1)
    ensures Entry(b, Fat16, c) == LoadWord(b, 2 * c)
  {
    hide Digits;
    DigitsPair(b, 2 * c, 2);
    DigitsPair(b, 2 * c + 1, 0);
    DigitsOne(b, 2 * c + 1);
  }

  lemma {:induction false} Get32(b: seq<byte>, c: nat)
    requires Fits(b, Fat32, c + 1)
    ensures Entry(b, Fat32, c) == LoadDword(b, 4 * c) % 0x1000_0000
  {
    hide Digits;
    var q := 4 * c;
    SevenNibbles(b, q);
    Low28(b[q] as int + 256 * b[q + 1] as int + 65536 * b[q + 2] as int, b[q + 3] as int);
  }

  lemma SevenNibbles(b: seq<byte>, q: nat)
    requires q + 3 < |b|
    ensures Digits(b, 2 * q, 7) ==
            b[q] as int + 256 * b[q + 1] as int + 65536 * b[q + 2] as int + 16777216 * (b[q + 3] % 16) as int
  {
    hide Digits;
    DigitsPair(b, q, 5);
    DigitsPair(b, q + 1, 3);
    DigitsPair(b, q + 2, 1);
    DigitsOne(b, q + 3);
  }

  lemma Low28(lo: nat, b3: nat)
    requires lo < 16777216
    ensures (lo + 16777216 * b3) % 0x1000_0000 == lo + 16777216 * (b3 % 16)
  {
    var h, l := b3 / 16, b3 % 16;
    Bits.ModIs(lo + 16777216 * b3, 0x1000_0000, h, lo + 16777216 * l);
  }
}
