/** Bytes, 512-byte sectors and the little-endian loads and stores of the FAT engine. */
module Bytes {
  type byte = x: int | 0 <= x < 256

  const SS: int := 512

  type Sector = s: seq<byte> | |s| == 512 witness seq(512, _ => 0)

  function ZeroSector(): Sector {
    seq(512, _ => 0)
  }

  /** Wraps around to 32 bits. */
  function W(x: int): nat {
    x % 0x1_0000_0000
  }

  function LoadWord(s: seq<byte>, i: nat): nat
    requires i + 2 <= |s|
  {
    s[i] as int + 256 * s[i + 1] as int
  }

  function LoadDword(s: seq<byte>, i: nat): nat
    requires i + 4 <= |s|
  {
    s[i] as int + 256 * s[i + 1] as int + 65536 * s[i + 2] as int + 16777216 * s[i + 3] as int
  }

  /** The contents of `s` once `d` has been stored at offset `i`. */
  function Patch<T>(s: seq<T>, i: nat, d: seq<T>): (r: seq<T>)
    requires i + |d| <= |s|
    ensures |r| == |s|
    ensures forall j :: 0 <= j < |s| ==> r[j] == if i <= j < i + |d| then d[j - i] else s[j]
  {
    s[..i] + d + s[i + |d|..]
  }

  function WordBytes(v: nat): (r: seq<byte>)
    ensures |r| == 2
  {
    [v % 256, v / 256 % 256]
  }

  function DwordBytes(v: nat): (r: seq<byte>)
    ensures |r| == 4
  {
    [v % 256, v / 256 % 256, v / 65536 % 256, v / 16777216 % 256]
  }

  method StoreWord(a: array<byte>, i: nat, v: nat)
    requires i + 2 <= a.Length
    modifies a
    ensures a[..] == Patch(old(a[..]), i, WordBytes(v))
  {
    a[i] := v % 256;
    a[i + 1] := v / 256 % 256;
  }

  method StoreDword(a: array<byte>, i: nat, v: nat)
    requires i + 4 <= a.Length
    modifies a
    ensures a[..] == Patch(old(a[..]), i, DwordBytes(v))
  {
    a[i] := v % 256;
    a[i + 1] := v / 256 % 256;
    a[i + 2] := v / 65536 % 256;
    a[i + 3] := v / 16777216 % 256;
  }

  /** Copies `d` into `a` at offset `i`. */
  method CopyInto(a: array<byte>, i: nat, d: seq<byte>)
    requires i + |d| <= a.Length
    modifies a
    ensures a[..] == Patch(old(a[..]), i, d)
  {
    var k := 0;
    while k < |d|
      invariant 0 <= k <= |d|
      invariant a[..] == Patch(old(a[..]), i, d[..k])
    {
      a[i + k] := d[k];
      k := k + 1;
    }
    assert d[..k] == d;
  }
}
