/** Long file names in directory entries: put_lfn spreads a name over entries of 13 units,
    pick_lfn takes an entry into the name buffer, cmp_lfn compares one with the buffer, and
    sum_sfn is the checksum that ties them to the short entry. */
module LongName {
  import opened Bytes

  type word = x: int | 0 <= x < 0x1_0000


  const MAX_LFN: nat := 255
  const LLEF: nat := 0x40
  const AM_LFN: byte := 0x0F
  const LfnOfs: seq<nat> := [1, 3, 5, 7, 9, 14, 16, 18, 20, 22, 24, 28, 30]

  const LDIR_Attr: nat := 11
  const LDIR_Type: nat := 12
  const LDIR_Chksum: nat := 13
  const LDIR_FstClusLO: nat := 26

  type Entry = e: seq<byte> | |e| == 32 witness seq(32, _ => 0)

  /** A name in a buffer: its units and a 0 behind them. */
  ghost predicate Holds(buf: seq<word>, name: seq<word>) {
    |name| < |buf| && buf[..|name|] == name && buf[|name|] == 0 && 0 !in name
  }

  /** Names that the entries can represent: 0xFFFF is the filler. */
  ghost predicate Plain(name: seq<word>) {
    0 !in name && 0xFFFF !in name
  }

  function Unit(name: seq<word>, i: nat): word {
    if i < |name| then name[i] else 0
  }

  /** The name, or its representable part, ends at or before place `t`. */
  predicate Stops(name: seq<word>, t: nat) {
    t >= |name| || name[t] == 0xFFFF
  }

  /** Before place `s` of the part that starts at unit `i`, the name or a filler ended. */
  ghost predicate Ended(name: seq<word>, i: nat, s: nat) {
    exists t :: i <= t < i + s && Stops(name, t)
  }

  /** The unit that belongs at place `s` of the part that starts at unit `i`. */
  ghost function PartUnit(name: seq<word>, i: nat, s: nat): word {
    if Ended(name, i, s) then 0xFFFF else Unit(name, i + s)
  }

  /** The part starting at `i` is the last: the name ends in it or right behind it. */
  ghost predicate LastPart(name: seq<word>, i: nat) {
    Ended(name, i, 13) || i + 13 == |name|
  }

  function Chars(e: Entry): (c: seq<word>)
    ensures |c| == 13
  {
    seq(13, s requires 0 <= s < 13 => LoadWord(e, LfnOfs[s]))
  }

  function SetLast(ord: byte): byte {
    if ord / LLEF % 2 == 1 then ord else (ord + LLEF) % 256
  }

  /** The entry that holds part `ord` of the name; all 32 bytes are determined. */
  ghost predicate IsPart(e: Entry, name: seq<word>, ord: byte, sum: byte)
    requires ord > 0
  {
    var i := (ord - 1) * 13;
    && e[0] == (if LastPart(name, i) then SetLast(ord) else ord)
    && e[LDIR_Attr] == AM_LFN && e[LDIR_Type] == 0 && e[LDIR_Chksum] == sum && LoadWord(e, LDIR_FstClusLO) == 0
    && forall s :: 0 <= s < 13 ==> Chars(e)[s] == PartUnit(name, i, s)
  }

  lemma WordStored(b: seq<byte>, i: nat, v: word)
    requires i + 2 <= |b|
    ensures LoadWord(Patch(b, i, WordBytes(v)), i) == v
    ensures forall j :: 0 <= j && j + 2 <= |b| && (j + 2 <= i || i + 2 <= j) ==>
      LoadWord(Patch(b, i, WordBytes(v)), j) == LoadWord(b, j)
  {
  }

  lemma EndedStep(name: seq<word>, i: nat, s: nat)
    requires i <= |name|
    ensures !Ended(name, i, 0)
    ensures Ended(name, i, s + 1) <==> Ended(name, i, s) || Stops(name, i + s)
    ensures !Ended(name, i, s) ==> i + s <= |name|
  {
    assert Stops(name, i + s) ==> Ended(name, i, s + 1);
    assert s > 0 && Stops(name, i + (s - 1)) ==> Ended(name, i, s);
  }

  /** The fields of an entry other than its order and its units. */
  ghost predicate Header(b: seq<byte>, o: nat, sum: byte) {
    && o + 32 <= |b|
    && b[o + LDIR_Attr] == AM_LFN && b[o + LDIR_Type] == 0 && b[o + LDIR_Chksum] == sum
    && LoadWord(b, o + LDIR_FstClusLO) == 0
  }

  lemma OffsetsApart(s: nat, t: nat)
    requires s < t < 13
    ensures 0 < LfnOfs[s] && LfnOfs[s] + 2 <= LfnOfs[t] && LfnOfs[t] + 2 <= 32
    ensures LfnOfs[s] + 2 <= LDIR_Attr || (LDIR_Chksum < LfnOfs[s] && LfnOfs[s] + 2 <= LDIR_FstClusLO)
      || LDIR_FstClusLO + 2 <= LfnOfs[s]
  {
  }

  lemma {:induction false} UnitStored(b: seq<byte>, o: nat, s: nat, v: word, sum: byte)
    requires s < 13 && Header(b, o, sum)
    ensures o + LfnOfs[s] + 2 <= |b|
    ensures var b' := Patch(b, o + LfnOfs[s], WordBytes(v));
      && Header(b', o, sum) && LoadWord(b', o + LfnOfs[s]) == v
      && forall t :: 0 <= t < 13 && t != s ==> LoadWord(b', o + LfnOfs[t]) == LoadWord(b, o + LfnOfs[t])
  {
    hide LoadWord, WordBytes;
    OffsetsFit(s);
    var i := o + LfnOfs[s];
    WordStored(b, i, v);
    forall t | 0 <= t < 13 && t != s
      ensures LoadWord(Patch(b, i, WordBytes(v)), o + LfnOfs[t]) == LoadWord(b, o + LfnOfs[t])
    {
      OffsetsApart(if s < t then s else t, if s < t then t else s);
    }
  }

  lemma OffsetsFit(s: nat)
    requires s < 13
    ensures 0 < LfnOfs[s] && LfnOfs[s] + 2 <= 32
    ensures LfnOfs[s] + 2 <= LDIR_Attr || (LDIR_Chksum < LfnOfs[s] && LfnOfs[s] + 2 <= LDIR_FstClusLO)
      || LDIR_FstClusLO + 2 <= LfnOfs[s]
  {
  }

  /** One unit of an entry is set; the rest stays. */
  method StoreUnit(dir: array<byte>, o: nat, s: nat, v: word, ghost sum: byte)
    requires s < 13 && Header(dir[..], o, sum)
    modifies dir
    ensures Header(dir[..], o, sum) && LoadWord(dir[..], o + LfnOfs[s]) == v
    ensures forall t :: 0 <= t < 13 && t != s ==>
      LoadWord(dir[..], o + LfnOfs[t]) == old(LoadWord(dir[..], o + LfnOfs[t]))
    ensures forall j :: 0 <= j < dir.Length && !(o <= j < o + 32) ==> dir[j] == old(dir[j])
  {
    hide LoadWord, WordBytes, Header;
    OffsetsFit(s);
    UnitStored(dir[..], o, s, v, sum);
    StoreWord(dir, o + LfnOfs[s], v);
  }

  /** The units of an entry, in the array it lies in. */
  ghost predicate UnitsUpTo(b: seq<byte>, o: nat, name: seq<word>, i: nat, s: nat) {
    o + 32 <= |b| && s <= 13 && forall t :: 0 <= t < s ==> LoadWord(b, o + LfnOfs[t]) == PartUnit(name, i, t)
  }

  lemma EntryDone(b: seq<byte>, o: nat, name: seq<word>, ord: byte, sum: byte)
    requires ord > 0 && UnitsUpTo(b, o, name, (ord - 1) * 13, 13) && Header(b, o, sum)
    requires b[o] == if LastPart(name, (ord - 1) * 13) then SetLast(ord) else ord
    ensures IsPart(b[o..o + 32], name, ord, sum)
  {
    var e := b[o..o + 32];
    var i := (ord - 1) * 13;
    forall s | 0 <= s < 13 ensures Chars(e)[s] == PartUnit(name, i, s) {
      assert LoadWord(b, o + LfnOfs[s]) == LoadWord(e, LfnOfs[s]);
    }
  }

  /** put_lfn: the part `ord` of the name goes into the entry at offset `o`. */
  method PutLfn(lfn: array<word>, dir: array<byte>, o: nat, ord0: byte, sum: byte, ghost name: seq<word>)
    requires Holds(lfn[..], name) && o + 32 <= dir.Length && ord0 > 0 && (ord0 - 1) * 13 <= |name|
    modifies dir
    ensures IsPart(dir[o..o + 32], name, ord0, sum)
    ensures forall j :: 0 <= j < dir.Length && !(o <= j < o + 32) ==> dir[j] == old(dir[j])
  {
    hide Ended, IsPart;
    var ord := ord0;
    dir[o + LDIR_Chksum] := sum;
    dir[o + LDIR_Attr] := AM_LFN;
    dir[o + LDIR_Type] := 0;
    StoreWord(dir, o + LDIR_FstClusLO, 0);
    var i: nat := (ord - 1) as int * 13;
    ghost var i0 := i;
    var s, wc: word := 0, 0;
    EndedStep(name, i0, 0);
    while s < 13
      invariant 0 <= s <= 13 && Header(dir[..], o, sum) && UnitsUpTo(dir[..], o, name, i0, s)
      invariant if wc == 0xFFFF then Ended(name, i0, s) else !Ended(name, i0, s) && i == i0 + s <= |name|
      invariant forall j :: 0 <= j < dir.Length && !(o <= j < o + 32) ==> dir[j] == old(dir[j])
    {
      EndedStep(name, i0, s);
      EndedStep(name, i0, s + 1);
      if wc != 0xFFFF {
        wc := lfn[i];
        i := i + 1;
        HeldUnit(lfn[..], name, i0 + s);
      }
      assert wc == PartUnit(name, i0, s);
      StoreUnit(dir, o, s, wc, sum);
      if wc == 0 {
        wc := 0xFFFF;
      }
      s := s + 1;
    }
    EndedStep(name, i0, 13);
    if wc != 0xFFFF {
      HeldUnit(lfn[..], name, i);
    }
    if wc == 0xFFFF || lfn[i] == 0 {
      ord := SetLast(ord);
    }
    dir[o] := ord;
    EntryDone(dir[..], o, name, ord0, sum);
  }

  lemma HeldUnit(buf: seq<word>, name: seq<word>, i: nat)
    requires Holds(buf, name) && i <= |name|
    ensures buf[i] == Unit(name, i) && (buf[i] == 0 <==> i == |name|)
  {
  }

  // ----- reading an entry -----

  /** How many units of an entry count: those up to and with the first 0. */
  function Count(c: seq<word>): (n: nat)
    ensures n <= |c|
    ensures forall s :: 0 <= s < n - 1 ==> c[s] != 0
    ensures n < |c| ==> n > 0 && c[n - 1] == 0
  {
    if c == [] then 0 else if c[0] == 0 then 1 else 1 + Count(c[1..])
  }

  ghost predicate Padded(c: seq<word>) {
    forall s :: Count(c) <= s < |c| ==> c[s] == 0xFFFF
  }

  function ClearLast(ord: byte): byte {
    if ord / LLEF % 2 == 1 then ord - LLEF else ord
  }

  predicate IsLast(e: Entry) {
    e[0] / LLEF % 2 == 1
  }

  /** Offset in the name buffer of the part in an entry, in 32-bit arithmetic: order 0 has none. */
  function PickBase(e: Entry): nat {
    (ClearLast(e[0]) as int - 1) * 13 % 0x1_0000_0000
  }

  /** The entry is accepted: its units and, from the last part, the terminator fit. */
  ghost predicate Pickable(e: Entry) {
    && LoadWord(e, LDIR_FstClusLO) == 0 && Padded(Chars(e))
    && PickBase(e) + Count(Chars(e)) <= MAX_LFN
    && (IsLast(e) ==> PickBase(e) + Count(Chars(e)) < MAX_LFN)
  }

  /** How many units of the entry get into the name buffer. */
  function Taken(e: Entry): (n: nat)
    ensures n <= Count(Chars(e)) && (n > 0 ==> PickBase(e) + n <= MAX_LFN)
  {
    var i, n := PickBase(e), Count(Chars(e));
    if LoadWord(e, LDIR_FstClusLO) != 0 || i >= MAX_LFN then 0 else if i + n <= MAX_LFN then n else MAX_LFN - i
  }

  /** The name buffer once the entry was taken in, as far as it is. */
  ghost function Picked(buf: seq<word>, e: Entry): (b: seq<word>)
    requires |buf| == MAX_LFN + 1
    ensures |b| == |buf|
  {
    var i, n := PickBase(e), Taken(e);
    var b := if n == 0 then buf else Patch(buf, i, Chars(e)[..n]);
    if Pickable(e) && IsLast(e) then b[i + n := 0] else b
  }

  lemma CountStep(c: seq<word>, s: nat)
    requires s < |c|
    ensures Count(c) > 0
    ensures s < Count(c) ==> if c[s] == 0 then Count(c) == s + 1 else s + 1 < |c| ==> s + 1 < Count(c)
  {
    if s < Count(c) && c[s] != 0 && s + 1 == Count(c) < |c| {
      assert false;
    }
  }

  function UnitAt(e: Entry, s: nat): (u: word)
    requires s < 13
    ensures u == Chars(e)[s]
  {
    LoadWord(e, LfnOfs[s])
  }

  lemma PatchMore(b: seq<word>, i: nat, c: seq<word>, k: nat)
    requires k < |c| && i + k < |b|
    ensures Patch(b, i, c[..k])[i + k := c[k]] == Patch(b, i, c[..k + 1])
    ensures Patch(b, i, c[..0]) == b
  {
  }

  /** pick_lfn. */
  method PickLfn(lfnbuf: array<word>, dir: Entry) returns (ok: bool)
    requires lfnbuf.Length == MAX_LFN + 1
    modifies lfnbuf
    ensures ok <==> Pickable(dir)
    ensures lfnbuf[..] == Picked(old(lfnbuf[..]), dir)
  {
    hide Patch, Chars, LoadWord, UnitAt, Count;
    if LoadWord(dir, LDIR_FstClusLO) != 0 {
      return false;
    }
    ghost var c, n := Chars(dir), Count(Chars(dir));
    ghost var b0 := lfnbuf[..];
    ghost var i0 := PickBase(dir);
    var i: nat := (ClearLast(dir[0]) as int - 1) * 13 % 0x1_0000_0000;
    var s, wc: word := 0, 1;
    while s < 13
      invariant 0 <= s <= 13 && i == i0 + (if s < n then s else n) && (s < 13 ==> (wc != 0 <==> s < n))
      invariant if s == 0 then lfnbuf[..] == b0 else i <= MAX_LFN && lfnbuf[..] == Patch(b0, i0, c[..i - i0])
      invariant forall t :: n <= t < s ==> c[t] == 0xFFFF
    {
      CountStep(c, s);
      var uc := UnitAt(dir, s);
      if wc != 0 {
        if i >= MAX_LFN {
          return false;
        }
        PatchMore(b0, i0, c, s);
        lfnbuf[i] := uc;
        i := i + 1;
        wc := uc;
      } else if uc != 0xFFFF {
        return false;
      }
      s := s + 1;
    }
    if IsLast(dir) {
      if i >= MAX_LFN {
        return false;
      }
      lfnbuf[i] := 0;
    }
    ok := true;
  }

  // ----- comparing an entry -----

  /** Offset in the name buffer at which the entry is compared. */
  function CmpBase(e: Entry): nat {
    (e[0] as int % 0x40 - 1) * 13 % 0x1_0000_0000
  }

  /** Unit `s` of the entry equals that of the name, up to the case mapping `up`. */
  predicate SameUnit(buf: seq<word>, e: Entry, s: nat, up: word -> word)
    requires |buf| == MAX_LFN + 1 && s < 13
  {
    CmpBase(e) + s < MAX_LFN && up(Chars(e)[s]) == up(buf[CmpBase(e) + s])
  }

  ghost predicate Matches(buf: seq<word>, e: Entry, up: word -> word)
    requires |buf| == MAX_LFN + 1
  {
    && LoadWord(e, LDIR_FstClusLO) == 0 && Padded(Chars(e))
    && (forall s :: 0 <= s < Count(Chars(e)) ==> SameUnit(buf, e, s, up))
    && (IsLast(e) && Count(Chars(e)) == 13 && Chars(e)[12] != 0 && CmpBase(e) + 12 < MAX_LFN ==>
      buf[CmpBase(e) + 13] == 0)
  }

  /** cmp_lfn. */
  method CmpLfn(lfnbuf: array<word>, dir: Entry, up: word -> word) returns (ok: bool)
    requires lfnbuf.Length == MAX_LFN + 1
    ensures ok <==> Matches(lfnbuf[..], dir, up)
  {
    hide Chars, LoadWord, UnitAt, Count;
    if LoadWord(dir, LDIR_FstClusLO) != 0 {
      return false;
    }
    ghost var c, n := Chars(dir), Count(Chars(dir));
    var i: nat := (dir[0] as int % 0x40 - 1) * 13 % 0x1_0000_0000;
    ghost var i0 := i;
    var s, wc: word := 0, 1;
    while s < 13
      invariant 0 <= s <= 13 && i == i0 + (if s < n then s else n) && (s < 13 ==> (wc != 0 <==> s < n))
      invariant s == 13 ==> (wc != 0 <==> n == 13 && c[12] != 0)
      invariant forall t :: 0 <= t < s && t < n ==> SameUnit(lfnbuf[..], dir, t, up)
      invariant forall t :: n <= t < s ==> c[t] == 0xFFFF
    {
      CountStep(c, s);
      var uc := UnitAt(dir, s);
      if wc != 0 {
        if i >= MAX_LFN || up(uc) != up(lfnbuf[i]) {
          assert !SameUnit(lfnbuf[..], dir, s, up);
          return false;
        }
        i := i + 1;
        wc := uc;
      } else if uc != 0xFFFF {
        return false;
      }
      s := s + 1;
    }
    if IsLast(dir) && wc != 0 {
      assert SameUnit(lfnbuf[..], dir, 12, up);
      if lfnbuf[i] != 0 {
        return false;
      }
    }
    ok := true;
  }

  // ----- the checksum -----

  /** The checksum of the bytes: rotate right and add, for each. */
  function SumFrom(s: byte, b: seq<byte>): byte
    decreases |b|
  {
    if b == [] then s else SumFrom((s / 2 + s * 128 + b[0]) % 256, b[1..])
  }

  lemma {:induction false} SumLast(s: byte, b: seq<byte>, x: byte)
    ensures SumFrom(s, b + [x]) == (SumFrom(s, b) / 2 + SumFrom(s, b) * 128 + x) % 256
    decreases |b|
  {
    if b == [] {
      assert [] + [x] == [x];
      assert [x][1..] == [];
    } else {
      assert (b + [x])[1..] == b[1..] + [x] && (b + [x])[0] == b[0];
      SumLast((s / 2 + s * 128 + b[0]) % 256, b[1..], x);
    }
  }

  /** sum_sfn. */
  method SumSfn(dir: seq<byte>) returns (sum: byte)
    requires |dir| >= 11
    ensures sum == SumFrom(0, dir[..11])
  {
    sum := 0;
    var n, k := 11, 0;
    assert dir[..0] == [];
    while true
      invariant n + k == 11 && 0 < n && sum == SumFrom(0, dir[..k])
      decreases n
    {
      SumLast(0, dir[..k], dir[k]);
      assert dir[..k] + [dir[k]] == dir[..k + 1];
      sum := (sum / 2 + sum * 128 + dir[k]) % 256;
      k, n := k + 1, n - 1;
      if n == 0 {
        break;
      }
    }
  }

  lemma RotateInjective(s: byte, t: byte, x: byte)
    requires (s / 2 + s * 128 + x) % 256 == (t / 2 + t * 128 + x) % 256
    ensures s == t
  {
    if s / 2 + 128 * (s % 2) != t / 2 + 128 * (t % 2) {
      Rotated(s, x);
      Rotated(t, x);
      AddInjective(x, s / 2 + 128 * (s % 2), t / 2 + 128 * (t % 2));
    }
  }

  lemma Rotated(s: byte, x: byte)
    ensures (s / 2 + s * 128 + x) % 256 == (x + (s / 2 + 128 * (s % 2))) % 256
    ensures s / 2 + 128 * (s % 2) < 256
  {
    assert s == 2 * (s / 2) + s % 2;
  }

  /** Two short names that differ in one byte have different checksums. */
  lemma {:induction false} SumDetects(s: byte, t: byte, a: seq<byte>, b: seq<byte>, k: nat)
    requires |a| == |b| && forall i :: 0 <= i < |a| && i != k ==> a[i] == b[i]
    requires if k < |a| then s == t && a[k] != b[k] else s != t
    ensures SumFrom(s, a) != SumFrom(t, b)
    decreases |a|
  {
    if a != [] {
      var s', t' := (s / 2 + s * 128 + a[0]) % 256, (t / 2 + t * 128 + b[0]) % 256;
      if k >= |a| {
        if s' == t' {
          RotateInjective(s, t, a[0]);
        }
        SumDetects(s', t', a[1..], b[1..], |a|);
      } else if k == 0 {
        AddInjective(s / 2 + s * 128, a[0], b[0]);
        SumDetects(s', t', a[1..], b[1..], |a|);
      } else {
        SumDetects(s', t', a[1..], b[1..], k - 1);
      }
    }
  }

  lemma AddInjective(s: nat, x: byte, y: byte)
    requires x != y
    ensures (s + x) % 256 != (s + y) % 256
  {
  }

  // ----- what was put is picked and matched -----

  /** In a plain name only its end ends a part. */
  lemma PlainEnded(name: seq<word>, i: nat, s: nat)
    requires Plain(name) && i <= |name|
    ensures Ended(name, i, s) <==> i + s > |name|
  {
    if i + s > |name| {
      assert Stops(name, |name|);
    }
  }

  lemma {:induction false} CountIs(c: seq<word>, n: nat)
    requires n <= |c| && forall s :: 0 <= s < n ==> c[s] != 0
    requires n < |c| ==> c[n] == 0
    ensures Count(c) == if n < |c| then n + 1 else n
  {
    if n > 0 {
      CountIs(c[1..], n - 1);
    }
  }

  /** The units of an entry that holds part `ord` of a plain name. */
  lemma {:induction false} PartChars(e: Entry, name: seq<word>, ord: byte, sum: byte)
    requires Plain(name) && 0 < ord < 0x40 && (ord - 1) * 13 <= |name| && IsPart(e, name, ord, sum)
    ensures var i, c := (ord - 1) * 13, Chars(e);
      && (forall s :: 0 <= s < 13 && i + s <= |name| ==> c[s] == Unit(name, i + s))
      && Count(c) == (if |name| - i < 13 then |name| - i + 1 else 13) && Padded(c)
      && (c[12] == 0 <==> i + 12 == |name|)
    ensures (IsLast(e) <==> |name| <= ord * 13) && ClearLast(e[0]) == ord && e[0] % 0x40 == ord
  {
    var i, c := (ord - 1) * 13, Chars(e);
    forall s | 0 <= s < 13 ensures c[s] == if i + s <= |name| then Unit(name, i + s) else 0xFFFF {
      PlainEnded(name, i, s);
    }
    PlainEnded(name, i, 13);
    var m: nat := if |name| - i < 13 then |name| - i else 13;
    forall s | 0 <= s < m ensures c[s] != 0 {
      assert c[s] == Unit(name, i + s) == name[i + s];
    }
    CountIs(c, m);
  }

  /** From unit `i` on the buffer holds the name and its terminator. */
  ghost predicate Upto(buf: seq<word>, name: seq<word>, i: nat) {
    |name| < |buf| && forall k :: i <= k <= |name| ==> buf[k] == Unit(name, k)
  }

  /** pick_lfn accepts every part that put_lfn makes of a name, except the last part of
      a name longer than 253 units, and takes over exactly its units. */
  lemma {:induction false} PickPart(buf: seq<word>, e: Entry, name: seq<word>, ord: byte, sum: byte)
    requires |buf| == MAX_LFN + 1 && Plain(name) && |name| <= MAX_LFN
    requires 0 < ord && (ord - 1) * 13 < |name| && IsPart(e, name, ord, sum)
    ensures Pickable(e) <==> (ord * 13 < |name| || |name| <= 253)
    ensures Pickable(e) && (ord * 13 < |name| ==> Upto(buf, name, ord * 13)) ==>
      Upto(Picked(buf, e), name, (ord - 1) * 13)
  {
    hide IsPart, Chars, Count, Padded, LoadWord;
    PartChars(e, name, ord, sum);
    PartWord(e, name, ord, sum);
    var i, n := (ord - 1) * 13, Count(Chars(e));
    assert PickBase(e) == i;
    assert Pickable(e) <==> (ord * 13 < |name| || |name| <= 253);
  }

  lemma PartWord(e: Entry, name: seq<word>, ord: byte, sum: byte)
    requires ord > 0 && IsPart(e, name, ord, sum)
    ensures LoadWord(e, LDIR_FstClusLO) == 0 && e[LDIR_Attr] == AM_LFN && e[LDIR_Chksum] == sum
  {
  }

  /** cmp_lfn accepts the parts of the name in the buffer, except the last part of a name
      of 255 units, whatever the case mapping. */
  lemma {:induction false} MatchPart(buf: seq<word>, e: Entry, name: seq<word>, ord: byte, sum: byte, up: word -> word)
    requires |buf| == MAX_LFN + 1 && Plain(name) && Holds(buf, name)
    requires 0 < ord && (ord - 1) * 13 < |name| && IsPart(e, name, ord, sum)
    ensures Matches(buf, e, up) <==> (ord * 13 < |name| || |name| <= 254)
  {
    hide IsPart, Chars, Count, Padded, LoadWord;
    PartChars(e, name, ord, sum);
    PartWord(e, name, ord, sum);
    var i, n := (ord - 1) * 13, Count(Chars(e));
    assert CmpBase(e) == i;
    forall s | 0 <= s < n && i + s < MAX_LFN ensures SameUnit(buf, e, s, up) {
      HeldUnit(buf, name, i + s);
    }
    if ord * 13 >= |name| && |name| == MAX_LFN {
      assert !SameUnit(buf, e, MAX_LFN - i, up);
    }
    if i + 13 <= |name| {
      HeldUnit(buf, name, i + 13);
    }
  }

  /** cmp_lfn takes a part of one name for that of another only if their units are the same up
      to the case mapping, and, at the last part, if both end there. */
  lemma {:induction false} MatchOther(buf: seq<word>, e: Entry, name: seq<word>, other: seq<word>, ord: byte, sum: byte,
      up: word -> word)
    requires |buf| == MAX_LFN + 1 && Plain(name) && Holds(buf, other) && forall x :: up(x) == up(0) ==> x == 0
    requires 0 < ord < 0x40 && (ord - 1) * 13 < |name| && (ord - 1) * 13 <= |other| && IsPart(e, name, ord, sum)
    requires Matches(buf, e, up)
    ensures forall k :: (ord - 1) * 13 <= k < |name| && k < ord * 13 ==> k < |other| && up(name[k]) == up(other[k])
    ensures ord * 13 >= |name| ==> |other| == |name|
  {
    hide IsPart, Chars, Count, Padded, LoadWord;
    PartChars(e, name, ord, sum);
    var i, n := (ord - 1) * 13, Count(Chars(e));
    assert CmpBase(e) == i;
    var m := if |name| < ord * 13 then |name| else ord * 13;
    var k := i;
    while k < m
      invariant i <= k <= m && k <= |other|
      invariant forall j :: i <= j < k ==> j < |other| && up(name[j]) == up(other[j])
    {
      assert SameUnit(buf, e, k - i, up);
      HeldUnit(buf, other, k);
      k := k + 1;
    }
    if |name| < ord * 13 {
      assert SameUnit(buf, e, |name| - i, up);
      HeldUnit(buf, other, |name|);
    } else if |name| == ord * 13 {
      assert SameUnit(buf, e, 12, up);
      HeldUnit(buf, other, |name|);
    }
  }

  /** A name all of whose parts match is the one that is looked for, up to the case mapping. */
  lemma {:induction false} MatchIsSame(buf: seq<word>, parts: seq<Entry>, name: seq<word>, other: seq<word>, sum: byte,
      up: word -> word)
    requires |buf| == MAX_LFN + 1 && Plain(name) && Holds(buf, other) && forall x :: up(x) == up(0) ==> x == 0
    requires 0 < |name| <= MAX_LFN && |parts| == (|name| + 12) / 13
    requires forall j :: 0 <= j < |parts| ==> IsPart(parts[j], name, j + 1, sum) && Matches(buf, parts[j], up)
    ensures |other| == |name| && forall k :: 0 <= k < |name| ==> up(name[k]) == up(other[k])
  {
    hide IsPart, Matches, Holds, Plain;
    var j := 0;
    while j < |parts|
      invariant 0 <= j <= |parts| && (j < |parts| ==> j * 13 <= |other|)
      invariant forall k :: 0 <= k < |name| && k < j * 13 ==> k < |other| && up(name[k]) == up(other[k])
      invariant j == |parts| ==> |other| == |name|
    {
      MatchOther(buf, parts[j], name, other, j + 1, sum, up);
      j := j + 1;
      if j < |parts| {
        var last := name[j * 13 - 1];
      }
    }
  }

  /** Where unit number `s` of a part lies in its entry. */
  function UnitAtByte(s: nat): nat {
    if s < 5 then 1 + 2 * s else if s < 11 then 4 + 2 * s else 6 + 2 * s
  }

  /** The bytes of an entry that put_lfn makes. */
  lemma {:induction false} PartBytes(e: Entry, name: seq<word>, ord: byte, sum: byte)
    requires Plain(name) && 0 < ord <= 20 && (ord - 1) * 13 < |name| && IsPart(e, name, ord, sum)
    ensures e[0] == (if |name| <= 13 * ord then ord + 64 else ord)
    ensures e[11] == 15 && e[12] == 0 && e[13] == sum && e[26] == 0 && e[27] == 0
    ensures forall s :: 0 <= s < 13 ==>
      var k := 13 * (ord - 1) + s;
      e[UnitAtByte(s)] as int + 256 * e[UnitAtByte(s) + 1] as int == if k < |name| then name[k]
        else if k == |name| then 0 else 0xFFFF
  {
    hide Count, Padded;
    PartChars(e, name, ord, sum);
    PlainEnded(name, (ord - 1) * 13, 13);
    forall s | 0 <= s < 13
      ensures var k := 13 * (ord - 1) + s;
        e[UnitAtByte(s)] as int + 256 * e[UnitAtByte(s) + 1] as int == if k < |name| then name[k]
          else if k == |name| then 0 else 0xFFFF
    {
      PlainEnded(name, (ord - 1) * 13, s);
      assert LoadWord(e, LfnOfs[s]) == Chars(e)[s];
      assert LfnOfs[s] == UnitAtByte(s);
    }
  }

  /** The checksum is the last of the values that rotating and adding goes through. */
  lemma {:induction false} SumBySteps(s: seq<byte>, b: seq<byte>)
    requires |s| == |b| + 1
    requires forall k :: 0 <= k < |b| ==> s[k + 1] as int == (s[k] as int / 2 + s[k] as int * 128 + b[k]) % 256
    ensures SumFrom(s[0], b) == s[|b|]
    decreases |b|
  {
    if b != [] {
      assert s[0 + 1] as int == (s[0] as int / 2 + s[0] as int * 128 + b[0]) % 256;
      forall k | 0 <= k < |b| - 1
        ensures s[1..][k + 1] as int == (s[1..][k] as int / 2 + s[1..][k] as int * 128 + b[1..][k]) % 256
      {
        assert s[k + 1 + 1] as int == (s[k + 1] as int / 2 + s[k + 1] as int * 128 + b[k + 1]) % 256;
      }
      SumBySteps(s[1..], b[1..]);
    }
  }

  /** The checksum of the short name "README  TXT". */
  lemma SumOfReadme()
    ensures SumFrom(0, [82, 69, 65, 68, 77, 69, 32, 32, 84, 88, 84]) == 115
  {
    SumBySteps([0, 82, 110, 120, 128, 141, 11, 165, 242, 205, 62, 115],
      [82, 69, 65, 68, 77, 69, 32, 32, 84, 88, 84]);
  }
}
