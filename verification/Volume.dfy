/** A mounted volume: the one-sector window over the disk, the FAT read and written
    through it, and the operations that stretch and remove cluster chains. */
module Volume {
  import opened Bytes
  import opened Layout
  import Codec = FatCodec
  import opened FatTable

  type Disk = seq<Sector>

  datatype FResult = Ok | IntErr | Denied | NoFile

  const EOC: nat := 0xFFFF_FFFF

  /** Sector and offset of a byte of the FAT. */
  function Sec(p: nat): nat {
    p / 512
  }

  function Off(p: nat): (r: nat)
    ensures r < 512
  {
    p % 512
  }

  lemma ByteInFat(g: Geometry, p: nat)
    requires p < 512 * g.fsize
    ensures Sec(p) < g.fsize
  {
  }

  /** The bytes of the first FAT, one sector after the other. */
  function FatBytes(d: Disk, g: Geometry): (b: seq<byte>)
    requires g.Valid() && g.FatEnd() <= |d|
    ensures |b| == 512 * g.fsize
  {
    seq(512 * g.fsize, i requires 0 <= i < 512 * g.fsize => d[g.fatBase + i / 512][i % 512])
  }

  function FatOf(d: Disk, g: Geometry): (f: Table)
    requires g.Valid() && g.FatEnd() <= |d|
    ensures |f| == g.nFatEnt
  {
    Codec.Table(FatBytes(d, g), g.kind, g.nFatEnt)
  }

  /** The end mark as it reads back. */
  function EndMark(k: Kind): nat {
    Codec.Truncate(k, EOC)
  }

  /** What sync_window makes of the disk when the window holds a changed sector `s`:
      a sector of the first FAT is stored in the second FAT too. */
  function Flush(d: Disk, g: Geometry, s: nat, w: Sector): (d': Disk)
    requires s < |d| && g.FatEnd() <= |d|
    ensures |d'| == |d|
  {
    var d1 := d[s := w];
    if g.InFirstFat(s) && g.nFats == 2 then d1[s + g.fsize := w] else d1
  }

  /** Every sector of the first FAT equals its mirror. */
  ghost predicate Mirrored(d: Disk, g: Geometry) {
    g.nFats == 2 ==> forall s :: g.fatBase <= s < g.fatBase + g.fsize && s + g.fsize < |d| ==> d[s + g.fsize] == d[s]
  }

  lemma {:induction false} FlushAt(d: Disk, g: Geometry, s: nat, w: Sector, t: nat)
    requires s < |d| && g.Valid() && g.FatEnd() <= |d| && t < |d| && !g.InSecondFat(t)
    ensures Flush(d, g, s, w)[t] == if t == s then w else d[t]
  {
  }

  /** Outside the FATs two disks differ at most in sector `w`. */
  ghost predicate SameBut(d: Disk, d': Disk, g: Geometry, w: nat) {
    |d'| == |d| && forall s :: 0 <= s < |d| && s != w && !g.InFats(s) ==> d'[s] == d[s]
  }

  /** Two disks differ in the FATs only. */
  ghost predicate SameData(d: Disk, d': Disk, g: Geometry) {
    |d'| == |d| && forall s :: 0 <= s < |d| && !g.InFats(s) ==> d'[s] == d[s]
  }

  /** The FAT bytes after one sector of the first FAT was patched. */
  lemma {:induction false} PatchSector(d: Disk, d': Disk, g: Geometry, p: nat, bs: seq<byte>)
    requires g.Valid() && g.FatEnd() <= |d| == |d'|
    requires p + |bs| <= 512 * g.fsize && Off(p) + |bs| <= 512
    requires g.fatBase + Sec(p) < |d|
    requires d'[g.fatBase + Sec(p)] == Patch(d[g.fatBase + Sec(p)], Off(p), bs)
    requires forall s :: g.fatBase <= s < g.fatBase + g.fsize && s != g.fatBase + Sec(p) ==> d'[s] == d[s]
    ensures FatBytes(d', g) == Patch(FatBytes(d, g), p, bs)
  {
    var b, b' := FatBytes(d, g), FatBytes(d', g);
    forall i | 0 <= i < |b| ensures b'[i] == Patch(b, p, bs)[i] {
      if i / 512 == p / 512 {
        assert i - p == i % 512 - p % 512;
      } else {
        assert g.fatBase <= g.fatBase + i / 512 < g.fatBase + g.fsize;
      }
    }
  }

  lemma {:induction false} SameFat(d: Disk, d': Disk, g: Geometry)
    requires g.Valid() && g.FatEnd() <= |d| == |d'|
    requires forall s :: g.fatBase <= s < g.fatBase + g.fsize ==> d'[s] == d[s]
    ensures FatBytes(d', g) == FatBytes(d, g) && FatOf(d', g) == FatOf(d, g)
  {
    var b, b' := FatBytes(d, g), FatBytes(d', g);
    forall i | 0 <= i < |b| ensures b'[i] == b[i] {
      assert g.fatBase <= g.fatBase + i / 512 < g.fatBase + g.fsize;
    }
    assert b' == b;
  }

  /** The order in which create_chain visits clusters when it starts after `scl`. */
  function Rank(n: nat, scl: nat, i: nat): int {
    if i > scl then i - scl else i - scl + n
  }

  /** `r` is the first cluster in visiting order whose entry is 0 or 1. */
  ghost predicate FirstStop(f: Table, scl: nat, r: nat) {
    InRange(f, r) && f[r] <= 1 && forall i :: InRange(f, i) && Rank(|f|, scl, i) < Rank(|f|, scl, r) ==> f[i] > 1
  }

  /** The cluster after which create_chain starts to look. */
  function SearchStart(f: Table, clst: nat, last: nat): nat {
    if 0 < last < |f| && (clst == 0 || last >= 2) then last else if clst == 0 then 1 else clst
  }

  /** The neighbour create_chain tries first when it stretches `clst`. */
  function Neighbour(f: Table, clst: nat): nat {
    if clst + 1 >= |f| then 2 else clst + 1
  }

  /** Where create_chain stops: the neighbour if it is free (or holds the value 1),
      else the first cluster in visiting order that is. */
  ghost predicate Chosen(f: Table, clst: nat, last: nat, r: nat)
    requires |f| >= 3
  {
    if clst != 0 && f[Neighbour(f, clst)] <= 1 then r == Neighbour(f, clst)
    else FirstStop(f, SearchStart(f, clst, last), r)
  }

  /** What create_chain returns and leaves of the FAT. */
  ghost predicate Created(f: Table, f': Table, kind: Kind, clst: nat, free: nat, last: nat, r: nat)
    requires |f| >= 3
  {
    var cs := if InRange(f, clst) then f[clst] else 1;
    if clst != 0 && cs < 2 then r == 1 && f' == f
    else if clst != 0 && cs < |f| then r == cs && f' == f
    else if free == 0 then r == 0 && f' == f
    else
      || (r == 0 && f' == f && forall c :: InRange(f, c) ==> f[c] > 1)
      || (r == 1 && f' == f && exists c: nat :: Chosen(f, clst, last, c) && f[c] == 1)
      || (Chosen(f, clst, last, r) && f[r] == 0 && f' == Stretched(f, clst, r, EndMark(kind)))
  }

  class FatVolume {
    const g: Geometry
    var disk: Disk
    const win: array<byte>
    var winsect: nat
    var wflag: bool
    var freeClst: nat
    var lastClst: nat
    const fsInfo: bool
    var fsiDirty: bool

    /** A volume just mounted: the window holds the last sector that was read. */
    constructor (g: Geometry, disk: Disk, winsect: nat, free: nat, last: nat, fsInfo: bool)
      requires g.Valid() && g.dataBase <= |disk| < 0x1_0000_0000 && winsect < |disk| && !g.InSecondFat(winsect)
      ensures Valid() && fresh(win) && this.g == g && this.disk == disk && Eff() == disk && this.fsInfo == fsInfo
        && !fsiDirty
      ensures this.winsect == winsect && !wflag && freeClst == free && lastClst == last && win[..] == disk[winsect]
    {
      this.g, this.disk, this.winsect, this.fsInfo := g, disk, winsect, fsInfo;
      wflag, freeClst, lastClst, fsiDirty := false, free, last, false;
      win := new byte[512](i requires 0 <= i < 512 => disk[winsect][i]);
      new;
      assert win[..] == disk[winsect];
    }

    ghost predicate Valid()
      reads `disk, `winsect, `wflag, win
    {
      && g.Valid()
      && g.dataBase <= |disk| < 0x1_0000_0000
      && win.Length == 512
      && winsect < |disk|
      && !g.InSecondFat(winsect)
      && (!wflag ==> win[..] == disk[winsect])
    }

    /** The disk as it would be after a flush of the window. */
    ghost function Eff(): (d: Disk)
      requires Valid()
      reads `disk, `winsect, `wflag, win
      ensures |d| == |disk|
    {
      if wflag then Flush(disk, g, winsect, win[..]) else disk
    }

    ghost function Fat(): (f: Table)
      requires Valid()
      reads `disk, `winsect, `wflag, win
      ensures |f| == g.nFatEnt
    {
      FatOf(Eff(), g)
    }

    /** Outside the FATs the raw disk changed at most where the window was, and the
        window moved at most into the first FAT. */
    ghost predicate Quiet(d: Disk, w: nat)
      reads `disk, `winsect
    {
      SameBut(d, disk, g, w) && (winsect == w || g.InFirstFat(winsect))
    }

    /** The free cluster count is unknown or right. */
    ghost predicate FreeOk()
      requires Valid()
      reads this, win
    {
      freeClst <= g.nFatEnt - 2 ==> freeClst == FreeCount(Fat())
    }

    /** clst2sect: computed in 32 bits, the sector is the right one. */
    function ClusterToSector(clst: nat): (sect: nat)
      requires Valid() && g.DataEnd() <= |disk|
      reads `disk, `winsect, `wflag, win
      ensures sect == g.ClusterSector(clst)
    {
      AddressedExactly(g);
      g.ClusterToSector(clst)
    }

    method SyncWindow()
      requires Valid()
      modifies this`disk, this`wflag
      ensures Valid() && !wflag && Eff() == old(Eff()) && disk == old(Eff())
      ensures Quiet(old(disk), old(winsect))
      ensures old(Mirrored(disk, g)) ==> Mirrored(disk, g)
    {
      if wflag {
        ghost var d0 := disk;
        disk := disk[winsect := win[..]];
        wflag := false;
        if g.InFirstFat(winsect) {
          if g.nFats == 2 {
            disk := disk[winsect + g.fsize := win[..]];
          }
        }
        assert disk == Flush(d0, g, winsect, win[..]);
      }
    }

    method MoveWindow(sector: nat)
      requires Valid() && sector < |disk| && !g.InSecondFat(sector)
      modifies this`disk, this`wflag, this`winsect, win
      ensures Valid() && winsect == sector && Eff() == old(Eff()) && win[..] == Eff()[sector]
      ensures SameBut(old(disk), disk, g, old(winsect))
      ensures old(Mirrored(disk, g)) ==> Mirrored(disk, g)
    {
      if sector != winsect {
        SyncWindow();
        CopyInto(win, 0, disk[sector]);
        winsect := sector;
        assert win[..] == disk[sector];
      }
    }

    /** Reads byte `p` of the first FAT through the window. */
    method FatByteAt(p: nat) returns (b: byte)
      requires Valid() && p < 512 * g.fsize
      modifies this`disk, this`wflag, this`winsect, win
      ensures Valid() && Eff() == old(Eff()) && b == FatBytes(Eff(), g)[p]
      ensures b == win[Off(p)] && winsect == g.fatBase + Sec(p) && g.InFirstFat(winsect)
      ensures Quiet(old(disk), old(winsect)) && (old(Mirrored(disk, g)) ==> Mirrored(disk, g))
    {
      ByteInFat(g, p);
      MoveWindow(g.fatBase + Sec(p));
      b := win[Off(p)];
      assert b == win[..][Off(p)] == Eff()[g.fatBase + Sec(p)][Off(p)];
    }

    /** Reads the `n` bytes at byte `p` of the first FAT: they lie in one sector. */
    method FatBytesAt(p: nat, n: nat) returns (b: seq<byte>)
      requires Valid() && p + n <= 512 * g.fsize && n > 0 && Off(p) + n <= 512
      modifies this`disk, this`wflag, this`winsect, win
      ensures Valid() && Eff() == old(Eff()) && b == FatBytes(Eff(), g)[p..p + n]
      ensures winsect == g.fatBase + Sec(p) && g.InFirstFat(winsect)
      ensures Quiet(old(disk), old(winsect)) && (old(Mirrored(disk, g)) ==> Mirrored(disk, g))
    {
      ByteInFat(g, p);
      MoveWindow(g.fatBase + Sec(p));
      b := win[..][Off(p)..Off(p) + n];
      SectorSlice(Eff(), g, p, n);
    }

    static lemma SectorSlice(d: Disk, g: Geometry, p: nat, n: nat)
      requires g.Valid() && g.FatEnd() <= |d| && p + n <= 512 * g.fsize && n > 0 && Off(p) + n <= 512
      ensures FatBytes(d, g)[p..p + n] == d[g.fatBase + Sec(p)][Off(p)..Off(p) + n]
    {
      var b, w := FatBytes(d, g)[p..p + n], d[g.fatBase + Sec(p)][Off(p)..Off(p) + n];
      forall i | 0 <= i < n ensures b[i] == w[i] {
        assert (p + i) / 512 == p / 512 && (p + i) % 512 == Off(p) + i;
      }
    }

    method Fetch12(clst: nat) returns (val: nat)
      requires Valid() && g.kind == Fat12 && clst < g.nFatEnt
      modifies this`disk, this`wflag, this`winsect, win
      ensures Valid() && Eff() == old(Eff()) && val == Fat()[clst] && g.InFirstFat(winsect)
      ensures Quiet(old(disk), old(winsect)) && (old(Mirrored(disk, g)) ==> Mirrored(disk, g))
    {
      hide Mirrored, Flush, Codec.Digits, Codec.Digit, Sec, Off;
      hide Codec.Byte12;
      var bc := Codec.Byte12(clst);
      Codec.Byte12Fits(clst, g.nFatEnt, 512 * g.fsize);
      Codec.Get12(FatBytes(Eff(), g), clst);
      var b0 := FatByteAt(bc);
      var b1 := FatByteAt(bc + 1);
      val := Codec.Merge12(clst, b0, b1);
    }

    method Fetch16(clst: nat) returns (val: nat)
      requires Valid() && g.kind == Fat16 && clst < g.nFatEnt
      modifies this`disk, this`wflag, this`winsect, win
      ensures Valid() && Eff() == old(Eff()) && val == Fat()[clst] && g.InFirstFat(winsect)
      ensures Quiet(old(disk), old(winsect)) && (old(Mirrored(disk, g)) ==> Mirrored(disk, g))
    {
      hide Mirrored, Flush, Codec.Digits, Codec.Digit, Sec, Off;
      Twice(clst);
      ghost var fb := FatBytes(Eff(), g);
      Codec.Get16(fb, clst);
      var b := FatBytesAt(2 * clst, 2);
      val := LoadWord(b, 0);
    }

    method Fetch32(clst: nat) returns (val: nat)
      requires Valid() && g.kind == Fat32 && clst < g.nFatEnt
      modifies this`disk, this`wflag, this`winsect, win
      ensures Valid() && Eff() == old(Eff()) && val == Fat()[clst] && g.InFirstFat(winsect)
      ensures Quiet(old(disk), old(winsect)) && (old(Mirrored(disk, g)) ==> Mirrored(disk, g))
    {
      hide Mirrored, Flush, Codec.Digits, Codec.Digit, Sec, Off;
      FourTimes(clst);
      ghost var fb := FatBytes(Eff(), g);
      Codec.Get32(fb, clst);
      var b := FatBytesAt(4 * clst, 4);
      SliceDword(fb, 4 * clst);
      val := LoadDword(b, 0) % 0x1000_0000;
    }

    static lemma SliceWord(b: seq<byte>, p: nat)
      requires p + 2 <= |b|
      ensures LoadWord(b[p..p + 2], 0) == LoadWord(b, p)
    {
    }

    static lemma SliceDword(b: seq<byte>, p: nat)
      requires p + 4 <= |b|
      ensures LoadDword(b[p..p + 4], 0) == LoadDword(b, p)
    {
    }

    static lemma Twice(c: nat)
      ensures Off(2 * c) + 2 <= 512
    {
    }

    static lemma FourTimes(c: nat)
      ensures Off(4 * c) + 4 <= 512
    {
      assert c == 128 * (c / 128) + c % 128;
    }

    /** get_fat: the value of an entry, 1 for a number out of range. */
    method GetFat(clst: nat) returns (val: nat)
      requires Valid()
      modifies this`disk, this`wflag, this`winsect, win
      ensures Valid() && Eff() == old(Eff())
      ensures val == if InRange(Fat(), clst) then Fat()[clst] else 1
      ensures Quiet(old(disk), old(winsect)) && (old(Mirrored(disk, g)) ==> Mirrored(disk, g))
      ensures InRange(Fat(), clst) ==> g.InFirstFat(winsect)
    {
      if clst < 2 || clst >= g.nFatEnt {
        return 1;
      }
      match g.kind {
        case Fat12 => val := Fetch12(clst);
        case Fat16 => val := Fetch16(clst);
        case Fat32 => val := Fetch32(clst);
      }
    }

    /** Stores `bs` at byte `p` of the first FAT: the window was moved there before. */
    method Store(p: nat, bs: seq<byte>)
      requires Valid() && p + |bs| <= 512 * g.fsize && Off(p) + |bs| <= 512
      requires winsect == g.fatBase + Sec(p)
      modifies this`wflag, win
      ensures Valid() && wflag && SameData(old(Eff()), Eff(), g)
      ensures FatBytes(Eff(), g) == Patch(old(FatBytes(Eff(), g)), p, bs)
    {
      ghost var e0, w0 := Eff(), win[..];
      CopyInto(win, Off(p), bs);
      wflag := true;
      forall t: nat | t < |disk| && !g.InSecondFat(t)
        ensures Eff()[t] == if t == winsect then Patch(e0[t], Off(p), bs) else e0[t]
      {
        FlushAt(disk, g, winsect, win[..], t);
        FlushAt(disk, g, winsect, w0, t);
      }
      PatchSector(e0, Eff(), g, p, bs);
    }

    method Put12(clst: nat, val: nat)
      requires Valid() && g.kind == Fat12 && clst < g.nFatEnt
      modifies this`disk, this`wflag, this`winsect, win
      ensures Valid() && SameData(old(Eff()), Eff(), g) && g.InFirstFat(winsect)
      ensures Quiet(old(disk), old(winsect)) && (old(Mirrored(disk, g)) ==> Mirrored(disk, g))
      ensures Codec.IsPut(old(FatBytes(Eff(), g)), FatBytes(Eff(), g), g.kind, clst, val)
    {
      hide Mirrored, Flush, FatBytes, Patch, Eff, Codec.Put12Low, Codec.Put12High, Codec.Keep4, Sec, Off;
      ghost var fb := FatBytes(Eff(), g);
      hide Codec.Byte12;
      var bc := Codec.Byte12(clst);
      Codec.Byte12Fits(clst, g.nFatEnt, 512 * g.fsize);
      var x := FatByteAt(bc);
      Store(bc, [Codec.Put12Low(clst, val, x)]);
      var y := FatByteAt(bc + 1);
      ghost var fb1 := FatBytes(Eff(), g);
      Store(bc + 1, [Codec.Put12High(clst, val, y)]);
      TwoPatches(fb, fb1, FatBytes(Eff(), g), bc, Codec.Put12Low(clst, val, x), Codec.Put12High(clst, val, y));
      Codec.Put12Bytes(fb, FatBytes(Eff(), g), clst, val);
    }

    static lemma TwoPatches(b: seq<byte>, b1: seq<byte>, b2: seq<byte>, p: nat, x: byte, y: byte)
      requires p + 1 < |b| && b1 == Patch(b, p, [x]) && b2 == Patch(b1, p + 1, [y])
      ensures b1[p + 1] == b[p + 1] && b2 == b[p := x][p + 1 := y]
    {
    }

    method Put16(clst: nat, val: nat)
      requires Valid() && g.kind == Fat16 && clst < g.nFatEnt
      modifies this`disk, this`wflag, this`winsect, win
      ensures Valid() && SameData(old(Eff()), Eff(), g) && g.InFirstFat(winsect)
      ensures Quiet(old(disk), old(winsect)) && (old(Mirrored(disk, g)) ==> Mirrored(disk, g))
      ensures Codec.IsPut(old(FatBytes(Eff(), g)), FatBytes(Eff(), g), g.kind, clst, val)
    {
      hide Mirrored, Flush, FatBytes, Codec.Put12Low, Codec.Put12High, Codec.Keep4, Sec, Off;
      ghost var fb := FatBytes(Eff(), g);
      Twice(clst);
      var _ := FatBytesAt(2 * clst, 2);
      Store(2 * clst, WordBytes(val));
      Codec.Put16Bytes(fb, FatBytes(Eff(), g), clst, val);
    }

    method Put32(clst: nat, val: nat)
      requires Valid() && g.kind == Fat32 && clst < g.nFatEnt
      modifies this`disk, this`wflag, this`winsect, win
      ensures Valid() && SameData(old(Eff()), Eff(), g) && g.InFirstFat(winsect)
      ensures Quiet(old(disk), old(winsect)) && (old(Mirrored(disk, g)) ==> Mirrored(disk, g))
      ensures Codec.IsPut(old(FatBytes(Eff(), g)), FatBytes(Eff(), g), g.kind, clst, val)
    {
      hide Mirrored, Flush, FatBytes, Patch, Eff, Codec.Put12Low, Codec.Put12High, Codec.Keep4, Sec, Off;
      ghost var fb := FatBytes(Eff(), g);
      FourTimes(clst);
      var b := FatBytesAt(4 * clst, 4);
      var old4 := LoadDword(b, 0);
      SliceDword(fb, 4 * clst);
      Store(4 * clst, DwordBytes(Codec.Keep4(val, old4)));
      Codec.Put32Bytes(fb, FatBytes(Eff(), g), clst, val);
    }

    /** put_fat. */
    method PutFat(clst: nat, val: nat) returns (res: FResult)
      requires Valid()
      modifies this`disk, this`wflag, this`winsect, win
      ensures Valid() && SameData(old(Eff()), Eff(), g)
      ensures Quiet(old(disk), old(winsect)) && (old(Mirrored(disk, g)) ==> Mirrored(disk, g))
      ensures !InRange(old(Fat()), clst) ==> res == IntErr && Eff() == old(Eff())
      ensures InRange(old(Fat()), clst) ==>
        && res == Ok && g.InFirstFat(winsect)
        && Codec.IsPut(old(FatBytes(Eff(), g)), FatBytes(Eff(), g), g.kind, clst, val)
        && Fat() == old(Fat())[clst := Codec.Truncate(g.kind, val)]
    {
      if clst < 2 || clst >= g.nFatEnt {
        return IntErr;
      }
      ghost var fb := FatBytes(Eff(), g);
      match g.kind {
        case Fat12 => Put12(clst, val);
        case Fat16 => Put16(clst, val);
        case Fat32 => Put32(clst, val);
      }
      res := Ok;
      Codec.PutThenGet(fb, FatBytes(Eff(), g), g.kind, g.nFatEnt, clst, val);
    }
  }
}
