/** Mounting: find_volume looks for a boot sector and derives the layout from it. */
module Mount {
  import opened Basics
  import opened Bytes
  import opened Layout
  import opened Bits
  import opened Format
  import opened Volume

  const BPB_BytsPerSec: nat := 11
  const BPB_SecPerClus: nat := 13
  const BPB_RsvdSecCnt: nat := 14
  const BPB_NumFATs: nat := 16
  const BPB_RootEntCnt: nat := 17
  const BPB_TotSec16: nat := 19
  const BPB_FATSz16: nat := 22
  const BPB_TotSec32: nat := 32
  const BPB_FATSz32: nat := 36
  const BPB_FSVer32: nat := 42
  const BPB_RootClus32: nat := 44
  const BPB_FSInfo32: nat := 48
  const BS_FilSysType: nat := 54
  const BS_FilSysType32: nat := 82
  const BS_55AA: nat := 510
  const FSI_StrucSig: nat := 484
  const FSI_Free_Count: nat := 488
  const FSI_Nxt_Free: nat := 492
  const MBR_Table: nat := 446
  const SZ_PTE: nat := 16
  const UNKNOWN: nat := 0xFFFF_FFFF

  const FAT: seq<byte> := [0x46, 0x41, 0x54]
  const FAT32: seq<byte> := [0x46, 0x41, 0x54, 0x33, 0x32]

  /** A mounted volume: its layout, the free count and the last cluster as recorded, and
      the sector the window is left at. */
  datatype Mounted = Mounted(g: Geometry, free: nat, last: nat, winsect: nat)

  datatype Found = NoFileSystem | DiskErr | Volume(m: Mounted)

  /** check_fs: 0 for a FAT boot sector, 2 for another, 3 for none, 4 outside the disk. */
  function CheckFs(d: Disk, sect: nat): nat {
    if sect >= |d| then 4
    else
      var w := d[sect];
      if LoadWord(w, BS_55AA) != 0xAA55 then 3
      else if (w[0] == 0xE9 || w[0] == 0xEB || w[0] == 0xE8)
           && (w[BS_FilSysType..BS_FilSysType + 3] == FAT || w[BS_FilSysType32..BS_FilSysType32 + 5] == FAT32) then 0
      else 2
  }

  function FatSize(w: Sector): nat {
    if LoadWord(w, BPB_FATSz16) == 0 then LoadDword(w, BPB_FATSz32) else LoadWord(w, BPB_FATSz16)
  }

  function TotalSectors(w: Sector): nat {
    if LoadWord(w, BPB_TotSec16) == 0 then LoadDword(w, BPB_TotSec32) else LoadWord(w, BPB_TotSec16)
  }

  /** Sectors of all FATs. */
  function FatSectors(w: Sector): nat {
    w[BPB_NumFATs] * FatSize(w)
  }

  /** Sectors in front of the data area. */
  function SystemSectors(w: Sector): nat {
    LoadWord(w, BPB_RsvdSecCnt) + FatSectors(w) + LoadWord(w, BPB_RootEntCnt) / 16
  }

  function KindOf(n: nat): Option<Kind> {
    if n <= MAX_FAT12 then Some(Fat12)
    else if n <= MAX_FAT16 then Some(Fat16)
    else if n <= MAX_FAT32 then Some(Fat32)
    else None
  }

  /** The layout that a boot sector at `bsect` describes, if it is accepted. */
  function Accept(w: Sector, bsect: nat): Option<Geometry> {
    var fsize, nFats, csize := FatSize(w), w[BPB_NumFATs], w[BPB_SecPerClus];
    var fasize := W(fsize * nFats);
    var nRootDir, tsect, nrsv := LoadWord(w, BPB_RootEntCnt), TotalSectors(w), LoadWord(w, BPB_RsvdSecCnt);
    var sysect := W(nrsv + fasize + nRootDir / 16);
    if LoadWord(w, BPB_BytsPerSec) != 512 || (nFats != 1 && nFats != 2) || csize == 0 || And(csize, csize - 1) != 0
       || nRootDir % 16 != 0 || nrsv == 0 || tsect < sysect || Quot(tsect - sysect, csize) == 0 then None
    else
      var n := Quot(tsect - sysect, csize);
      match KindOf(n)
      case None => None
      case Some(kind) =>
        if (if kind == Fat32 then LoadWord(w, BPB_FSVer32) != 0 || nRootDir != 0 else nRootDir == 0) then None
        else if fsize < (FatNeed(kind, n + 2) + 511) / 512 then None
        else
          var fatBase := W(bsect + nrsv);
          Some(Geometry(kind, nFats, csize, nRootDir, n + 2, fsize, bsect, fatBase,
                        if kind == Fat32 then LoadDword(w, BPB_RootClus32) else W(fatBase + fasize), W(bsect + sysect)))
  }

  /** A FAT32 boot sector names the sector behind it as information sector. */
  predicate HasInfo(d: Disk, g: Geometry)
    requires g.volBase < |d|
  {
    g.kind == Fat32 && LoadWord(d[g.volBase], BPB_FSInfo32) == 1 && g.volBase + 1 < |d|
  }

  /** The free count and last cluster recorded in the information sector. */
  function InfoOf(d: Disk, g: Geometry): (nat, nat)
    requires g.volBase < |d|
  {
    if HasInfo(d, g) then
      var w := d[g.volBase + 1];
      if LoadWord(w, BS_55AA) == 0xAA55 && LoadDword(w, 0) == 0x4161_5252 && LoadDword(w, FSI_StrucSig) == 0x6141_7272
      then (LoadDword(w, FSI_Free_Count), LoadDword(w, FSI_Nxt_Free))
      else (UNKNOWN, UNKNOWN)
    else (UNKNOWN, UNKNOWN)
  }

  /** The window is left at the information sector, if it was looked at. */
  function LastRead(d: Disk, g: Geometry): nat
    requires g.volBase < |d|
  {
    if HasInfo(d, g) then g.volBase + 1 else g.volBase
  }

  /** Start sector of partition `i`, 0 for an unused table entry. */
  function Partition(w: Sector, i: nat): nat
    requires i < 4
  {
    if w[MBR_Table + i * SZ_PTE + 4] != 0 then LoadDword(w, MBR_Table + i * SZ_PTE + 8) else 0
  }

  /** The first of the partitions from `i` on with a FAT boot sector, and how its check ended;
      else the last one. */
  function Search(d: Disk, w: Sector, i: nat): (nat, nat)
    requires i < 4
    decreases 4 - i
  {
    var bsect := Partition(w, i);
    var fmt := if bsect != 0 then CheckFs(d, bsect) else 3;
    if fmt >= 2 && i + 1 < 4 then Search(d, w, i + 1) else (fmt, bsect)
  }

  /** Where the volume is: the verdict of check_fs and the sector. */
  function Locate(d: Disk): (nat, nat) {
    var fmt := CheckFs(d, 0);
    if fmt == 2 then Search(d, d[0], 0) else (fmt, 0)
  }

  /** find_volume, for a drive that is not mounted yet. */
  function Outcome(d: Disk): Found {
    var (fmt, bsect) := Locate(d);
    if fmt == 4 then DiskErr
    else if fmt >= 2 || bsect >= |d| then NoFileSystem
    else match Accept(d[bsect], bsect)
      case None => NoFileSystem
      case Some(g) => Volume(Mounted(g, InfoOf(d, g).0, InfoOf(d, g).1, LastRead(d, g)))
  }

  /** The layout from the boot sector, check by check. */
  method Parse(w: Sector, bsect: nat) returns (r: Option<Geometry>)
    ensures r == Accept(w, bsect)
  {
    hide W, Quot, And, FatNeed, LoadWord, LoadDword;
    if LoadWord(w, BPB_BytsPerSec) != 512 {
      return None;
    }
    var fasize := LoadWord(w, BPB_FATSz16);
    if fasize == 0 {
      fasize := LoadDword(w, BPB_FATSz32);
    }
    var fsize := fasize;
    var nFats: nat := w[BPB_NumFATs];
    if nFats != 1 && nFats != 2 {
      return None;
    }
    fasize := W(fasize * nFats);
    var csize: nat := w[BPB_SecPerClus];
    if csize == 0 || And(csize, csize - 1) != 0 {
      return None;
    }
    var nRootDir := LoadWord(w, BPB_RootEntCnt);
    if nRootDir % 16 != 0 {
      return None;
    }
    var tsect := LoadWord(w, BPB_TotSec16);
    if tsect == 0 {
      tsect := LoadDword(w, BPB_TotSec32);
    }
    var nrsv := LoadWord(w, BPB_RsvdSecCnt);
    if nrsv == 0 {
      return None;
    }
    var sysect := W(nrsv + fasize + nRootDir / 16);
    if tsect < sysect {
      return None;
    }
    var nclst := Quot(tsect - sysect, csize);
    if nclst == 0 {
      return None;
    }
    var fmt: Option<Kind> := None;
    if nclst <= MAX_FAT32 {
      fmt := Some(Fat32);
    }
    if nclst <= MAX_FAT16 {
      fmt := Some(Fat16);
    }
    if nclst <= MAX_FAT12 {
      fmt := Some(Fat12);
    }
    if fmt == None {
      return None;
    }
    var fatBase, dataBase, dirBase := W(bsect + nrsv), W(bsect + sysect), 0;
    if fmt.value == Fat32 {
      if LoadWord(w, BPB_FSVer32) != 0 {
        return None;
      }
      if nRootDir != 0 {
        return None;
      }
      dirBase := LoadDword(w, BPB_RootClus32);
    } else {
      if nRootDir == 0 {
        return None;
      }
      dirBase := W(fatBase + fasize);
    }
    if fsize < (FatNeed(fmt.value, nclst + 2) + 511) / 512 {
      return None;
    }
    r := Some(Geometry(fmt.value, nFats, csize, nRootDir, nclst + 2, fsize, bsect, fatBase, dirBase, dataBase));
  }

  /** find_volume. */
  method FindVolume(d: Disk) returns (res: Found)
    ensures res == Outcome(d)
  {
    hide Accept, LoadWord, LoadDword;
    var bsect := 0;
    var fmt := CheckFs(d, bsect);
    if fmt == 2 {
      var w, i := d[0], 0;
      while true
        invariant 0 <= i < 4 && Search(d, w, i) == Search(d, w, 0)
        decreases 4 - i
      {
        bsect := Partition(w, i);
        fmt := if bsect != 0 then CheckFs(d, bsect) else 3;
        if fmt < 2 || i + 1 >= 4 {
          break;
        }
        i := i + 1;
      }
    }
    if fmt == 4 {
      return DiskErr;
    }
    if fmt >= 2 {
      return NoFileSystem;
    }
    var g := Parse(d[bsect], bsect);
    if g == None {
      return NoFileSystem;
    }
    AcceptBase(d[bsect], bsect);
    var free, last, winsect := UNKNOWN, UNKNOWN, bsect;
    if g.value.kind == Fat32 && LoadWord(d[bsect], BPB_FSInfo32) == 1 && bsect + 1 < |d| {
      winsect := bsect + 1;
      var w := d[winsect];
      if LoadWord(w, BS_55AA) == 0xAA55 && LoadDword(w, 0) == 0x4161_5252 && LoadDword(w, FSI_StrucSig) == 0x6141_7272 {
        free, last := LoadDword(w, FSI_Free_Count), LoadDword(w, FSI_Nxt_Free);
      }
    }
    res := Volume(Mounted(g.value, free, last, winsect));
  }

  lemma AcceptBase(w: Sector, bsect: nat)
    ensures Accept(w, bsect).Some? ==> Accept(w, bsect).value.volBase == bsect
  {
    hide And, W, Quot, FatNeed, LoadWord, LoadDword;
  }

  // ----- the layout of accepted volumes -----

  lemma SmallPowers(x: nat)
    requires PowerOfTwo(x) && x < 256
    ensures Size(x)
  {
    if x > 1 {
      Halved(x);
      SmallPowers(x / 2);
    }
  }

  lemma Halved(x: nat)
    requires PowerOfTwo(x) && x > 1
    ensures PowerOfTwo(x / 2) && x == 2 * (x / 2)
  {
  }

  lemma WrapSums(a: nat, b: nat, c: nat)
    ensures W(a + W(b) + c) == W(a + b + c) && W(a + W(b)) == W(a + b)
  {
  }

  lemma WrapIs(x: nat)
    ensures W(x) <= x && (W(x) == x <==> x < 0x1_0000_0000)
  {
  }

  /** For a boot sector that find_volume accepts, the FATs, the root directory and the data
      area follow one another, exactly when the sums of their sizes do not wrap 32 bits. */
  lemma {:induction false} LayoutOf(w: Sector, bsect: nat)
    requires Accept(w, bsect).Some? && bsect < 0x1_0000_0000
    ensures Accept(w, bsect).value.Valid() <==> bsect + SystemSectors(w) < 0x1_0000_0000
  {
    hide And, Quot, FatNeed, LoadWord, LoadDword, W, PowerOfTwo;
    var g := Accept(w, bsect).value;
    var nrsv, fats, root := LoadWord(w, BPB_RsvdSecCnt), w[BPB_NumFATs] * FatSize(w), LoadWord(w, BPB_RootEntCnt) / 16;
    WordLess(w, BPB_RsvdSecCnt);
    AndLess(g.csize);
    SmallPowers(g.csize);
    FatBits(g.kind, g.nFatEnt, g.fsize);
    Swap(FatSize(w), w[BPB_NumFATs]);
    WrapSums(nrsv, fats, root);
    WrapSums(bsect, nrsv + fats + root, 0);
    Doubled(w[BPB_NumFATs], FatSize(w));
    WrapIs(bsect + nrsv);
    WrapOnce(bsect, nrsv);
    WrapIs(bsect + SystemSectors(w));
    WrapIs(fats);
    WrapSums(g.fatBase, fats, 0);
    WrapIs(g.fatBase + fats);
  }

  /** A 16-bit number added to a 32-bit one wraps to a smaller one. */
  lemma WrapOnce(a: nat, b: nat)
    requires a < 0x1_0000_0000
    ensures a + b >= 0x1_0000_0000 && b < 0x1_0000 ==> W(a + b) < a
  {
  }

  lemma WordLess(w: Sector, i: nat)
    requires i + 2 <= 512
    ensures LoadWord(w, i) < 0x1_0000
  {
  }

  lemma Swap(a: nat, b: nat)
    ensures a * b == b * a
  {
  }

  lemma Doubled(n: nat, x: nat)
    ensures n == 1 ==> n * x == x
    ensures n == 2 ==> n * x == 2 * x
  {
  }

  /** A FAT of the needed size holds every entry. */
  lemma FatBits(kind: Kind, n: nat, fsize: nat)
    requires fsize >= (FatNeed(kind, n) + 511) / 512
    ensures kind == Fat12 ==> 3 * n <= 1024 * fsize
    ensures kind == Fat16 ==> 4 * n <= 1024 * fsize
    ensures kind == Fat32 ==> 8 * n <= 1024 * fsize
  {
    var need := FatNeed(kind, n);
    Ceiling(need);
    assert need <= 512 * fsize;
    HalfUp(n);
  }

  lemma HalfUp(n: nat)
    ensures 3 * n <= 2 * (n * 3 / 2 + n % 2)
  {
    var a, b := n / 2, n % 2;
    assert n == 2 * a + b;
    ModIs(n * 3, 2, 3 * a + b, b);
  }

  lemma Ceiling(x: nat)
    ensures x <= 512 * ((x + 511) / 512)
  {
  }

  /** Sectors of the clusters that fit behind the system area. */
  function DataSectors(w: Sector): nat {
    if TotalSectors(w) < SystemSectors(w) || w[BPB_SecPerClus] == 0 then 0
    else w[BPB_SecPerClus] * Quot(TotalSectors(w) - SystemSectors(w), w[BPB_SecPerClus])
  }

  /** Every sector of every cluster, counted in 32 bits as clst2sect does, lies in the volume
      behind its system area. */
  ghost predicate ClustersInVolume(w: Sector, bsect: nat)
    requires Accept(w, bsect).Some?
  {
    var g := Accept(w, bsect).value;
    forall c: nat, x: nat :: g.ValidCluster(c) && x < g.csize ==>
      bsect + SystemSectors(w) <= g.SectorOf(c, x) < bsect + TotalSectors(w)
  }

  /** The data area of an accepted volume, when its base does not wrap. */
  lemma {:induction false} DataInVolume(w: Sector, bsect: nat)
    requires Accept(w, bsect).Some? && bsect + SystemSectors(w) < 0x1_0000_0000
    ensures Accept(w, bsect).value.dataBase == bsect + SystemSectors(w) && TotalSectors(w) >= SystemSectors(w)
    ensures Accept(w, bsect).value.DataEnd() == bsect + SystemSectors(w) + DataSectors(w) <= bsect + TotalSectors(w)
  {
    hide And, FatNeed, LoadWord, LoadDword, W, PowerOfTwo, Quot;
    var g := Accept(w, bsect).value;
    var nrsv, fats, root := LoadWord(w, BPB_RsvdSecCnt), w[BPB_NumFATs] * FatSize(w), LoadWord(w, BPB_RootEntCnt) / 16;
    Swap(FatSize(w), w[BPB_NumFATs]);
    WrapSums(nrsv, fats, root);
    WrapIs(nrsv + fats + root);
    WrapIs(bsect + SystemSectors(w));
    QuotTimes(TotalSectors(w) - SystemSectors(w), g.csize);
  }

  /** Every cluster that clst2sect computes lies in the volume exactly when neither the system
      area nor the clusters behind it reach beyond 32 bits. */
  lemma {:induction false} ClustersInVolumeExactly(w: Sector, bsect: nat)
    requires Accept(w, bsect).Some? && bsect < 0x1_0000_0000
    ensures ClustersInVolume(w, bsect) <==>
      bsect + SystemSectors(w) < 0x1_0000_0000 && bsect + SystemSectors(w) + DataSectors(w) <= 0x1_0000_0000
  {
    hide Accept, SystemSectors, TotalSectors, DataSectors, W, Geometry.DataEnd;
    var g := Accept(w, bsect).value;
    AcceptedSome(w, bsect);
    if bsect + SystemSectors(w) < 0x1_0000_0000 {
      DataInVolume(w, bsect);
      AddressedExactly(g);
      if g.DataEnd() > 0x1_0000_0000 {
        var c, x := WhereWraps(g);
        WrapSum(g.ClusterSector(c), x);
        WrapTop();
        assert g.SectorOf(c, x) == 0;
      }
    } else {
      WrapLess(g.ClusterToSector(2));
      assert g.SectorOf(2, 0) < 0x1_0000_0000;
    }
  }

  /** No cluster leaves the volume if the volume ends within 32 bits. */
  lemma {:induction false} EndInRange(w: Sector, bsect: nat)
    requires Accept(w, bsect).Some? && SystemSectors(w) < 0x1_0000_0000 && bsect + TotalSectors(w) <= 0x1_0000_0000
    ensures ClustersInVolume(w, bsect)
  {
    hide Accept, SystemSectors, TotalSectors, DataSectors, W, ClustersInVolume;
    AcceptedSome(w, bsect);
    ClustersInVolumeExactly(w, bsect);
    DataInVolume(w, bsect);
  }

  lemma WrapTop()
    ensures W(0x1_0000_0000) == 0
  {
  }

  lemma AcceptedSome(w: Sector, bsect: nat)
    requires Accept(w, bsect).Some?
    ensures var g := Accept(w, bsect).value; g.nFatEnt > 2 && g.csize > 0 && g.dataBase < 0x1_0000_0000
    ensures SystemSectors(w) > 0 && (SystemSectors(w) < 0x1_0000_0000 ==> SystemSectors(w) < TotalSectors(w))
  {
    hide And, FatNeed, LoadWord, LoadDword, PowerOfTwo, Quot, W;
    var nrsv, fats, root := LoadWord(w, BPB_RsvdSecCnt), w[BPB_NumFATs] * FatSize(w), LoadWord(w, BPB_RootEntCnt) / 16;
    Swap(FatSize(w), w[BPB_NumFATs]);
    WrapSums(nrsv, fats, root);
    WrapIs(nrsv + fats + root);
    WrapLess(bsect + W(nrsv + W(fats) + root));
    var t, c := TotalSectors(w), w[BPB_SecPerClus] as nat;
    if SystemSectors(w) == t && c > 0 {
      NoneLeft(c);
    }
  }

  lemma NoneLeft(c: nat)
    requires c > 0
    ensures Quot(0, c) == 0
  {
  }

  lemma QuotTimes(a: nat, b: nat)
    requires b > 0
    ensures b * Quot(a, b) <= a
  {
  }

  /** A boot sector with two FATs of 0x80000001 sectors each: together, in 32 bits, two sectors. */
  function WrappedBoot(): Sector {
    var z := ZeroSector();
    Patch(Patch(z, BPB_BytsPerSec, [0, 2, 1, 1, 0, 2, 16, 0, 14, 0]), BPB_FATSz32, [1, 0, 0, 0x80])
  }

  /** It is accepted, and its data area lies inside its FATs. */
  lemma WrappedIsAccepted()
    ensures Accept(WrappedBoot(), 0).Some?
    ensures var g := Accept(WrappedBoot(), 0).value; !g.Valid() && g.dataBase < g.FatEnd()
  {
    var w := WrappedBoot();
    assert FatSize(w) == 0x8000_0001 && w[BPB_NumFATs] == 2 && w[BPB_SecPerClus] == 1;
    assert LoadWord(w, BPB_RootEntCnt) == 16 && TotalSectors(w) == 14 && LoadWord(w, BPB_RsvdSecCnt) == 1;
    assert LoadWord(w, BPB_BytsPerSec) == 512;
    assert W(0x1_0000_0002) == 2 && W(4) == 4 && W(1) == 1;
    assert And(1, 0) == 0;
  }

  /** A boot sector of a partition at sector 0x100000 that claims 0xFFFF0000 sectors. */
  function FarBoot(): Sector {
    var z := ZeroSector();
    Patch(Patch(z, BPB_BytsPerSec, [0, 2, 128, 32, 0, 1, 0, 0, 0, 0]), BPB_TotSec32, [0, 0, 0xFF, 0xFF, 0, 0, 4, 0])
  }

  /** It is accepted with a layout that does not wrap, but the computed sector of its last
      cluster lies in front of the volume. */
  lemma FarIsAccepted()
    ensures Accept(FarBoot(), 0x10_0000).Some? && 0x10_0000 + SystemSectors(FarBoot()) < 0x1_0000_0000
    ensures var g := Accept(FarBoot(), 0x10_0000).value;
      g.Valid() && g.ValidCluster(g.nFatEnt - 1) && g.ClusterToSector(g.nFatEnt - 1) < g.volBase
  {
    hide FarBoot, LoadWord, LoadDword, And, PowerOfTwo, Geometry.Valid, FatSize, TotalSectors;
    var w := FarBoot();
    FarFields(w);
    assert Quot(0xFFFF_0000 - 262176, 128) == 33551871;
    LayoutOf(w, 0x10_0000);
  }

  lemma FarFields(w: Sector)
    requires w == FarBoot()
    ensures FatSize(w) == 0x4_0000 && w[BPB_NumFATs] == 1 && w[BPB_SecPerClus] == 128
    ensures LoadWord(w, BPB_RootEntCnt) == 0 && TotalSectors(w) == 0xFFFF_0000 && LoadWord(w, BPB_RsvdSecCnt) == 32
    ensures LoadWord(w, BPB_BytsPerSec) == 512 && LoadWord(w, BPB_FSVer32) == 0 && And(128, 127) == 0
  {
    Power128();
    AndLess(128);
  }

  lemma Power128()
    ensures PowerOfTwo(128)
  {
    assert PowerOfTwo(32);
  }

  // ----- which boot sector is used -----

  /** Sector `s` is a FAT boot sector: signature, jump code and type text. */
  ghost predicate IsFatBoot(d: Disk, s: nat) {
    && s < |d| && d[s][510] == 0x55 && d[s][511] == 0xAA && d[s][0] in {0xE8, 0xE9, 0xEB}
    && (d[s][54..57] == [0x46, 0x41, 0x54] || d[s][82..87] == [0x46, 0x41, 0x54, 0x33, 0x32])
  }

  /** Entry `i` of the partition table is used and names a FAT boot sector at `s`. */
  ghost predicate Names(d: Disk, i: nat, s: nat)
    requires i < 4 && |d| > 0
  {
    && d[0][450 + 16 * i] != 0 && s != 0 && IsFatBoot(d, s)
    && s == d[0][454 + 16 * i] as int + 0x100 * d[0][455 + 16 * i] as int
            + 0x1_0000 * d[0][456 + 16 * i] as int + 0x100_0000 * d[0][457 + 16 * i] as int
  }

  /** Whether there is a volume is decided by the boot sector at `s`. */
  ghost predicate DecidedAt(d: Disk, s: nat) {
    && s < |d|
    && match Accept(d[s], s)
       case None => Outcome(d) == NoFileSystem
       case Some(g) => Outcome(d).Volume? && Outcome(d).m.g == g && g.volBase == s
  }

  lemma BootIs(d: Disk, s: nat)
    ensures CheckFs(d, s) == 0 <==> IsFatBoot(d, s)
    ensures CheckFs(d, s) == 0 || CheckFs(d, s) >= 2
    ensures CheckFs(d, s) == 2 <==> s < |d| && d[s][510] == 0x55 && d[s][511] == 0xAA && !IsFatBoot(d, s)
    ensures CheckFs(d, s) == 4 <==> s >= |d|
  {
    if s < |d| {
      WordIs(d[s]);
    }
  }

  lemma WordIs(w: Sector)
    ensures LoadWord(w, 510) == 0xAA55 <==> w[510] == 0x55 && w[511] == 0xAA
  {
  }

  lemma NamesIs(d: Disk, i: nat, s: nat)
    requires i < 4 && |d| > 0
    ensures Names(d, i, s) <==> s == Partition(d[0], i) && s != 0 && CheckFs(d, s) == 0
  {
    hide CheckFs, IsFatBoot;
    BootIs(d, s);
  }

  /** Of the entries from `i` on, number `j` is the first that names a FAT boot sector, at `s`. */
  ghost predicate FirstNamed(d: Disk, i: nat, j: nat, s: nat)
    requires |d| > 0
  {
    i <= j < 4 && Names(d, j, s) && NoneNamed(d, i, j)
  }

  /** None of the entries from `i` to `j` - 1 names a FAT boot sector. */
  ghost predicate NoneNamed(d: Disk, i: nat, j: nat)
    requires |d| > 0 && j <= 4
  {
    forall k: nat, s: nat :: i <= k < j ==> !Names(d, k, s)
  }

  /** The search ends at the first entry that names a FAT boot sector. */
  lemma {:induction false} SearchNames(d: Disk, i: nat) returns (j: nat)
    requires i < 4 && |d| > 0
    ensures var (fmt, s) := Search(d, d[0], i);
      if fmt < 2 then fmt == 0 && FirstNamed(d, i, j, s) else NoneNamed(d, i, 4)
    decreases 4 - i
  {
    hide CheckFs, Names, Partition;
    var s := Partition(d[0], i);
    BootIs(d, s);
    forall t: nat ensures Names(d, i, t) <==> t == s && s != 0 && CheckFs(d, s) == 0 {
      NamesIs(d, i, t);
    }
    j := i;
    if !(s != 0 && CheckFs(d, s) == 0) && i + 1 < 4 {
      j := SearchNames(d, i + 1);
    }
  }

  /** find_volume goes by the boot sector of the drive if it is one of FAT; else, with a partition
      table, by that of the first entry that names one, any of the four; and finds nothing if
      there is none. */
  lemma {:induction false} FoundExactly(d: Disk)
    requires |d| > 0
    ensures IsFatBoot(d, 0) ==> DecidedAt(d, 0)
    ensures !IsFatBoot(d, 0) && d[0][510] == 0x55 && d[0][511] == 0xAA ==>
      forall j: nat, s: nat :: j < 4 && FirstNamed(d, 0, j, s) ==> DecidedAt(d, s)
    ensures Outcome(d).Volume? && !IsFatBoot(d, 0) ==>
      && d[0][510] == 0x55 && d[0][511] == 0xAA
      && exists j: nat :: j < 4 && FirstNamed(d, 0, j, Outcome(d).m.g.volBase)
  {
    hide CheckFs, Names, Partition, Accept, Search, IsFatBoot, LoadWord, LoadDword;
    BootIs(d, 0);
    if IsFatBoot(d, 0) {
      AcceptBase(d[0], 0);
    } else if CheckFs(d, 0) == 2 {
      var i := SearchNames(d, 0);
      var (fmt, b) := Search(d, d[0], 0);
      forall j: nat, s: nat | j < 4 && FirstNamed(d, 0, j, s) ensures fmt == 0 && s == b {
        if fmt < 2 {
          SameName(d, i, b, j, s);
        }
      }
      if fmt == 0 {
        NamedThere(d, i, b);
        AcceptBase(d[b], b);
      }
    }
  }

  lemma SameName(d: Disk, i: nat, b: nat, j: nat, s: nat)
    requires |d| > 0 && FirstNamed(d, 0, i, b) && FirstNamed(d, 0, j, s)
    ensures i == j && b == s
  {
    hide CheckFs, IsFatBoot;
  }

  lemma NamedThere(d: Disk, i: nat, s: nat)
    requires |d| > 0 && FirstNamed(d, 0, i, s)
    ensures s < |d|
  {
  }

  /** What the information sector behind a FAT32 boot sector is taken to say. */
  lemma InfoIs(d: Disk, g: Geometry)
    requires g.volBase + 1 < |d|
    ensures var w := d[g.volBase + 1];
      InfoOf(d, g) ==
        if g.kind == Fat32 && d[g.volBase][48] == 1 && d[g.volBase][49] == 0
          && w[..4] == [0x52, 0x52, 0x61, 0x41] && w[484..488] == [0x72, 0x72, 0x41, 0x61]
          && w[510] == 0x55 && w[511] == 0xAA
        then (LoadDword(w, 488), LoadDword(w, 492)) else (0xFFFF_FFFF, 0xFFFF_FFFF)
  {
    var w := d[g.volBase + 1];
    WordIs(w);
    FourAre(w, 0, [0x52, 0x52, 0x61, 0x41]);
    FourAre(w, 484, [0x72, 0x72, 0x41, 0x61]);
  }

  lemma FourAre(w: Sector, i: nat, b: seq<byte>)
    requires i + 4 <= 512 && |b| == 4
    ensures w[i..i + 4] == b <==> LoadDword(w, i) == LoadDword(b, 0)
  {
    var c := w[i..i + 4];
    assert c == [w[i], w[i + 1], w[i + 2], w[i + 3]] && b == [b[0], b[1], b[2], b[3]];
    if LoadDword(w, i) == LoadDword(b, 0) {
      var k1, k2, k3 := c[1] as int - b[1] as int, c[2] as int - b[2] as int, c[3] as int - b[3] as int;
      NoCarry(c[0] as int - b[0] as int, k1 + 256 * (k2 + 256 * k3));
      NoCarry(k1, k2 + 256 * k3);
      NoCarry(k2, k3);
    }
  }

  lemma NoCarry(d: int, k: int)
    requires -256 < d < 256 && d + 256 * k == 0
    ensures d == 0 && k == 0
  {
  }

  // ----- two well-known boot sectors -----

  /** A floppy disk of 1440 KiB: 224 root entries, two FATs of nine sectors. */
  lemma FloppyIsAccepted(w: Sector, bsect: nat)
    requires w[11..24] == [0, 2, 1, 1, 0, 2, 224, 0, 64, 11, 0xF0, 9, 0] && bsect + 2880 < 0x1_0000_0000
    ensures Accept(w, bsect) ==
      Some(Geometry(Fat12, 2, 1, 224, 2849, 9, bsect, bsect + 1, bsect + 19, bsect + 33))
  {
    var b := w[11..24];
    Eleven(w, b);
    assert FatSize(w) == 9 && TotalSectors(w) == 2880;
    assert And(1, 0) == 0;
    assert Quot(2880 - 33, 1) == 2847;
  }

  /** A FAT32 volume of 1 GiB: 32 reserved sectors, two FATs of 2044 sectors, clusters of 4 KiB. */
  lemma GigabyteIsAccepted(w: Sector, bsect: nat)
    requires w[11..24] == [0, 2, 8, 32, 0, 2, 0, 0, 0, 0, 0xF8, 0, 0] && bsect + 0x20_0000 < 0x1_0000_0000
    requires w[32..40] == [0, 0, 0x20, 0, 0xFC, 7, 0, 0] && w[42..48] == [0, 0, 3, 0, 0, 0]
    ensures Accept(w, bsect) ==
      Some(Geometry(Fat32, 2, 8, 0, 261631, 2044, bsect, bsect + 32, 3, bsect + 4120))
  {
    Eleven(w, w[11..24]);
    Tail(w, w[32..40], w[42..48]);
    assert FatSize(w) == 2044 && TotalSectors(w) == 0x20_0000;
    assert PowerOfTwo(8);
    AndLess(8);
    assert Quot(0x20_0000 - 4120, 8) == 261629;
  }

  lemma Eleven(w: Sector, b: seq<byte>)
    requires |b| == 13 && w[11..24] == b
    ensures w[11] == b[0] && w[12] == b[1] && w[13] == b[2] && w[14] == b[3] && w[15] == b[4] && w[16] == b[5]
    ensures w[17] == b[6] && w[18] == b[7] && w[19] == b[8] && w[20] == b[9] && w[22] == b[11] && w[23] == b[12]
  {
    var c := w[11..24];
    assert c[0] == w[11] && c[1] == w[12] && c[2] == w[13] && c[3] == w[14] && c[4] == w[15] && c[5] == w[16];
    assert c[6] == w[17] && c[7] == w[18] && c[8] == w[19] && c[9] == w[20] && c[11] == w[22] && c[12] == w[23];
  }

  lemma Tail(w: Sector, a: seq<byte>, b: seq<byte>)
    requires |a| == 8 && |b| == 6 && w[32..40] == a && w[42..48] == b
    ensures w[32] == a[0] && w[33] == a[1] && w[34] == a[2] && w[35] == a[3]
    ensures w[36] == a[4] && w[37] == a[5] && w[38] == a[6] && w[39] == a[7]
    ensures w[42] == b[0] && w[43] == b[1] && w[44] == b[2] && w[45] == b[3] && w[46] == b[4] && w[47] == b[5]
  {
    var c, d := w[32..40], w[42..48];
    assert c[0] == w[32] && c[1] == w[33] && c[2] == w[34] && c[3] == w[35];
    assert c[4] == w[36] && c[5] == w[37] && c[6] == w[38] && c[7] == w[39];
    assert d[0] == w[42] && d[1] == w[43] && d[2] == w[44] && d[3] == w[45] && d[4] == w[46] && d[5] == w[47];
  }

  /** The type of an accepted volume follows from its number of clusters. */
  lemma KindByCount(w: Sector, bsect: nat)
    requires Accept(w, bsect).Some?
    ensures var g := Accept(w, bsect).value;
      var n := g.nFatEnt - 2;
      && 1 <= n <= 0xFFF_FFF5 && (g.kind == Fat12 <==> n <= 4085) && (g.kind == Fat32 <==> n > 65525)
  {
    hide And, W, FatNeed, LoadWord, LoadDword;
  }

  /** What a boot sector has to say to be accepted: sector and cluster size, number of FATs, a
      reserved area, whole sectors of root entries that only FAT32 does without, no FAT32 version,
      and a FAT for every cluster. */
  lemma AcceptsOnly(w: Sector, bsect: nat)
    requires Accept(w, bsect).Some?
    ensures w[11] == 0 && w[12] == 2 && w[13] in {1, 2, 4, 8, 16, 32, 64, 128} && w[16] in {1, 2}
    ensures (w[14] != 0 || w[15] != 0) && w[17] % 16 == 0
    ensures var g := Accept(w, bsect).value;
      && (g.kind == Fat32 ==> w[17] == 0 && w[18] == 0 && w[42] == 0 && w[43] == 0)
      && (g.kind != Fat32 ==> w[17] != 0 || w[18] != 0)
      && (g.kind == Fat12 ==> 3 * g.nFatEnt <= 2 * 512 * g.fsize)
      && (g.kind == Fat16 ==> 2 * g.nFatEnt <= 512 * g.fsize) && (g.kind == Fat32 ==> 4 * g.nFatEnt <= 512 * g.fsize)
  {
    hide And, W, LoadDword, PowerOfTwo, Quot, FatNeed;
    var g := Accept(w, bsect).value;
    WordParts(w);
    AndLess(g.csize);
    SmallPowers(g.csize);
    FatBits(g.kind, g.nFatEnt, g.fsize);
  }

  lemma WordParts(w: Sector)
    ensures LoadWord(w, 11) == 512 <==> w[11] == 0 && w[12] == 2
    ensures LoadWord(w, 14) == 0 <==> w[14] == 0 && w[15] == 0
    ensures LoadWord(w, 42) == 0 <==> w[42] == 0 && w[43] == 0
    ensures LoadWord(w, 17) == 0 <==> w[17] == 0 && w[18] == 0
    ensures LoadWord(w, 17) % 16 == 0 <==> w[17] % 16 == 0
  {
  }
}
