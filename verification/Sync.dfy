/** sync_fs: the window and, on FAT32, the information sector go to the disk. */
module Sync {
  import opened Bytes
  import opened Layout
  import opened FatTable
  import opened Volume
  import opened Clusters
  import opened Mount
  import opened MakeFs

  /** The information sector is to be written. */
  predicate Due(fs: FatVolume)
    reads fs`fsiDirty
  {
    fs.g.kind == Fat32 && fs.fsInfo && fs.fsiDirty
  }

  /** sync_fs. The information sector follows the boot sector; it is no part of the FAT if
      more than one sector is reserved. */
  method SyncFs(fs: FatVolume)
    requires fs.Valid() && fs.freeClst < 0x1_0000_0000 && fs.lastClst < 0x1_0000_0000
    modifies fs`disk, fs`wflag, fs`winsect, fs`fsiDirty, fs.win
    ensures fs.Valid() && !fs.wflag && fs.disk == fs.Eff() && |fs.disk| == old(|fs.disk|)
    ensures !old(Due(fs)) ==> fs.disk == old(fs.Eff())
    ensures old(Due(fs)) ==>
      && !fs.fsiDirty && fs.g.volBase + 1 < |fs.disk| && IsInfo(fs.disk[fs.g.volBase + 1], fs.freeClst, fs.lastClst)
      && forall s :: 0 <= s < |fs.disk| && s != fs.g.volBase + 1 ==> fs.disk[s] == old(fs.Eff())[s]
    ensures !old(Due(fs)) || fs.g.volBase + 1 < fs.g.fatBase ==>
      fs.Fat() == old(fs.Fat()) && (old(Healthy(fs)) ==> Healthy(fs))
  {
    hide FatOf, Flush, Forest, IsInfo, FreeCount, PowerOfTwo;
    ghost var e0 := fs.Eff();
    fs.SyncWindow();
    if fs.g.kind == Fat32 && fs.fsInfo && fs.fsiDirty {
      FillInfo(fs.win, fs.freeClst, fs.lastClst);
      fs.winsect := fs.g.volBase + 1;
      fs.disk := fs.disk[fs.winsect := fs.win[..]];
      fs.fsiDirty := false;
      if fs.g.volBase + 1 < fs.g.fatBase {
        SameFat(e0, fs.disk, fs.g);
      }
    }
  }

  /** Sectors in which find_volume looks for a boot sector. */
  ghost predicate Examined(d: Disk, s: nat) {
    s == 0 || (CheckFs(d, 0) == 2 && exists i: nat :: i < 4 && Partition(d[0], i) == s)
  }

  /** A volume mounted from disk `d0`, whose boot sectors have not been touched since; what
      it knows of free clusters is what `d0` recorded, or is marked to be recorded. */
  ghost predicate MountedFrom(fs: FatVolume, d0: Disk)
    requires fs.Valid()
    reads fs, fs.win
  {
    && Outcome(d0).Volume? && fs.g == Outcome(d0).m.g && |fs.disk| == |d0|
    && (forall s: nat :: s < |d0| && Examined(d0, s) ==> fs.Eff()[s] == d0[s])
    && fs.g.volBase < |d0| && (fs.fsInfo <==> HasInfo(d0, fs.g))
    && (fs.fsInfo && !fs.fsiDirty ==>
          fs.Eff()[fs.g.volBase + 1] == d0[fs.g.volBase + 1] && (fs.freeClst, fs.lastClst) == InfoOf(d0, fs.g))
  }

  /** What create_chain, remove_chain and f_getfree do to the volume keeps that, when the boot
      and information sectors are no part of the FATs. */
  twostate lemma StaysMounted(fs: FatVolume, d0: Disk)
    requires old(fs.Valid()) && fs.Valid() && old(MountedFrom(fs, d0))
    requires SameData(old(fs.Eff()), fs.Eff(), fs.g) && Noted(fs)
    requires fs.g.volBase + 1 < fs.g.fatBase && forall s: nat :: Examined(d0, s) ==> !fs.g.InFats(s)
    ensures MountedFrom(fs, d0)
  {
    hide Examined, InfoOf, Outcome, FatVolume.Eff;
  }

  /** Where the boot sectors are the same, the same volume is found. */
  lemma {:induction false} SearchSame(d: Disk, d': Disk, i: nat)
    requires |d'| == |d| > 0 && i < 4
    requires forall j: nat :: j < 4 && Partition(d[0], j) < |d| ==> d'[Partition(d[0], j)] == d[Partition(d[0], j)]
    ensures Search(d', d[0], i) == Search(d, d[0], i)
    decreases 4 - i
  {
    hide Partition;
    var b := Partition(d[0], i);
    assert CheckFs(d', b) == CheckFs(d, b);
    if i + 1 < 4 {
      SearchSame(d, d', i + 1);
    }
  }

  lemma {:induction false} LocateSame(d: Disk, d': Disk)
    requires |d'| == |d| && forall s: nat :: s < |d| && Examined(d, s) ==> d'[s] == d[s]
    ensures Locate(d') == Locate(d)
  {
    hide Partition, Search;
    assert Examined(d, 0);
    if CheckFs(d, 0) == 2 {
      SearchSame(d, d', 0);
    }
  }

  lemma {:induction false} SearchEnds(d: Disk, w: Sector, i: nat) returns (j: nat)
    requires i < 4
    ensures j < 4 && Partition(w, j) == Search(d, w, i).1
    decreases 4 - i
  {
    j := i;
    var bsect := Partition(w, i);
    if (bsect == 0 || CheckFs(d, bsect) >= 2) && i + 1 < 4 {
      j := SearchEnds(d, w, i + 1);
    }
  }

  lemma {:induction false} LocateExamined(d: Disk)
    ensures Examined(d, Locate(d).1)
  {
    hide Partition, Search;
    if CheckFs(d, 0) == 2 {
      var i := SearchEnds(d, d[0], 0);
    }
  }

  /** A synchronised disk mounts as the same volume again. */
  lemma {:induction false} Found(d0: Disk, d: Disk)
    requires Outcome(d0).Volume? && |d| == |d0|
    requires forall s: nat :: s < |d0| && Examined(d0, s) ==> d[s] == d0[s]
    ensures var g := Outcome(d0).m.g;
      && g.volBase < |d0| && (HasInfo(d, g) <==> HasInfo(d0, g))
      && Outcome(d) == Mount.Volume(Mounted(g, InfoOf(d, g).0, InfoOf(d, g).1, Outcome(d0).m.winsect))
      && (HasInfo(d, g) && d[g.volBase + 1] == d0[g.volBase + 1] ==> InfoOf(d, g) == InfoOf(d0, g))
  {
    hide Locate, Accept, LoadWord, LoadDword, Examined;
    LocateSame(d0, d);
    LocateExamined(d0);
    AcceptBase(d0[Locate(d0).1], Locate(d0).1);
  }

  /** sync_fs and mounting again: the same volume is found, with the free count and the last
      cluster that were known, whether or not they had to be written; on a sound volume the
      count is right. */
  method SyncThenMount(fs: FatVolume, ghost d0: Disk) returns (res: Mount.Found)
    requires fs.Valid() && MountedFrom(fs, d0) && fs.freeClst < 0x1_0000_0000 && fs.lastClst < 0x1_0000_0000
    requires Due(fs) ==> !Examined(d0, fs.g.volBase + 1)
    modifies fs`disk, fs`wflag, fs`winsect, fs`fsiDirty, fs.win
    ensures fs.Valid() && fs.disk == fs.Eff() && res == Outcome(fs.disk)
    ensures res == Mount.Volume(Mounted(fs.g, if fs.fsInfo then fs.freeClst else UNKNOWN,
                                        if fs.fsInfo then fs.lastClst else UNKNOWN, Outcome(d0).m.winsect))
    ensures fs.g.volBase + 1 < fs.g.fatBase ==> fs.Fat() == old(fs.Fat()) && (old(Healthy(fs)) ==> Healthy(fs))
    ensures fs.g.volBase + 1 < fs.g.fatBase && old(Healthy(fs)) && res.m.free <= fs.g.nFatEnt - 2 ==>
      res.m.free == FreeCount(FatOf(fs.disk, fs.g))
    ensures MountedFrom(fs, fs.disk)
  {
    hide FatOf, Forest, FreeCount, PowerOfTwo, Outcome, LoadWord, LoadDword, Examined, FatVolume.Eff, Mirrored;
    SyncFs(fs);
    Found(d0, fs.disk);
    InfoBack(fs.disk, fs.g, fs.freeClst, fs.lastClst);
    Found(fs.disk, fs.disk);
    res := FindVolume(fs.disk);
  }

  lemma InfoBack(d: Disk, g: Geometry, free: nat, last: nat)
    requires g.volBase < |d|
    ensures HasInfo(d, g) && IsInfo(d[g.volBase + 1], free, last) ==> InfoOf(d, g) == (free, last)
  {
  }
}
