/** Allocation of clusters: create_chain, remove_chain and the free cluster count. */
module Clusters {
  import opened Bytes
  import opened Layout
  import opened FatTable
  import opened Volume
  import Codec = FatCodec

  /** The table is a forest, the FATs agree and the free count is right if it is known. */
  ghost predicate Healthy(fs: FatVolume)
    requires fs.Valid()
    reads fs, fs.win
  {
    Forest(fs.Fat()) && Mirrored(fs.disk, fs.g) && fs.FreeOk()
  }

  /** A changed free count or last cluster is marked as to be recorded. */
  twostate predicate Noted(fs: FatVolume)
    reads fs
  {
    fs.fsiDirty || (!old(fs.fsiDirty) && fs.freeClst == old(fs.freeClst) && fs.lastClst == old(fs.lastClst))
  }

  lemma EndMarkIsEnd(g: Geometry)
    requires g.Valid()
    ensures EndMark(g.kind) >= g.nFatEnt
    ensures forall v: nat :: v < g.nFatEnt ==> Codec.Truncate(g.kind, v) == v
  {
  }

  /** One turn of remove_chain: frees `c` unless its entry is 0 or 1. */
  method FreeCluster(fs: FatVolume, c: nat) returns (nxt: nat)
    requires fs.Valid() && InRange(fs.Fat(), c)
    modifies fs, fs.win
    ensures fs.Valid() && SameData(old(fs.Eff()), fs.Eff(), fs.g) && fs.lastClst == old(fs.lastClst)
    ensures fs.Quiet(old(fs.disk), old(fs.winsect))
    ensures old(Mirrored(fs.disk, fs.g)) ==> Mirrored(fs.disk, fs.g)
    ensures old(fs.FreeOk()) ==> fs.FreeOk()
    ensures Noted(fs) && nxt == old(fs.Fat())[c]
    ensures fs.Fat() == if nxt <= 1 then old(fs.Fat()) else old(fs.Fat())[c := 0]
  {
    hide FatOf, Zeros, Mirrored, Flush;
    ghost var f := fs.Fat();
    nxt := fs.GetFat(c);
    if nxt > 1 {
      var _ := fs.PutFat(c, 0);
      EndMarkIsEnd(fs.g);
      CountFreed(f, c);
      if fs.freeClst < fs.g.nFatEnt - 2 {
        fs.freeClst := fs.freeClst + 1;
        fs.fsiDirty := true;
      }
    }
  }

  /** remove_chain. A turn that meets the value 1 stops it with an error. */
  method RemoveChain(fs: FatVolume, clst: nat, pclst: nat) returns (res: FResult)
    requires fs.Valid()
    modifies fs, fs.win
    ensures fs.Valid() && SameData(old(fs.Eff()), fs.Eff(), fs.g) && fs.lastClst == old(fs.lastClst)
    ensures fs.Quiet(old(fs.disk), old(fs.winsect))
    ensures old(Mirrored(fs.disk, fs.g)) ==> Mirrored(fs.disk, fs.g)
    ensures Noted(fs) && (old(fs.FreeOk() && (InRange(fs.Fat(), pclst) ==> fs.Fat()[pclst] != 0)) ==> fs.FreeOk())
    ensures var f := old(fs.Fat());
      if !InRange(f, clst) || (pclst != 0 && !InRange(f, pclst)) then res == IntErr && fs.Eff() == old(fs.Eff())
      else
        var (f', ok) := Removed(f, clst, pclst, EndMark(fs.g.kind));
        fs.Fat() == f' && res == (if ok then Ok else IntErr)
  {
    if clst < 2 || clst >= fs.g.nFatEnt {
      return IntErr;
    }
    ghost var f0 := fs.Fat();
    if pclst != 0 {
      res := fs.PutFat(pclst, EOC);
      if res != Ok {
        return;
      }
      EndMarkIsEnd(fs.g);
      KeepCount(f0, pclst, EndMark(fs.g.kind));
      f0 := f0[pclst := EndMark(fs.g.kind)];
    }
    res := FreeAll(fs, clst);
  }

  /** The loop of remove_chain. */
  method FreeAll(fs: FatVolume, clst: nat) returns (res: FResult)
    requires fs.Valid() && InRange(fs.Fat(), clst)
    modifies fs, fs.win
    ensures fs.Valid() && SameData(old(fs.Eff()), fs.Eff(), fs.g) && fs.lastClst == old(fs.lastClst)
    ensures fs.Quiet(old(fs.disk), old(fs.winsect))
    ensures old(Mirrored(fs.disk, fs.g)) ==> Mirrored(fs.disk, fs.g)
    ensures Noted(fs) && (old(fs.FreeOk()) ==> fs.FreeOk())
    ensures var (f', ok) := FreeFrom(old(fs.Fat()), clst); fs.Fat() == f' && res == (if ok then Ok else IntErr)
  {
    hide FatOf, Zeros, Mirrored, Flush;
    ghost var f0 := fs.Fat();
    var c := clst;
    while true
      invariant fs.Valid() && SameData(old(fs.Eff()), fs.Eff(), fs.g) && fs.lastClst == old(fs.lastClst)
      invariant fs.Quiet(old(fs.disk), old(fs.winsect))
      invariant old(Mirrored(fs.disk, fs.g)) ==> Mirrored(fs.disk, fs.g)
      invariant Noted(fs) && (old(fs.FreeOk()) ==> fs.FreeOk())
      invariant InRange(fs.Fat(), c) && FreeFrom(fs.Fat(), c) == FreeFrom(f0, clst)
      decreases NonZero(fs.Fat())
    {
      ghost var f := fs.Fat();
      var nxt := FreeCluster(fs, c);
      if nxt == 0 {
        return Ok;
      }
      if nxt == 1 {
        return IntErr;
      }
      NonZeroUpdate(f, c, 0);
      if nxt >= fs.g.nFatEnt {
        return Ok;
      }
      c := nxt;
    }
  }

  // ----- create_chain -----

  /** The loop of create_chain that looks for a free cluster after `scl`, wrapping around.
      0: none, 1: an entry holds the value 1. */
  method FindFree(fs: FatVolume, scl: nat) returns (ncl: nat)
    requires fs.Valid() && 1 <= scl < fs.g.nFatEnt
    modifies fs`disk, fs`wflag, fs`winsect, fs.win
    ensures fs.Valid() && fs.Eff() == old(fs.Eff())
    ensures fs.Quiet(old(fs.disk), old(fs.winsect)) && (old(Mirrored(fs.disk, fs.g)) ==> Mirrored(fs.disk, fs.g))
    ensures ncl == 0 ==> forall c :: InRange(fs.Fat(), c) ==> fs.Fat()[c] > 1
    ensures ncl == 1 ==> exists c: nat :: FirstStop(fs.Fat(), scl, c) && fs.Fat()[c] == 1
    ensures ncl > 1 ==> FirstStop(fs.Fat(), scl, ncl) && fs.Fat()[ncl] == 0 && InRange(fs.Fat(), ncl)
  {
    hide FatOf, Mirrored, Flush;
    ghost var f := fs.Fat();
    ncl := scl;
    ghost var wrapped := false;
    while true
      invariant fs.Valid() && fs.Eff() == old(fs.Eff())
      invariant fs.Quiet(old(fs.disk), old(fs.winsect)) && (old(Mirrored(fs.disk, fs.g)) ==> Mirrored(fs.disk, fs.g))
      invariant if wrapped then 2 <= ncl < scl else scl <= ncl < fs.g.nFatEnt
      invariant forall c :: InRange(f, c) && Rank(|f|, scl, c) <= (if ncl == scl then 0 else Rank(|f|, scl, ncl)) ==>
        f[c] > 1
      decreases !wrapped, fs.g.nFatEnt - ncl
    {
      ncl := ncl + 1;
      if ncl >= fs.g.nFatEnt {
        ncl := 2;
        wrapped := true;
        if ncl > scl {
          return 0;
        }
      }
      var cs := fs.GetFat(ncl);
      if cs == 0 {
        break;
      }
      if cs == 1 {
        assert FirstStop(f, scl, ncl);
        return 1;
      }
      if ncl == scl {
        return 0;
      }
    }
  }

  /** Looks for a cluster to allocate: the neighbour of the stretched cluster first. */
  method ChooseCluster(fs: FatVolume, clst: nat) returns (ncl: nat)
    requires fs.Valid() && (clst == 0 || InRange(fs.Fat(), clst))
    modifies fs`disk, fs`wflag, fs`winsect, fs.win
    ensures fs.Valid() && fs.Eff() == old(fs.Eff())
    ensures fs.Quiet(old(fs.disk), old(fs.winsect)) && (old(Mirrored(fs.disk, fs.g)) ==> Mirrored(fs.disk, fs.g))
    ensures ncl == 0 ==> forall c :: InRange(fs.Fat(), c) ==> fs.Fat()[c] > 1
    ensures ncl == 1 ==> exists c: nat :: Chosen(fs.Fat(), clst, fs.lastClst, c) && fs.Fat()[c] == 1
    ensures ncl > 1 ==> Chosen(fs.Fat(), clst, fs.lastClst, ncl) && fs.Fat()[ncl] == 0 && InRange(fs.Fat(), ncl)
  {
    hide FatOf, Mirrored, Flush, FirstStop;
    ghost var f := fs.Fat();
    var scl;
    if clst == 0 {
      scl := fs.lastClst;
      if scl == 0 || scl >= fs.g.nFatEnt {
        scl := 1;
      }
    } else {
      scl := clst;
      ncl := scl + 1;
      if ncl >= fs.g.nFatEnt {
        ncl := 2;
      }
      var cs := fs.GetFat(ncl);
      if cs == 1 {
        assert Chosen(f, clst, fs.lastClst, ncl);
        return 1;
      }
      if cs == 0 {
        return;
      }
      cs := fs.lastClst;
      if cs >= 2 && cs < fs.g.nFatEnt {
        scl := cs;
      }
    }
    ncl := FindFree(fs, scl);
    assert forall c: nat :: FirstStop(f, scl, c) ==> Chosen(f, clst, fs.lastClst, c);
  }

  /** Marks the free cluster `ncl` as an end and links it behind `clst`, if that is not 0. */
  method Link(fs: FatVolume, clst: nat, ncl: nat)
    requires fs.Valid() && InRange(fs.Fat(), ncl) && fs.Fat()[ncl] == 0 && fs.freeClst != 0
    requires clst == 0 || (InRange(fs.Fat(), clst) && fs.Fat()[clst] != 0)
    modifies fs, fs.win
    ensures fs.Valid() && SameData(old(fs.Eff()), fs.Eff(), fs.g)
    ensures fs.Quiet(old(fs.disk), old(fs.winsect))
    ensures old(Mirrored(fs.disk, fs.g)) ==> Mirrored(fs.disk, fs.g)
    ensures fs.Fat() == Stretched(old(fs.Fat()), clst, ncl, EndMark(fs.g.kind)) && fs.Fat() != old(fs.Fat())
    ensures fs.lastClst == ncl && fs.g.InFirstFat(fs.winsect)
    ensures old(fs.FreeOk()) ==> fs.FreeOk()
  {
    hide FatOf, Mirrored, Flush, Zeros, Codec.Truncate;
    ghost var f := fs.Fat();
    EndMarkIsEnd(fs.g);
    CountTaken(f, clst, ncl, EndMark(fs.g.kind));
    var _ := fs.PutFat(ncl, EOC);
    if clst != 0 {
      var _ := fs.PutFat(clst, ncl);
    }
    fs.lastClst := ncl;
    if fs.freeClst <= fs.g.nFatEnt - 2 {
      fs.freeClst := fs.freeClst - 1;
    }
  }

  /** The branches of create_chain. */
  method TakeCluster(fs: FatVolume, clst: nat) returns (ncl: nat)
    requires fs.Valid()
    modifies fs, fs.win
    ensures fs.Valid() && SameData(old(fs.Eff()), fs.Eff(), fs.g)
    ensures fs.Quiet(old(fs.disk), old(fs.winsect))
    ensures old(Mirrored(fs.disk, fs.g)) ==> Mirrored(fs.disk, fs.g)
    ensures Created(old(fs.Fat()), fs.Fat(), fs.g.kind, clst, old(fs.freeClst), old(fs.lastClst), ncl)
    ensures fs.Fat() == old(fs.Fat()) ==> fs.freeClst == old(fs.freeClst) && fs.lastClst == old(fs.lastClst)
    ensures fs.Fat() != old(fs.Fat()) ==> fs.lastClst == ncl && fs.g.InFirstFat(fs.winsect)
    ensures Noted(fs) && (old(fs.FreeOk()) ==> fs.FreeOk())
  {
    hide FatOf, Mirrored, Flush, FirstStop, Zeros, Stretched;
    ghost var f := fs.Fat();
    if clst != 0 {
      var cs := fs.GetFat(clst);
      if cs < 2 {
        return 1;
      }
      if cs < fs.g.nFatEnt {
        return cs;
      }
    }
    if fs.freeClst == 0 {
      return 0;
    }
    ncl := ChooseCluster(fs, clst);
    if ncl <= 1 {
      return;
    }
    Link(fs, clst, ncl);
    fs.fsiDirty := true;
  }

  /** `c` is the first free cluster behind `s`, from the end of the table on with cluster 2. */
  ghost predicate NextFree(f: Table, s: nat, c: nat) {
    && 2 <= c < |f| && f[c] == 0
    && (c > s ==> forall d :: s < d < c && 2 <= d ==> f[d] != 0)
    && (c <= s ==> forall d :: 2 <= d < |f| && (d > s || d < c) ==> f[d] != 0)
  }

  /** What a caller of create_chain gets: a new chain starts at the first free cluster behind the
      one allocated last; a chain goes on with the cluster it has, else with the one next to its
      end if that is free, else with the first free one behind the one allocated last. */
  ghost predicate Handed(f: Table, f': Table, kind: Kind, clst: nat, last: nat, r: nat)
    requires |f| >= 3
  {
    var mark := match kind case Fat12 => 0xFFF case Fat16 => 0xFFFF case Fat32 => 0x0FFF_FFFF;
    var next := if clst + 1 < |f| then clst + 1 else 2;
    var known := 2 <= last < |f|;
    if clst == 0 then NextFree(f, if known then last else 1, r) && f' == f[r := mark]
    else if !(2 <= clst < |f|) || f[clst] < 2 then r == 1 && f' == f
    else if f[clst] < |f| then r == f[clst] && f' == f
    else
      && (if f[next] == 0 then r == next else NextFree(f, if known then last else clst, r))
      && f' == f[r := mark][clst := r]
  }

  /** create_chain hands out what it should whenever it hands out anything, and it does so if
      the cluster next to the end of the chain is free. */
  lemma {:induction false} CreatedHanded(f: Table, f': Table, kind: Kind, clst: nat, free: nat, last: nat, r: nat)
    requires |f| >= 3 && Created(f, f', kind, clst, free, last, r)
    ensures r >= 2 || (clst != 0 && (!InRange(f, clst) || f[clst] < 2)) ==> Handed(f, f', kind, clst, last, r)
    ensures InRange(f, clst) && f[clst] >= |f| && free != 0 && clst + 1 < |f| && f[clst + 1] == 0 ==> r == clst + 1
  {
    if clst != 0 && (!InRange(f, clst) || f[clst] < 2) {
    } else if r >= 2 && !(InRange(f, clst) && f[clst] < |f|) {
      var next := if clst + 1 < |f| then clst + 1 else 2;
      if clst == 0 || f[next] != 0 {
        var s := if 2 <= last < |f| then last else if clst == 0 then 1 else clst;
        FirstIsBehind(f, s, r);
      }
    }
  }

  lemma {:induction false} FirstIsBehind(f: Table, s: nat, r: nat)
    requires 1 <= s < |f| && FirstStop(f, s, r) && f[r] == 0
    ensures NextFree(f, s, r)
  {
    forall d | InRange(f, d) && (if r > s then s < d < r else d > s || d < r) ensures f[d] != 0 {
      assert Rank(|f|, s, d) < Rank(|f|, s, r);
    }
  }

  /** create_chain. */
  method CreateChain(fs: FatVolume, clst: nat) returns (ncl: nat)
    requires fs.Valid()
    modifies fs, fs.win
    ensures fs.Valid() && SameData(old(fs.Eff()), fs.Eff(), fs.g)
    ensures fs.Quiet(old(fs.disk), old(fs.winsect))
    ensures old(Mirrored(fs.disk, fs.g)) ==> Mirrored(fs.disk, fs.g)
    ensures Created(old(fs.Fat()), fs.Fat(), fs.g.kind, clst, old(fs.freeClst), old(fs.lastClst), ncl)
    ensures ncl >= 2 || (clst != 0 && (!InRange(old(fs.Fat()), clst) || old(fs.Fat())[clst] < 2)) ==>
      Handed(old(fs.Fat()), fs.Fat(), fs.g.kind, clst, old(fs.lastClst), ncl)
    ensures old(InRange(fs.Fat(), clst) && fs.Fat()[clst] >= fs.g.nFatEnt && fs.freeClst != 0) ==>
      clst + 1 < fs.g.nFatEnt && old(fs.Fat())[clst + 1] == 0 ==> ncl == clst + 1
    ensures fs.Fat() == old(fs.Fat()) ==> fs.freeClst == old(fs.freeClst) && fs.lastClst == old(fs.lastClst)
    ensures fs.Fat() != old(fs.Fat()) ==> fs.lastClst == ncl && fs.g.InFirstFat(fs.winsect)
    ensures Noted(fs) && (old(fs.FreeOk()) ==> fs.FreeOk())
  {
    hide FatOf, Mirrored, Flush, Created, Handed;
    ghost var f, free, last := fs.Fat(), fs.freeClst, fs.lastClst;
    ncl := TakeCluster(fs, clst);
    CreatedHanded(f, fs.Fat(), fs.g.kind, clst, free, last, ncl);
  }

  lemma {:induction false} CountTaken(f: Table, c: nat, x: nat, eoc: nat)
    requires InRange(f, x) && f[x] == 0 && eoc > 0 && (c == 0 || (InRange(f, c) && f[c] != 0))
    ensures FreeCount(Stretched(f, c, x, eoc)) == FreeCount(f) - 1
    ensures Stretched(f, c, x, eoc) != f
  {
    ZerosUpdate(f, 2, x, eoc);
    if c != 0 {
      ZerosUpdate(f[x := eoc], 2, c, x);
    }
    assert Stretched(f, c, x, eoc)[x] != 0;
  }

  /** On a sound table create_chain reports a full disk exactly when no cluster is free,
      and otherwise hands out a cluster that was free. */
  lemma {:induction false} FullExactly(f: Table, f': Table, kind: Kind, clst: nat, free: nat, last: nat, r: nat)
    requires |f| >= 3 && Created(f, f', kind, clst, free, last, r) && NoOnes(f)
    requires free <= |f| - 2 ==> free == FreeCount(f)
    requires clst == 0 || (InRange(f, clst) && f[clst] >= |f|)
    ensures r == 0 <==> FreeCount(f) == 0
    ensures r != 0 ==> InRange(f, r) && f[r] == 0 && f' == Stretched(f, clst, r, EndMark(kind))
  {
    ZerosBound(f, 2);
  }

  /** create_chain keeps the forest, whatever it returns. */
  lemma {:induction false} CreatedForest(f: Table, f': Table, g: Geometry, clst: nat, free: nat, last: nat, r: nat)
    requires g.Valid() && |f| == g.nFatEnt && Created(f, f', g.kind, clst, free, last, r) && Forest(f)
    ensures Forest(f')
  {
    EndMarkIsEnd(g);
    if f' != f {
      StretchForest(f, clst, r, EndMark(g.kind));
    }
  }

  // ----- f_getfree -----

  method Scan12(fs: FatVolume) returns (res: FResult, nfree: nat)
    requires fs.Valid()
    modifies fs`disk, fs`wflag, fs`winsect, fs.win
    ensures fs.Valid() && fs.Eff() == old(fs.Eff())
    ensures res == Ok ==> nfree == FreeCount(fs.Fat())
    ensures (res == Ok <==> NoOnes(fs.Fat())) && (res == Ok || res == IntErr)
  {
    hide FatOf, Mirrored, Flush, SameBut;
    ghost var f := fs.Fat();
    nfree := 0;
    var clst := 2;
    while true
      invariant 2 <= clst < fs.g.nFatEnt && fs.Valid() && fs.Eff() == old(fs.Eff())
      invariant nfree + Zeros(f, clst) == FreeCount(f)
      invariant forall c :: 2 <= c < clst ==> f[c] != 1
      decreases fs.g.nFatEnt - clst
    {
      var stat := fs.GetFat(clst);
      if stat == 1 {
        return IntErr, nfree;
      }
      if stat == 0 {
        nfree := nfree + 1;
      }
      clst := clst + 1;
      if clst >= fs.g.nFatEnt {
        break;
      }
    }
    res := Ok;
  }

  /** The byte at which a FAT16 or FAT32 entry starts. */
  function EntryByte(kind: Kind, c: nat): nat {
    if kind == Fat16 then 2 * c else 4 * c
  }

  lemma StepInSector(w: nat, u: nat, c: nat)
    requires (w == 2 && u == 256) || (w == 4 && u == 128)
    ensures w * c % 512 + w <= 512
    ensures w * (c + 1) % 512 == (w * c % 512 + w) % 512
    ensures w * (c + 1) / 512 == w * c / 512 + (if w * (c + 1) % 512 == 0 then 1 else 0)
  {
    var q, r := c / u, c % u;
    assert w * c == 512 * q + w * r && w * (c + 1) == 512 * q + w * (r + 1);
    assert w * r + w <= 512;
    Split512(w * c, q, w * r);
    if r + 1 < u {
      Split512(w * (c + 1), q, w * (r + 1));
    } else {
      Split512(w * (c + 1), q + 1, 0);
    }
  }

  lemma Split512(x: nat, q: nat, r: nat)
    requires x == 512 * q + r && r < 512
    ensures x / 512 == q && x % 512 == r
  {
  }

  lemma NextEntry(kind: Kind, c: nat)
    ensures var p, q := EntryByte(kind, c), EntryByte(kind, c + 1);
      && Off(p) + (q - p) <= 512
      && Off(q) == (Off(p) + (q - p)) % 512
      && Sec(q) == Sec(p) + (if Off(q) == 0 then 1 else 0)
  {
    if kind == Fat16 {
      StepInSector(2, 256, c);
    } else {
      StepInSector(4, 128, c);
    }
  }

  /** The raw scan of a FAT16 or FAT32 volume: it counts every entry, 0 and 1 included. */
  method ScanRaw(fs: FatVolume) returns (nfree: nat)
    requires fs.Valid() && fs.g.kind != Fat12
    modifies fs`disk, fs`wflag, fs`winsect, fs.win
    ensures fs.Valid() && fs.Eff() == old(fs.Eff())
    ensures nfree == Zeros(fs.Fat(), 0)
  {
    hide Mirrored, Flush, SameBut, FatOf, Geometry.Valid;
    FatOnDisk(fs, 0);
    ghost var f := fs.Fat();
    nfree := 0;
    var clst := fs.g.nFatEnt;
    var sect := fs.g.fatBase;
    var i := 0;
    ghost var k := 0;
    while true
      invariant 0 < clst <= fs.g.nFatEnt && k == fs.g.nFatEnt - clst && fs.Valid() && fs.Eff() == old(fs.Eff())
      invariant i == Off(EntryByte(fs.g.kind, k))
      invariant sect == fs.g.fatBase + Sec(EntryByte(fs.g.kind, k)) + (if i == 0 then 0 else 1)
      invariant i > 0 ==> fs.winsect == sect - 1
      invariant nfree + Zeros(f, k) == Zeros(f, 0)
      decreases clst
    {
      hide EntryByte, Sec, Off;
      NextEntry(fs.g.kind, k);
      EntryInFat(fs.g, k);
      FatOnDisk(fs, Sec(EntryByte(fs.g.kind, k)));
      if i == 0 {
        fs.MoveWindow(sect);
        sect := sect + 1;
      }
      var zero := EntryIsZero(fs, k, i);
      if zero {
        nfree := nfree + 1;
      }
      i := (i + if fs.g.kind == Fat16 then 2 else 4) % 512;
      clst := clst - 1;
      if clst == 0 {
        break;
      }
      k := k + 1;
    }
  }

  lemma FatOnDisk(fs: FatVolume, s: nat)
    requires fs.Valid()
    ensures fs.g.nFatEnt > 2
    ensures s < fs.g.fsize ==> fs.g.fatBase + s < |fs.disk| && !fs.g.InSecondFat(fs.g.fatBase + s)
  {
  }

  lemma EntryInFat(g: Geometry, c: nat)
    requires g.Valid() && g.kind != Fat12 && c < g.nFatEnt
    ensures EntryByte(g.kind, c + 1) <= 512 * g.fsize && Sec(EntryByte(g.kind, c)) < g.fsize
    ensures EntryByte(g.kind, c + 1) == EntryByte(g.kind, c) + (if g.kind == Fat16 then 2 else 4)
  {
  }

  /** Tests the entry at offset `i` of the window. */
  method EntryIsZero(fs: FatVolume, ghost c: nat, i: nat) returns (zero: bool)
    requires fs.Valid() && fs.g.kind != Fat12 && c < fs.g.nFatEnt
    requires i == Off(EntryByte(fs.g.kind, c)) && fs.winsect == fs.g.fatBase + Sec(EntryByte(fs.g.kind, c))
    ensures zero <==> fs.Fat()[c] == 0
  {
    hide Mirrored, SameBut, Codec.Digits, Sec, Off, FatBytes;
    NextEntry(fs.g.kind, c);
    EntryInFat(fs.g, c);
    ghost var fb, p, w := FatBytes(fs.Eff(), fs.g), EntryByte(fs.g.kind, c), fs.win[..];
    FatVolume.SectorSlice(fs.Eff(), fs.g, p, if fs.g.kind == Fat16 then 2 else 4);
    if fs.g.kind == Fat16 {
      zero := LoadWord(fs.win[..], i) == 0;
      Codec.Get16(fb, c);
      FatVolume.SliceWord(fb, p);
      FatVolume.SliceWord(w, i);
    } else {
      zero := LoadDword(fs.win[..], i) % 0x1000_0000 == 0;
      Codec.Get32(fb, c);
      FatVolume.SliceDword(fb, p);
      FatVolume.SliceDword(w, i);
    }
  }

  /** The scan that counts free clusters, if one is needed, is not misled: on FAT12 no entry
      holds the value 1, else the two reserved entries are not zero. */
  ghost predicate Countable(fs: FatVolume)
    requires fs.Valid()
    reads fs, fs.win
  {
    || fs.freeClst <= fs.g.nFatEnt - 2
    || if fs.g.kind == Fat12 then NoOnes(fs.Fat()) else fs.Fat()[0] != 0 && fs.Fat()[1] != 0
  }

  /** f_getfree: the stored count if it is known, else a scan of the FAT. */
  method GetFree(fs: FatVolume) returns (res: FResult, nclst: nat)
    requires fs.Valid()
    modifies fs, fs.win
    ensures fs.Valid() && fs.Eff() == old(fs.Eff()) && Noted(fs)
    ensures old(fs.FreeOk()) ==> (res == Ok && nclst == FreeCount(fs.Fat()) <==> old(Countable(fs)))
    ensures old(fs.FreeOk() && Countable(fs)) ==> fs.freeClst == nclst && fs.FreeOk()
    ensures res == IntErr <==> old(!Countable(fs)) && fs.g.kind == Fat12
  {
    hide FatOf, Mirrored, Flush, SameBut;
    if fs.freeClst <= fs.g.nFatEnt - 2 {
      return Ok, fs.freeClst;
    }
    if fs.g.kind == Fat12 {
      res, nclst := Scan12(fs);
    } else {
      res := Ok;
      nclst := ScanRaw(fs);
    }
    fs.freeClst := nclst;
    fs.fsiDirty := true;
    ghost var f := fs.Fat();
    assert Zeros(f, 0) == (if f[0] == 0 then 1 else 0) + (if f[1] == 0 then 1 else 0) + Zeros(f, 2);
  }

  lemma {:induction false} CountFreed(f: Table, c: nat)
    requires InRange(f, c) && f[c] != 0
    ensures FreeCount(f[c := 0]) == FreeCount(f) + 1 && FreeCount(f) < |f| - 2
  {
    ZerosUpdate(f, 2, c, 0);
    ZerosBound(f, 2);
  }

  lemma {:induction false} KeepCount(f: Table, c: nat, v: nat)
    requires InRange(f, c) && v != 0
    ensures f[c] != 0 ==> FreeCount(f[c := v]) == FreeCount(f)
  {
    ZerosUpdate(f, 2, c, v);
  }
}
