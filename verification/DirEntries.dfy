/** Entries of directory tables: dir_register writes a name as a run of long-name entries
    and a short one, dir_read finds it again. */
module DirEntries {
  import opened Bytes
  import opened Layout
  import opened FatTable
  import opened Volume
  import opened Clusters
  import opened FileData
  import opened Directory
  import opened LongName

  /** Entry number `j` of the table. */
  ghost function EntryAt(g: Geometry, f: Table, e: Disk, sclust: nat, j: nat): Entry
    requires g.csize > 0
  {
    var s := PlaceOf(g, f, sclust, SZDIRE * j).sect;
    EntryFits(j);
    if s < |e| then e[s][Off(SZDIRE * j)..Off(SZDIRE * j) + SZDIRE] else seq(32, _ => 0)
  }

  lemma EntryFits(j: nat)
    ensures Off(SZDIRE * j) + SZDIRE <= 512
    ensures Off(SZDIRE * j) % SZDIRE == 0
  {
    assert j == 16 * (j / 16) + j % 16;
    assert SZDIRE * j == 512 * (j / 16) + 32 * (j % 16);
    assert Off(SZDIRE * j) == 32 * (j % 16);
  }

  /** The table is static or an intact chain. */
  ghost predicate Intact(g: Geometry, f: Table, sclust: nat) {
    TableStart(g, sclust) == 0 || HasChain(f, TableStart(g, sclust))
  }

  lemma {:induction false} WalkChain(f: Table, c: nat, s: seq<nat>, m: nat)
    requires IsChain(f, c, s)
    ensures Walk(f, c, m) == if m < |s| then s[m] else 0
  {
    if m > 0 {
      WalkChain(f, c, s, m - 1);
      if m < |s| {
        assert f[s[m - 1]] == s[m];
      }
    }
  }

  /** Where the entries of a table lie: sixteen to a sector, in the static root directory or one
      sector after the other in the clusters of the chain, which on FAT32 that of the root
      directory is too. */
  lemma {:induction false} EntryPlace(g: Geometry, f: Table, sclust: nat, k: nat)
    requires g.Valid() && |f| == g.nFatEnt
    ensures Off(32 * k) == 32 * (k % 16)
    ensures sclust == 0 && g.kind != Fat32 ==>
      PlaceOf(g, f, sclust, 32 * k).sect == if k < g.nRootDir then g.dirBase + k / 16 else 0
    ensures sclust != 0 || (g.kind == Fat32 && g.dirBase != 0) ==>
      forall s: seq<nat> :: IsChain(f, if sclust == 0 then g.dirBase else sclust, s) ==>
        PlaceOf(g, f, sclust, 32 * k).sect ==
          if k / 16 / g.csize < |s| then g.ClusterSector(s[k / 16 / g.csize]) + k / 16 % g.csize else 0
  {
    hide Walk, Geometry.Valid, Geometry.ClusterSector, IsChain;
    Bases(g);
    EntryFits(k);
    SixteenPer(k);
    if sclust != 0 || (g.kind == Fat32 && g.dirBase != 0) {
      var st := if sclust == 0 then g.dirBase else sclust;
      forall s: seq<nat> | IsChain(f, st, s)
        ensures PlaceOf(g, f, sclust, 32 * k).sect ==
          if k / 16 / g.csize < |s| then g.ClusterSector(s[k / 16 / g.csize]) + k / 16 % g.csize else 0
      {
        WalkChain(f, st, s, k / 16 / g.csize);
        ChainClusters(g, f, st, s);
      }
    }
  }

  /** Entry `k` may be asked for if the table has it and its offset is below 2 MiB; it is free if
      its first byte is 0 or 0xE5. */
  lemma EntryThere(g: Geometry, f: Table, e: Disk, sclust: nat, k: nat)
    requires g.csize > 0
    ensures Reachable(g, f, sclust, 32 * k) <==> k < 0x1_0000 && PlaceOf(g, f, sclust, 32 * k).sect != 0
    ensures var s := PlaceOf(g, f, sclust, 32 * k).sect;
      0 < s < |e| ==> (FreeAt(g, f, e, sclust, k) <==> EntryAt(g, f, e, sclust, k)[0] in {0, 0xE5})
  {
    hide PlaceOf;
    EntryFits(k);
  }

  lemma SixteenPer(k: nat)
    ensures 32 * k / 512 == k / 16 && 32 * k / SZDIRE == k && 32 * k % 512 == 32 * (k % 16)
  {
    assert 32 * k == 512 * (k / 16) + 32 * (k % 16);
  }

  lemma ChainClusters(g: Geometry, f: Table, c: nat, s: seq<nat>)
    requires |f| == g.nFatEnt && IsChain(f, c, s)
    ensures forall i :: 0 <= i < |s| ==> g.ValidCluster(s[i])
  {
  }

  /** No two entries of an intact table share a byte. */
  lemma {:induction false} SlotsApart(g: Geometry, f: Table, sclust: nat, i: nat, j: nat)
    requires g.Valid() && |f| == g.nFatEnt && Intact(g, f, sclust) && i != j
    requires PlaceOf(g, f, sclust, SZDIRE * i).sect != 0 && PlaceOf(g, f, sclust, SZDIRE * j).sect != 0
    ensures PlaceOf(g, f, sclust, SZDIRE * i).sect == PlaceOf(g, f, sclust, SZDIRE * j).sect ==>
      Off(SZDIRE * i) + SZDIRE <= Off(SZDIRE * j) || Off(SZDIRE * j) + SZDIRE <= Off(SZDIRE * i)
  {
    hide Walk, Geometry.Valid, Geometry.DataEnd, Geometry.ClusterSector, Sec, Off, ClusterIndex, SectorInCluster,
      IsChain;
    var p, q := SZDIRE * i, SZDIRE * j;
    Bases(g);
    var st := TableStart(g, sclust);
    if Sec(p) == Sec(q) {
      OffsetsDiffer(i, j);
    } else if st != 0 {
      var s :| IsChain(f, st, s);
      var a, b := ClusterIndex(g, p), ClusterIndex(g, q);
      WalkChain(f, st, s, a);
      WalkChain(f, st, s, b);
      ClusterPlaced(g, Walk(f, st, a));
      ClusterPlaced(g, Walk(f, st, b));
      SectorSplit(g, p);
      SectorSplit(g, q);
      if a < b {
        ChainDistinct(f, st, s, a, b);
        TwoClusters(g, s[a], s[b], SectorInCluster(g, p), SectorInCluster(g, q));
      } else if b < a {
        ChainDistinct(f, st, s, b, a);
        TwoClusters(g, s[b], s[a], SectorInCluster(g, q), SectorInCluster(g, p));
      }
    }
  }

  lemma OffsetsDiffer(i: nat, j: nat)
    requires i != j && Sec(SZDIRE * i) == Sec(SZDIRE * j)
    ensures Off(SZDIRE * i) + SZDIRE <= Off(SZDIRE * j) || Off(SZDIRE * j) + SZDIRE <= Off(SZDIRE * i)
  {
    EntryFits(i);
    EntryFits(j);
  }

  lemma SectorSplit(g: Geometry, p: nat)
    requires g.csize > 0
    ensures Sec(p) == ClusterIndex(g, p) * g.csize + SectorInCluster(g, p)
  {
  }

  lemma TwoClusters(g: Geometry, c: nat, d: nat, x: nat, y: nat)
    requires g.ValidCluster(c) && g.ValidCluster(d) && c != d && x < g.csize && y < g.csize
    ensures g.ClusterSector(c) + x != g.ClusterSector(d) + y
  {
    if c < d {
      ClustersApart(g, c, d);
    } else {
      ClustersApart(g, d, c);
    }
  }

  /** Disk `e'` is `e` with new contents for entry `k`. */
  ghost predicate Written(g: Geometry, f: Table, e: Disk, e': Disk, sclust: nat, k: nat, w: Entry)
    requires g.csize > 0
  {
    var s := PlaceOf(g, f, sclust, SZDIRE * k).sect;
    EntryFits(k);
    0 < s < |e| && e' == e[s := Patch(e[s], Off(SZDIRE * k), w)]
  }

  /** Writing one entry of an intact table sets that entry and leaves the others. */
  lemma {:induction false} WrittenEntries(g: Geometry, f: Table, e: Disk, e': Disk, sclust: nat, k: nat, w: Entry,
      j: nat)
    requires g.Valid() && |f| == g.nFatEnt && Intact(g, f, sclust) && Written(g, f, e, e', sclust, k, w)
    requires PlaceOf(g, f, sclust, SZDIRE * j).sect != 0
    ensures EntryAt(g, f, e', sclust, j) == if j == k then w else EntryAt(g, f, e, sclust, j)
  {
    hide PlaceOf, Intact, Off, Geometry.Valid;
    Bases(g);
    EntryFits(j);
    EntryFits(k);
    if j != k {
      SlotsApart(g, f, sclust, j, k);
    }
    var s := PlaceOf(g, f, sclust, SZDIRE * j).sect;
    if s < |e| {
      var a, b := EntryAt(g, f, e', sclust, j), EntryAt(g, f, e, sclust, j);
      forall i | 0 <= i < 32 ensures a[i] == if j == k then w[i] else b[i] {
        assert e'[s][Off(SZDIRE * j) + i] == if j == k then w[i] else e[s][Off(SZDIRE * j) + i];
      }
    }
  }

  /** Sector `s` holds one of the entries `lo` to `hi` - 1. */
  ghost predicate InRun(g: Geometry, f: Table, sclust: nat, lo: nat, hi: nat, s: nat)
    requires g.csize > 0
  {
    exists j :: lo <= j < hi && PlaceOf(g, f, sclust, SZDIRE * j).sect == s
  }

  /** From disk `e1` to `e` at most the entries `lo` to `hi` - 1 were rewritten. */
  ghost predicate Rewritten(g: Geometry, f: Table, e1: Disk, e: Disk, sclust: nat, lo: nat, hi: nat)
    requires g.csize > 0
  {
    && |e| == |e1|
    && (forall s :: 0 <= s < |e| ==> e[s] == e1[s] || InRun(g, f, sclust, lo, hi, s))
    && (Intact(g, f, sclust) ==> forall j: nat :: !(lo <= j < hi) && PlaceOf(g, f, sclust, SZDIRE * j).sect != 0 ==>
          EntryAt(g, f, e, sclust, j) == EntryAt(g, f, e1, sclust, j))
  }

  lemma {:induction false} RewrittenMore(g: Geometry, f: Table, e1: Disk, e: Disk, e': Disk, sclust: nat, lo: nat,
      k: nat, w: Entry)
    requires g.Valid() && |f| == g.nFatEnt && lo <= k
    requires Rewritten(g, f, e1, e, sclust, lo, k) && Written(g, f, e, e', sclust, k, w)
    ensures Rewritten(g, f, e1, e', sclust, lo, k + 1)
  {
    hide PlaceOf, Intact, Off, Geometry.Valid, EntryAt;
    Bases(g);
    forall s | 0 <= s < |e| ensures e'[s] == e1[s] || InRun(g, f, sclust, lo, k + 1, s) {
      if InRun(g, f, sclust, lo, k, s) {
        var j :| lo <= j < k && PlaceOf(g, f, sclust, SZDIRE * j).sect == s;
        assert InRun(g, f, sclust, lo, k + 1, s);
      }
      assert s == PlaceOf(g, f, sclust, SZDIRE * k).sect ==> InRun(g, f, sclust, lo, k + 1, s);
    }
    if Intact(g, f, sclust) {
      forall j: nat | !(lo <= j < k + 1) && PlaceOf(g, f, sclust, SZDIRE * j).sect != 0
        ensures EntryAt(g, f, e', sclust, j) == EntryAt(g, f, e1, sclust, j)
      {
        WrittenEntries(g, f, e, e', sclust, k, w, j);
      }
    }
  }

  /** Entry `lo` + `j` holds part `cnt` - `j` of the name. */
  ghost predicate PartAt(g: Geometry, f: Table, e: Disk, sclust: nat, lo: nat, cnt: nat, j: nat, name: seq<word>,
      sum: byte)
    requires g.csize > 0 && j < cnt < 256
  {
    IsPart(EntryAt(g, f, e, sclust, lo + j), name, cnt - j, sum)
  }

  /** The first `d` of the `cnt` entries from `lo` on hold the parts `cnt`, `cnt` - 1, ... of the name. */
  ghost predicate Parts(g: Geometry, f: Table, e: Disk, sclust: nat, lo: nat, cnt: nat, d: nat, name: seq<word>,
      sum: byte)
    requires g.csize > 0
  {
    d <= cnt < 256 && forall j :: 0 <= j < d ==> PartAt(g, f, e, sclust, lo, cnt, j, name, sum)
  }

  lemma {:induction false} PartsMore(g: Geometry, f: Table, e: Disk, e': Disk, sclust: nat, lo: nat, cnt: nat, d: nat,
      name: seq<word>, sum: byte, w: Entry)
    requires g.Valid() && |f| == g.nFatEnt && Intact(g, f, sclust) && d < cnt
    requires forall j :: lo <= j < lo + cnt ==> Reachable(g, f, sclust, SZDIRE * j)
    requires Parts(g, f, e, sclust, lo, cnt, d, name, sum) && Written(g, f, e, e', sclust, lo + d, w)
    requires IsPart(w, name, cnt - d, sum)
    ensures Parts(g, f, e', sclust, lo, cnt, d + 1, name, sum)
  {
    hide PlaceOf, Intact, Off, Geometry.Valid, EntryAt, IsPart;
    Bases(g);
    forall j | 0 <= j < d + 1 ensures PartAt(g, f, e', sclust, lo, cnt, j, name, sum) {
      assert j < d ==> PartAt(g, f, e, sclust, lo, cnt, j, name, sum);
      assert Reachable(g, f, sclust, SZDIRE * (lo + j));
      WrittenEntries(g, f, e, e', sclust, lo + d, w, lo + j);
    }
  }

  /** The parts stay when a later entry is written. */
  lemma {:induction false} PartsStay(g: Geometry, f: Table, e: Disk, e': Disk, sclust: nat, lo: nat, cnt: nat,
      name: seq<word>, sum: byte, w: Entry)
    requires g.Valid() && |f| == g.nFatEnt && Intact(g, f, sclust)
    requires forall j :: lo <= j < lo + cnt ==> Reachable(g, f, sclust, SZDIRE * j)
    requires Parts(g, f, e, sclust, lo, cnt, cnt, name, sum) && Written(g, f, e, e', sclust, lo + cnt, w)
    ensures Parts(g, f, e', sclust, lo, cnt, cnt, name, sum)
  {
    hide PlaceOf, Intact, Off, Geometry.Valid, EntryAt, IsPart;
    Bases(g);
    forall j | 0 <= j < cnt ensures PartAt(g, f, e', sclust, lo, cnt, j, name, sum) {
      assert PartAt(g, f, e, sclust, lo, cnt, j, name, sum);
      assert Reachable(g, f, sclust, SZDIRE * (lo + j));
      WrittenEntries(g, f, e, e', sclust, lo + cnt, w, lo + j);
    }
  }

  /** A window over a sector outside the FAT, changed: what the disk will be. */
  lemma PokeEff(d: Disk, g: Geometry, s: nat, w: Sector, dirty: bool, w': Sector)
    requires s < |d| && g.FatEnd() <= |d| && !g.InFirstFat(s)
    ensures Flush(d, g, s, w') == (if dirty then Flush(d, g, s, w) else d)[s := w']
  {
  }

  /** One entry of a directory, in the window, gets new contents. */
  twostate lemma Poked(dp: Dir)
    requires old(dp.Valid()) && old(dp.sect) != 0 && old(dp.fs.winsect == dp.sect
      && dp.fs.win[..] == dp.fs.Eff()[dp.fs.winsect])
    requires unchanged(dp) && unchanged(dp.fs`disk, dp.fs`winsect, dp.fs`freeClst) && dp.fs.wflag
    requires forall i :: 0 <= i < 512 && !(dp.dir <= i < dp.dir + SZDIRE) ==> dp.fs.win[i] == old(dp.fs.win[i])
    ensures dp.Valid() && dp.fs.Fat() == old(dp.fs.Fat()) && (old(Healthy(dp.fs)) ==> Healthy(dp.fs))
    ensures dp.dir + SZDIRE <= 512
    ensures Written(dp.fs.g, dp.fs.Fat(), old(dp.fs.Eff()), dp.fs.Eff(), dp.sclust, dp.dptr / SZDIRE,
      dp.fs.win[dp.dir..dp.dir + SZDIRE])
  {
    hide FatOf, Flush, Geometry.DataEnd, Geometry.ClusterSector, Mirrored, Forest, PlaceOf, Off, Zeros;
    var fs := dp.fs;
    var k := dp.dptr / SZDIRE;
    assert dp.dptr == SZDIRE * k;
    EntryFits(k);
    PlaceBounds(fs.g, old(fs.Fat()), dp.sclust, dp.dptr);
    PokeEff(fs.disk, fs.g, dp.sect, old(fs.win[..]), old(fs.wflag), fs.win[..]);
    SameFat(old(fs.Eff()), fs.Eff(), fs.g);
    assert fs.win[..] == Patch(old(fs.win[..]), dp.dir, fs.win[dp.dir..dp.dir + SZDIRE]);
  }

  /** put_lfn into the entry under the cursor. */
  method PutPart(dp: Dir, lfnbuf: array<word>, ord: byte, sum: byte, ghost name: seq<word>) returns (ghost w: Entry)
    requires dp.Valid() && dp.sect != 0 && Holds(lfnbuf[..], name) && ord > 0 && (ord - 1) * 13 <= |name|
    modifies dp.fs`disk, dp.fs`wflag, dp.fs`winsect, dp.fs.win
    ensures dp.Valid() && dp.fs.Fat() == old(dp.fs.Fat()) && (old(Healthy(dp.fs)) ==> Healthy(dp.fs))
    ensures Written(dp.fs.g, dp.fs.Fat(), old(dp.fs.Eff()), dp.fs.Eff(), dp.sclust, dp.dptr / SZDIRE, w)
      && IsPart(w, name, ord, sum)
  {
    hide FatOf, Flush, Geometry.DataEnd, Geometry.ClusterSector, Mirrored, Forest, PlaceOf, Off, Zeros, IsPart, Written;
    Ready(dp);
    dp.fs.MoveWindow(dp.sect);
    label here:
    PutLfn(lfnbuf, dp.fs.win, dp.dir, ord, sum, name);
    dp.fs.wflag := true;
    Poked@here(dp);
    w := dp.fs.win[dp.dir..dp.dir + SZDIRE];
  }

  lemma Ready(dp: Dir)
    requires dp.Valid() && dp.sect != 0
    ensures dp.sect < |dp.fs.disk| && !dp.fs.g.InSecondFat(dp.sect) && dp.dir + SZDIRE <= 512
    ensures dp.dptr % SZDIRE == 0 && dp.dptr < MAX_DIR
  {
    hide FatOf, Flush, Geometry.DataEnd, Geometry.ClusterSector, PlaceOf, Off;
    EntryFits(dp.dptr / SZDIRE);
    PlaceBounds(dp.fs.g, dp.fs.Fat(), dp.sclust, dp.dptr);
  }

  /** The short entry of a name: 11 name bytes and the case flags, the rest cleared. */
  function ShortEntry(fn: seq<byte>): Entry
    requires |fn| == 12
  {
    Patch(Patch(seq(32, _ => 0), 0, fn[..11]), 12, [fn[11] / 8 % 4 * 8])
  }

  /** The bytes of a short entry: the name, the two flags for lower case in body and extension. */
  lemma ShortBytes(fn: seq<byte>)
    requires |fn| == 12
    ensures ShortEntry(fn)[..11] == fn[..11]
    ensures ShortEntry(fn)[12] == (fn[11] as int / 8) % 2 * 8 + (fn[11] as int / 16) % 2 * 16
    ensures forall i :: 11 <= i < 32 && i != 12 ==> ShortEntry(fn)[i] == 0
  {
    assert forall i :: 0 <= i < 11 ==> ShortEntry(fn)[i] == fn[i];
  }

  /** The short entry goes into the entry under the cursor. */
  method PutShort(dp: Dir, fn: seq<byte>) returns (ghost w: Entry)
    requires dp.Valid() && dp.sect != 0 && |fn| == 12
    modifies dp.fs`disk, dp.fs`wflag, dp.fs`winsect, dp.fs.win
    ensures dp.Valid() && dp.fs.Fat() == old(dp.fs.Fat()) && (old(Healthy(dp.fs)) ==> Healthy(dp.fs))
    ensures Written(dp.fs.g, dp.fs.Fat(), old(dp.fs.Eff()), dp.fs.Eff(), dp.sclust, dp.dptr / SZDIRE, w)
      && w == ShortEntry(fn)
  {
    hide FatOf, Flush, Geometry.DataEnd, Geometry.ClusterSector, Mirrored, Forest, PlaceOf, Off, Zeros, Written;
    Ready(dp);
    dp.fs.MoveWindow(dp.sect);
    label here:
    FillShort(dp.fs.win, dp.dir, fn);
    dp.fs.wflag := true;
    Poked@here(dp);
    w := dp.fs.win[dp.dir..dp.dir + SZDIRE];
  }

  method FillShort(dir: array<byte>, o: nat, fn: seq<byte>)
    requires o + 32 <= dir.Length && |fn| == 12
    modifies dir
    ensures dir[o..o + 32] == ShortEntry(fn)
    ensures forall j :: 0 <= j < dir.Length && !(o <= j < o + 32) ==> dir[j] == old(dir[j])
  {
    CopyInto(dir, o, seq(32, _ => 0));
    CopyInto(dir, o, fn[..11]);
    dir[o + 12] := fn[11] / 8 % 4 * 8;
    assert forall i :: 0 <= i < 32 ==> dir[o + i] == ShortEntry(fn)[i];
  }

  /** The loop of dir_register over the long-name entries, last part first. */
  method PutParts(dp: Dir, lfnbuf: array<word>, nent: nat, sum: byte, ghost name: seq<word>, ghost lo: nat)
      returns (res: FResult)
    requires dp.Valid() && dp.sect != 0 && dp.dptr == SZDIRE * lo && Holds(lfnbuf[..], name)
    requires 0 < nent < 256 && (nent - 1) * 13 <= |name|
    requires forall j :: lo <= j <= lo + nent ==> Reachable(dp.fs.g, dp.fs.Fat(), dp.sclust, SZDIRE * j)
    modifies dp, dp.fs, dp.fs.win
    ensures res == Ok && dp.Valid() && dp.fs.Fat() == old(dp.fs.Fat()) && dp.sect != 0
      && dp.dptr == SZDIRE * (lo + nent)
    ensures old(Healthy(dp.fs)) ==> Healthy(dp.fs)
    ensures Rewritten(dp.fs.g, dp.fs.Fat(), old(dp.fs.Eff()), dp.fs.Eff(), dp.sclust, lo, lo + nent)
    ensures Intact(dp.fs.g, dp.fs.Fat(), dp.sclust) ==> Parts(dp.fs.g, dp.fs.Fat(), dp.fs.Eff(), dp.sclust, lo, nent,
      nent, name, sum)
  {
    hide FatOf, Flush, Geometry.DataEnd, Geometry.ClusterSector, Geometry.Valid, Mirrored, Forest, PlaceOf, Off,
      Zeros, Written, Healthy, Rewritten, Parts, Intact, IsPart, NextCursor;
    ghost var f, e1 := dp.fs.Fat(), dp.fs.Eff();
    Bases(dp.fs.g);
    RewrittenNone(dp.fs.g, f, e1, dp.sclust, lo, nent, name, sum);
    var n := nent;
    while true
      invariant 0 < n <= nent && dp.Valid() && dp.fs.Valid() && dp.sect != 0 && dp.fs.Fat() == f
        && dp.dptr == SZDIRE * (lo + nent - n)
      invariant old(Healthy(dp.fs)) ==> Healthy(dp.fs)
      invariant Rewritten(dp.fs.g, f, e1, dp.fs.Eff(), dp.sclust, lo, lo + nent - n)
      invariant Intact(dp.fs.g, f, dp.sclust) ==> Parts(dp.fs.g, f, dp.fs.Eff(), dp.sclust, lo, nent, nent - n, name,
        sum)
      decreases n
    {
      ghost var k, e := lo + nent - n, dp.fs.Eff();
      PartStart(n, nent, |name|);
      ghost var w := PutPart(dp, lfnbuf, n, sum, name);
      RewrittenMore(dp.fs.g, f, e1, e, dp.fs.Eff(), dp.sclust, lo, k, w);
      if Intact(dp.fs.g, f, dp.sclust) {
        PartsMore(dp.fs.g, f, e, dp.fs.Eff(), dp.sclust, lo, nent, nent - n, name, sum, w);
      }
      NextThere(dp.fs.g, f, dp.sclust, k);
      res := dp.Next(false);
      n := n - 1;
      if n == 0 {
        break;
      }
    }
  }

  lemma PartStart(n: nat, m: nat, l: nat)
    requires 0 < n <= m && (m - 1) * 13 <= l
    ensures (n - 1) * 13 <= l
  {
  }

  lemma RewrittenNone(g: Geometry, f: Table, e: Disk, sclust: nat, lo: nat, cnt: nat, name: seq<word>, sum: byte)
    requires g.csize > 0 && cnt < 256
    ensures Rewritten(g, f, e, e, sclust, lo, lo) && Parts(g, f, e, sclust, lo, cnt, 0, name, sum)
  {
  }

  lemma NextThere(g: Geometry, f: Table, sclust: nat, k: nat)
    requires g.Valid() && |f| == g.nFatEnt && Reachable(g, f, sclust, SZDIRE * k)
      && Reachable(g, f, sclust, SZDIRE * (k + 1))
    ensures NextCursor(g, f, CursorAt(g, f, sclust, SZDIRE * k)) == (Ok, CursorAt(g, f, sclust, SZDIRE * (k + 1)))
  {
    hide PlaceOf, NextCursor;
    assert SZDIRE * (k + 1) == SZDIRE * k + SZDIRE;
    PlaceStep(g, f, sclust, SZDIRE * k);
  }

  /** No run of `n` free entries ends before entry `last`. */
  ghost predicate FirstRun(g: Geometry, f: Table, e: Disk, sclust: nat, last: nat, n: nat)
    requires g.csize > 0
  {
    forall i :: 0 <= i < last ==> !RunEnds(g, f, e, sclust, i, n)
  }

  /** What dir_register leaves when it succeeds: `cnt` long-name entries before the short
      entry number `last`, in a run that dir_alloc found; disk `e1` is what it left. */
  ghost predicate Registered(g: Geometry, f: Table, e1: Disk, e: Disk, sclust: nat, last: nat, cnt: nat,
      name: seq<word>, fn: seq<byte>)
    requires g.csize > 0 && |fn| == 12
  {
    && cnt <= last
    && RunEnds(g, f, e1, sclust, last, cnt + 1) && FirstRun(g, f, e1, sclust, last, cnt + 1)
    && RunThere(g, f, sclust, last - cnt, last)
    && Rewritten(g, f, e1, e, sclust, last - cnt, last + 1)
    && (Intact(g, f, sclust) ==>
          && Parts(g, f, e, sclust, last - cnt, cnt, cnt, name, SumFrom(0, fn[..11]))
          && EntryAt(g, f, e, sclust, last) == ShortEntry(fn))
  }

  /** Number of units in the buffer before the 0. */
  method NameLength(lfnbuf: array<word>, ghost name: seq<word>) returns (nlen: nat)
    requires Holds(lfnbuf[..], name)
    ensures nlen == |name|
  {
    nlen := 0;
    HeldUnit(lfnbuf[..], name, 0);
    while lfnbuf[nlen] != 0
      invariant nlen <= |name| < lfnbuf.Length && (lfnbuf[nlen] == 0 <==> nlen == |name|)
      decreases |name| - nlen
    {
      nlen := nlen + 1;
      HeldUnit(lfnbuf[..], name, nlen);
    }
  }

  /** Number of long-name entries: none unless the flags of the short name ask for them. */
  function LongCount(nlen: nat, flags: byte): nat {
    if flags / 2 % 2 == 1 then (nlen + 12) / 13 else 0
  }

  /** All entries from `lo` to `hi` exist. */
  ghost predicate RunThere(g: Geometry, f: Table, sclust: nat, lo: nat, hi: nat)
    requires g.csize > 0
  {
    forall j :: lo <= j <= hi ==> Reachable(g, f, sclust, SZDIRE * j)
  }

  /** The long-name entries of dir_register, in front of entry `last`. */
  method PutLong(dp: Dir, lfnbuf: array<word>, fn: seq<byte>, nent: nat, ghost name: seq<word>, ghost last: nat)
      returns (res: FResult)
    requires dp.Valid() && dp.sect != 0 && dp.dptr == SZDIRE * last && Holds(lfnbuf[..], name) && |fn| == 12
    requires nent <= last && nent < 256 && (nent - 1) * 13 <= |name|
      && RunThere(dp.fs.g, dp.fs.Fat(), dp.sclust, last - nent, last)
    modifies dp, dp.fs, dp.fs.win
    ensures res == Ok && dp.Valid() && dp.fs.Fat() == old(dp.fs.Fat()) && dp.sect != 0 && dp.dptr == SZDIRE * last
    ensures old(Healthy(dp.fs)) ==> Healthy(dp.fs)
    ensures Rewritten(dp.fs.g, dp.fs.Fat(), old(dp.fs.Eff()), dp.fs.Eff(), dp.sclust, last - nent, last)
    ensures Intact(dp.fs.g, dp.fs.Fat(), dp.sclust) ==>
      Parts(dp.fs.g, dp.fs.Fat(), dp.fs.Eff(), dp.sclust, last - nent, nent, nent, name, SumFrom(0, fn[..11]))
  {
    hide FatOf, Flush, Geometry.DataEnd, Geometry.ClusterSector, Geometry.Valid, Mirrored, Forest, PlaceOf, Off,
      Zeros, Healthy, Rewritten, Parts, Intact, IsPart, Reachable, CursorAt;
    ghost var f := dp.fs.Fat();
    Bases(dp.fs.g);
    RewrittenNone(dp.fs.g, f, dp.fs.Eff(), dp.sclust, last - nent, nent, name, SumFrom(0, fn[..11]));
    res := Ok;
    if nent != 0 {
      assert dp.dptr - nent * SZDIRE == SZDIRE * (last - nent);
      CursorThere(dp.fs.g, f, dp.sclust, SZDIRE * (last - nent));
      assert Reachable(dp.fs.g, f, dp.sclust, SZDIRE * (last - nent));
      res := dp.Seek(dp.dptr - nent * SZDIRE);
      var sum := SumSfn(fn);
      res := PutParts(dp, lfnbuf, nent, sum, name, last - nent);
    }
  }

  /** dir_register, for a short name that needs no number. */
  method Register(dp: Dir, lfnbuf: array<word>, fn: seq<byte>, ghost name: seq<word>)
    returns (res: FResult, ghost last: nat, ghost cnt: nat, ghost e1: Disk)
    requires dp.fs.Valid() && dp.fs.g.DataEnd() <= |dp.fs.disk|
    requires Holds(lfnbuf[..], name) && |name| <= MAX_LFN && |fn| == 12
    modifies dp, dp.fs, dp.fs.win
    ensures dp.fs.Valid() && (old(Healthy(dp.fs)) ==> Healthy(dp.fs)) && cnt == LongCount(|name|, fn[11])
    ensures Lengthened(dp.fs.g, old(dp.fs.Fat()), old(dp.fs.Eff()), dp.fs.Fat(), e1)
    ensures old(Closed(dp.fs.g, dp.fs.Fat(), dp.fs.Eff(), dp.sclust)) ==> Closed(dp.fs.g, dp.fs.Fat(), e1, dp.sclust)
    ensures res == Ok ==> Registered(dp.fs.g, dp.fs.Fat(), e1, dp.fs.Eff(), dp.sclust, last, cnt, name, fn)
    ensures res != Ok ==> e1 == dp.fs.Eff() && (res == Denied || res == IntErr)
    ensures !Reachable(dp.fs.g, old(dp.fs.Fat()), dp.sclust, 0) ==> res == IntErr && dp.fs.Eff() == old(dp.fs.Eff())
    ensures res == Denied ==>
      && !Reachable(dp.fs.g, dp.fs.Fat(), dp.sclust, SZDIRE * (last + 1))
      && FirstRun(dp.fs.g, dp.fs.Fat(), e1, dp.sclust, last + 1, cnt + 1)
      && (old(Healthy(dp.fs)) ==>
           FreeCount(dp.fs.Fat()) == 0 || TableStart(dp.fs.g, dp.sclust) == 0 || SZDIRE * (last + 1) >= MAX_DIR)
  {
    hide Closed, FreeCount, FatOf, Flush, Geometry.DataEnd, Geometry.ClusterSector, Geometry.Valid, Mirrored, Forest,
      PlaceOf, Off, Zeros, Healthy, Rewritten, Parts, Intact, Lengthened, RunEnds, Reachable, CursorAt, RunThere,
      Written, Registered;
    Bases(dp.fs.g);
    var nlen := NameLength(lfnbuf, name);
    var nent: nat := if fn[11] / 2 % 2 == 1 then (nlen + 12) / 13 + 1 else 1;
    cnt := nent - 1;
    res, last := dp.Alloc(nent);
    e1 := dp.fs.Eff();
    if res == Ok {
      nent := nent - 1;
      ghost var f := dp.fs.Fat();
      CursorThere(dp.fs.g, f, dp.sclust, SZDIRE * last);
      RunReachable(dp.fs.g, f, e1, dp.sclust, last, cnt + 1);
      res := PutLong(dp, lfnbuf, fn, nent, name, last);
      ghost var e := dp.fs.Eff();
      ghost var w := PutShort(dp, fn);
      RegisteredAll(dp.fs.g, f, e1, e, dp.fs.Eff(), dp.sclust, last, cnt, name, fn, w);
    }
  }

  lemma {:induction false} RegisteredAll(g: Geometry, f: Table, e1: Disk, e: Disk, e': Disk, sclust: nat, last: nat,
      cnt: nat, name: seq<word>, fn: seq<byte>, w: Entry)
    requires g.Valid() && |f| == g.nFatEnt && |fn| == 12 && cnt <= last && cnt < 256
    requires RunEnds(g, f, e1, sclust, last, cnt + 1) && RunThere(g, f, sclust, last - cnt, last)
    requires FirstRun(g, f, e1, sclust, last, cnt + 1) && Rewritten(g, f, e1, e, sclust, last - cnt, last)
    requires Intact(g, f, sclust) ==> Parts(g, f, e, sclust, last - cnt, cnt, cnt, name, SumFrom(0, fn[..11]))
    requires Written(g, f, e, e', sclust, last, w) && w == ShortEntry(fn)
    ensures Registered(g, f, e1, e', sclust, last, cnt, name, fn)
  {
    hide PlaceOf, Off, Rewritten, Parts, Intact, RunEnds, Reachable, Written, EntryAt, ShortEntry;
    RewrittenMore(g, f, e1, e, e', sclust, last - cnt, last, w);
    if Intact(g, f, sclust) {
      WrittenThere(g, f, e, e', sclust, last, w);
      PartsStay(g, f, e, e', sclust, last - cnt, cnt, name, SumFrom(0, fn[..11]), w);
    }
  }

  lemma RunReachable(g: Geometry, f: Table, e: Disk, sclust: nat, i: nat, n: nat)
    requires g.csize > 0 && RunEnds(g, f, e, sclust, i, n) && SZDIRE * i < MAX_DIR
    ensures n <= i + 1 && RunThere(g, f, sclust, i + 1 - n, i)
  {
    hide PlaceOf, Off;
    forall j | i + 1 - n <= j <= i ensures Reachable(g, f, sclust, SZDIRE * j) {
      assert FreeAt(g, f, e, sclust, j);
    }
  }

  lemma CursorThere(g: Geometry, f: Table, sclust: nat, p: nat)
    requires g.csize > 0
    ensures CursorAt(g, f, sclust, p).dptr == p
    ensures Reachable(g, f, sclust, p) ==> CursorAt(g, f, sclust, p).sect != 0 && p < MAX_DIR
  {
  }

  lemma WrittenThere(g: Geometry, f: Table, e: Disk, e': Disk, sclust: nat, k: nat, w: Entry)
    requires g.Valid() && |f| == g.nFatEnt && Intact(g, f, sclust) && Written(g, f, e, e', sclust, k, w)
    ensures EntryAt(g, f, e', sclust, k) == w
  {
    WrittenEntries(g, f, e, e', sclust, k, w, k);
  }

  // ----- end marks -----

  lemma FreeIs(g: Geometry, f: Table, e: Disk, sclust: nat, j: nat)
    requires g.csize > 0
    ensures FreeAt(g, f, e, sclust, j) ==> FreeMark(EntryAt(g, f, e, sclust, j)[0])
    ensures EndAt(g, f, e, sclust, j) ==> FreeAt(g, f, e, sclust, j)
    ensures var s := PlaceOf(g, f, sclust, SZDIRE * j).sect;
      0 < s < |e| ==>
        && (FreeAt(g, f, e, sclust, j) <==> FreeMark(EntryAt(g, f, e, sclust, j)[0]))
        && (EndAt(g, f, e, sclust, j) <==> EntryAt(g, f, e, sclust, j)[0] == 0)
  {
    hide PlaceOf, Off;
    EntryFits(j);
  }

  /** The entry exists on the disk. */
  lemma ThereFree(g: Geometry, f: Table, e: Disk, sclust: nat, j: nat)
    requires g.Valid() && |f| == g.nFatEnt && g.DataEnd() <= |e| && Reachable(g, f, sclust, SZDIRE * j)
    ensures FreeAt(g, f, e, sclust, j) <==> FreeMark(EntryAt(g, f, e, sclust, j)[0])
    ensures EndAt(g, f, e, sclust, j) <==> EntryAt(g, f, e, sclust, j)[0] == 0
  {
    hide PlaceOf, Off, FreeAt, EndAt, EntryAt, Geometry.Valid, Geometry.DataEnd;
    Bases(g);
    PlaceBounds(g, f, sclust, SZDIRE * j);
    FreeIs(g, f, e, sclust, j);
  }

  /** An end mark starts a run of free entries as long as the table goes on. */
  lemma {:induction false} EndStartsRun(g: Geometry, f: Table, e: Disk, sclust: nat, i: nat, last: nat, n: nat)
    requires g.csize > 0 && Closed(g, f, e, sclust) && EndAt(g, f, e, sclust, i)
    requires 0 < n && i + n - 1 <= last && RunThere(g, f, sclust, i, last)
    ensures RunEnds(g, f, e, sclust, i + n - 1, n)
  {
    hide PlaceOf, Off, EndAt, FreeAt, Reachable;
    forall j: nat | i <= j <= i + n - 1 ensures FreeAt(g, f, e, sclust, j) {
      FreeIs(g, f, e, sclust, i);
      assert Reachable(g, f, sclust, SZDIRE * j);
    }
  }

  /** In front of the first run of free entries that is long enough no entry ends the table. */
  lemma {:induction false} NoEndBefore(g: Geometry, f: Table, e: Disk, sclust: nat, last: nat, n: nat, i: nat)
    requires g.csize > 0 && Closed(g, f, e, sclust) && 0 < n <= last + 1 && i < last + 1 - n
    requires FirstRun(g, f, e, sclust, last, n) && RunThere(g, f, sclust, i, last)
    ensures !EndAt(g, f, e, sclust, i)
  {
    if EndAt(g, f, e, sclust, i) {
      EndStartsRun(g, f, e, sclust, i, last, n);
    }
  }

  /** A short name that dir_register may be given. */
  predicate Named(fn: seq<byte>) {
    |fn| == 12 && fn[0] != 0 && fn[0] != DDEM
  }

  /** The entries of a registered object are not free. */
  lemma {:induction false} RegisteredUsed(g: Geometry, f: Table, e: Disk, sclust: nat, last: nat, cnt: nat,
      name: seq<word>, fn: seq<byte>, j: nat)
    requires g.csize > 0 && cnt <= last && cnt <= 20 && last - cnt <= j <= last && Named(fn)
    requires Parts(g, f, e, sclust, last - cnt, cnt, cnt, name, SumFrom(0, fn[..11]))
      && EntryAt(g, f, e, sclust, last) == ShortEntry(fn)
    ensures !FreeMark(EntryAt(g, f, e, sclust, j)[0])
  {
    hide PlaceOf, Off, EntryAt, IsPart;
    if j < last {
      var d := j - (last - cnt);
      assert PartAt(g, f, e, sclust, last - cnt, cnt, d, name, SumFrom(0, fn[..11]));
      PartFirst(EntryAt(g, f, e, sclust, j), name, cnt - d, SumFrom(0, fn[..11]));
    }
  }

  /** Registering keeps the end marks in place: none of them lies in front of what was
      registered, or, read together with `NoEndBefore`, of any entry in use. */
  lemma {:induction false} RegisteredClosed(g: Geometry, f: Table, e1: Disk, e: Disk, sclust: nat, last: nat, cnt: nat,
      name: seq<word>, fn: seq<byte>)
    requires g.Valid() && |f| == g.nFatEnt && Intact(g, f, sclust) && g.DataEnd() <= |e1| && cnt <= 20 && Named(fn)
    requires Registered(g, f, e1, e, sclust, last, cnt, name, fn) && Closed(g, f, e1, sclust)
    ensures Closed(g, f, e, sclust)
    ensures forall i: nat :: i < last - cnt ==> EntryAt(g, f, e, sclust, i)[0] != 0
  {
    hide PlaceOf, Off, Intact, EntryAt, Geometry.Valid, Geometry.DataEnd, EndAt, FreeAt, Reachable, Parts, ShortEntry,
      RunEnds;
    Bases(g);
    RunDown(g, f, sclust, last);
    forall i: nat | i <= last ensures !EndAt(g, f, e, sclust, i) && EntryAt(g, f, e, sclust, i)[0] != 0 {
      assert Reachable(g, f, sclust, SZDIRE * i);
      ThereFree(g, f, e, sclust, i);
      ThereFree(g, f, e1, sclust, i);
      if i < last - cnt {
        NoEndBefore(g, f, e1, sclust, last, cnt + 1, i);
        ReachableSect(g, f, sclust, i);
      } else {
        RegisteredUsed(g, f, e, sclust, last, cnt, name, fn, i);
      }
    }
    forall i: nat, j: nat | i < j && EndAt(g, f, e, sclust, i) && Reachable(g, f, sclust, SZDIRE * j)
      ensures FreeAt(g, f, e, sclust, j)
    {
      ReachableDown(g, f, sclust, i, j);
      assert Reachable(g, f, sclust, SZDIRE * i);
      ThereSame(g, f, e1, e, sclust, last - cnt, last + 1, i);
      ThereSame(g, f, e1, e, sclust, last - cnt, last + 1, j);
    }
  }

  lemma RunDown(g: Geometry, f: Table, sclust: nat, last: nat)
    requires g.Valid() && |f| == g.nFatEnt && Reachable(g, f, sclust, SZDIRE * last)
    ensures RunThere(g, f, sclust, 0, last)
  {
    ReachableDown(g, f, sclust, 0, last);
  }

  lemma ReachableSect(g: Geometry, f: Table, sclust: nat, j: nat)
    requires g.csize > 0 && Reachable(g, f, sclust, SZDIRE * j)
    ensures PlaceOf(g, f, sclust, SZDIRE * j).sect != 0
  {
  }

  /** An entry outside the rewritten ones keeps its mark. */
  lemma ThereSame(g: Geometry, f: Table, e1: Disk, e: Disk, sclust: nat, lo: nat, hi: nat, j: nat)
    requires g.Valid() && |f| == g.nFatEnt && Intact(g, f, sclust) && g.DataEnd() <= |e1|
    requires Rewritten(g, f, e1, e, sclust, lo, hi) && Reachable(g, f, sclust, SZDIRE * j)
    ensures |e| == |e1|
    ensures !(lo <= j < hi) ==>
      && (EndAt(g, f, e, sclust, j) <==> EndAt(g, f, e1, sclust, j))
        && (FreeAt(g, f, e, sclust, j) <==> FreeAt(g, f, e1, sclust, j))
  {
    hide PlaceOf, Off, Intact, EntryAt, Geometry.Valid, Geometry.DataEnd, EndAt, FreeAt, Reachable;
    Bases(g);
    ThereFree(g, f, e, sclust, j);
    ThereFree(g, f, e1, sclust, j);
    ReachableSect(g, f, sclust, j);
  }

  // ----- long names in the table -----

  /** An entry of a file or directory: used, and neither a volume label nor part of a long name. */
  predicate Short(e: Entry) {
    e[0] != 0 && e[0] != 0xE5 && e[11] / 8 % 2 == 0
  }

  /** A used entry with a part of a long name. */
  predicate Long(e: Entry) {
    e[0] != 0 && e[0] != 0xE5 && e[11] % 64 == 15
  }

  /** The number of the part, without the mark of the last one. */
  function Order(e: Entry): nat {
    if e[0] / 64 % 2 == 1 then e[0] - 64 else e[0]
  }

  /** What is asked of a part: that it matches a name, or that it can be taken up. */
  datatype Test = Sought(buf: seq<word>, up: word -> word) | Gathered {
    ghost predicate Fits(x: Entry) {
      match this
      case Sought(buf, up) => |buf| == MAX_LFN + 1 && Matches(buf, x, up)
      case Gathered => x[0] != 0x2E && Pickable(x)
    }
  }

  /** Entries `lo` to `k` - 1 are parts of one long name, counted down from the last one, and
      all of them pass the test. */
  ghost predicate Counting(g: Geometry, f: Table, e: Disk, sclust: nat, lo: nat, k: nat, t: Test)
    requires g.csize > 0
  {
    && lo < k && EntryAt(g, f, e, sclust, lo)[0] / 64 % 2 == 1
    && forall j :: lo <= j < k ==> CountsAt(g, f, e, sclust, lo, j, t)
  }

  ghost predicate CountsAt(g: Geometry, f: Table, e: Disk, sclust: nat, lo: nat, j: nat, t: Test)
    requires g.csize > 0
  {
    var d, x := EntryAt(g, f, e, sclust, lo), EntryAt(g, f, e, sclust, j);
    && Long(x) && t.Fits(x) && x[13] == d[13]
    && Order(x) + j - lo == Order(d) && (x[0] / 64 % 2 == 1 <==> j == lo)
  }

  /** A part that passes has a number. */
  lemma FitsOrder(t: Test, x: Entry)
    requires t.Fits(x)
    ensures 1 <= Order(x) < 192
  {
    hide Chars, Padded, LoadWord;
    assert Count(Chars(x)) > 0 by {
      CountSome(Chars(x));
    }
    assert t.Sought? ==> SameUnit(t.buf, x, 0, t.up);
  }

  lemma CountSome(c: seq<word>)
    requires c != []
    ensures Count(c) > 0
  {
  }

  /** Only what matched so far can be carried on by the next part. */
  lemma {:induction false} CountingBack(g: Geometry, f: Table, e: Disk, sclust: nat, lo: nat, k: nat, t: Test)
    requires g.csize > 0 && Counting(g, f, e, sclust, lo, k + 1, t)
    ensures lo <= k && CountsAt(g, f, e, sclust, lo, k, t) && (lo < k ==> Counting(g, f, e, sclust, lo, k, t))
  {
    hide CountsAt, EntryAt;
  }

  lemma {:induction false} CountingOn(g: Geometry, f: Table, e: Disk, sclust: nat, lo: nat, k: nat, t: Test)
    requires g.csize > 0 && lo <= k && (lo < k ==> Counting(g, f, e, sclust, lo, k, t))
    requires CountsAt(g, f, e, sclust, lo, k, t)
    ensures Counting(g, f, e, sclust, lo, k + 1, t)
  {
    hide EntryAt, Test.Fits;
  }

  lemma NotLastOrder(x: Entry)
    requires x[0] / 64 % 2 == 0
    ensures ClearLast(x[0]) == x[0] != 0xFF
  {
  }

  lemma CountsIs(g: Geometry, f: Table, e: Disk, sclust: nat, lo: nat, k: nat, t: Test)
    requires g.csize > 0 && CountsAt(g, f, e, sclust, lo, k, t)
    ensures var d, x := EntryAt(g, f, e, sclust, lo), EntryAt(g, f, e, sclust, k);
      && t.Fits(x) && x[13] == d[13] && Order(x) + k - lo == Order(d) && 1 <= Order(x) < 192
      && (x[0] / 64 % 2 == 1 <==> k == lo)
  {
    hide EntryAt, Test.Fits;
    FitsOrder(t, EntryAt(g, f, e, sclust, k));
  }

  lemma StartsAt(g: Geometry, f: Table, e: Disk, sclust: nat, k: nat, t: Test)
    requires g.csize > 0 && Long(EntryAt(g, f, e, sclust, k))
    requires EntryAt(g, f, e, sclust, k)[0] / 64 % 2 == 1 && t.Fits(EntryAt(g, f, e, sclust, k))
    ensures CountsAt(g, f, e, sclust, k, k, t)
  {
    hide EntryAt, Test.Fits;
  }

  lemma GoesOn(g: Geometry, f: Table, e: Disk, sclust: nat, lo: nat, k: nat, t: Test)
    requires g.csize > 0 && lo < k && Long(EntryAt(g, f, e, sclust, k))
    requires var d, x := EntryAt(g, f, e, sclust, lo), EntryAt(g, f, e, sclust, k);
      x[0] / 64 % 2 == 0 && t.Fits(x) && x[13] == d[13] && Order(x) + k - lo == Order(d)
    ensures CountsAt(g, f, e, sclust, lo, k, t)
  {
    hide EntryAt, Test.Fits;
  }

  /** The order, checksum and start that fit parts which begin with entry `lo`, which is `d`. */
  ghost predicate Known(d: Entry, lo: nat, k: nat, ord: byte, sum: byte, blk: nat) {
    lo < k <= lo + Order(d) && ord == Order(d) - (k - lo) < 0xFF && sum == d[13] && blk == SZDIRE * lo
  }

  /** The start of the parts is unique. */
  lemma {:induction false} OneStart(g: Geometry, f: Table, e: Disk, sclust: nat, lo: nat, lo': nat, k: nat, t: Test)
    requires g.csize > 0 && Counting(g, f, e, sclust, lo, k, t) && Counting(g, f, e, sclust, lo', k, t)
    ensures lo' == lo
  {
    hide EntryAt, Test.Fits;
    assert CountsAt(g, f, e, sclust, if lo < lo' then lo else lo', if lo < lo' then lo' else lo, t);
  }

  // ----- reading -----

  const NO_LFN: nat := 0xFFFF_FFFF
  const AM_VOL: byte := 0x08
  const DOT: byte := 0x2E

  /** What dir_read remembers between entries: the order and checksum it expects, the name
      buffer, and where the sequence started. */
  datatype ReadState = ReadState(ord: byte, sum: byte, buf: seq<word>, blk: nat)

  datatype Seen = End | Skip(st: ReadState) | Found(st: ReadState)

  function Attr(e: Entry): byte {
    e[LDIR_Attr] % 0x40
  }

  /** Entries without a file: deleted ones, dot entries, volume labels. */
  predicate Passed(e: Entry) {
    e[0] == DDEM || e[0] == DOT || Attr(e) == AM_VOL || Attr(e) == 0x20 + AM_VOL
  }

  /** What dir_read makes of the entry at table offset `p`. */
  ghost function ReadEntry(st: ReadState, e: Entry, p: nat): Seen
    requires |st.buf| == MAX_LFN + 1
  {
    if e[0] == 0 then End
    else if Passed(e) then Skip(st.(ord := 0xFF))
    else if Attr(e) != AM_LFN then
      Found(if st.ord != 0 || st.sum != SumFrom(0, e[..11]) then st.(blk := NO_LFN) else st)
    else
      var s := if IsLast(e) then st.(sum := e[LDIR_Chksum], ord := ClearLast(e[0]), blk := p) else st;
      if ClearLast(e[0]) != s.ord || s.sum != e[LDIR_Chksum] then Skip(s.(ord := 0xFF))
      else Skip(s.(ord := if Pickable(e) then (s.ord + 255) % 256 else 0xFF, buf := Picked(s.buf, e)))
  }

  /** What dir_read finds from entry `k` on: the result, the entry and the state there. */
  ghost function ReadFrom(g: Geometry, f: Table, e: Disk, sclust: nat, k: nat, st: ReadState): (FResult, nat, ReadState)
    requires g.csize > 0 && |st.buf| == MAX_LFN + 1 && SZDIRE * k < MAX_DIR
    decreases MAX_DIR - SZDIRE * k
  {
    match ReadEntry(st, EntryAt(g, f, e, sclust, k), SZDIRE * k)
    case End => (NoFile, k, st)
    case Found(st') => (Ok, k, st')
    case Skip(st') =>
      if Reachable(g, f, sclust, SZDIRE * (k + 1)) then ReadFrom(g, f, e, sclust, k + 1, st')
      else (NextCursor(g, f, CursorAt(g, f, sclust, SZDIRE * k)).0, k, st')
  }

  /** One entry of dir_read: done when the search ends here. */
  method ReadOne(lfnbuf: array<word>, dir: Entry, p: nat, ord0: byte, sum0: byte, blk0: nat)
    returns (seen: int, ord: byte, sum: byte, blk: nat)
    requires lfnbuf.Length == MAX_LFN + 1
    modifies lfnbuf
    ensures match ReadEntry(ReadState(ord0, sum0, old(lfnbuf[..]), blk0), dir, p)
      case End => seen == 0 && (ord, sum, blk) == (ord0, sum0, blk0) && lfnbuf[..] == old(lfnbuf[..])
      case Skip(st) => seen == 1 && st == ReadState(ord, sum, lfnbuf[..], blk)
      case Found(st) => seen == 2 && st == ReadState(ord, sum, lfnbuf[..], blk)
  {
    hide Pickable, Picked, PickBase, Chars, Count, Padded;
    seen, ord, sum, blk := 1, ord0, sum0, blk0;
    var c := dir[0];
    if c == 0 {
      seen := 0;
      return;
    }
    var a := Attr(dir);
    if c == DDEM || c == DOT || a == AM_VOL || a == 0x20 + AM_VOL {
      ord := 0xFF;
    } else if a == AM_LFN {
      if IsLast(dir) {
        sum := dir[LDIR_Chksum];
        c := ClearLast(c);
        ord := c;
        blk := p;
      }
      var ok := false;
      if c == ord && sum == dir[LDIR_Chksum] {
        ok := PickLfn(lfnbuf, dir);
      }
      ord := if ok then (ord + 255) % 256 else 0xFF;
    } else {
      seen := 2;
      var chk := SumSfn(dir);
      if ord != 0 || sum != chk {
        blk := NO_LFN;
      }
    }
  }

  /** dir_read for files and directories. */
  method Read(dp: Dir, lfnbuf: array<word>, blk0: nat) returns (res: FResult, blk: nat, ghost k: nat)
    requires dp.Valid() && lfnbuf.Length == MAX_LFN + 1
    modifies dp, dp.fs, dp.fs.win, lfnbuf
    ensures dp.Valid() && dp.fs.Eff() == old(dp.fs.Eff()) && (old(Healthy(dp.fs)) ==> Healthy(dp.fs))
    ensures old(dp.sect) == 0 ==> res == NoFile && dp.sect == 0
    ensures old(dp.sect) != 0 ==>
      && old(dp.dptr) < MAX_DIR
      && var (r, k', st) := ReadFrom(dp.fs.g, dp.fs.Fat(), dp.fs.Eff(), dp.sclust, old(dp.dptr) / SZDIRE,
           ReadState(0xFF, 0xFF, old(lfnbuf[..]), blk0));
         && res == r && k == k' && st.buf == lfnbuf[..] && st.blk == blk
         && (res == Ok ==> dp.sect != 0 && dp.dptr == SZDIRE * k)
    ensures res == Ok && old(dp.sect) != 0 ==>
      && ListedFirst(dp.fs.g, dp.fs.Fat(), dp.fs.Eff(), dp.sclust, old(dp.dptr) / SZDIRE, k)
      && NamedBy(dp.fs.g, dp.fs.Fat(), dp.fs.Eff(), dp.sclust, old(dp.dptr) / SZDIRE, k, blk)
    ensures res != Ok && old(dp.sect) != 0 ==>
      ListsNothing(dp.fs.g, dp.fs.Fat(), dp.fs.Eff(), dp.sclust, old(dp.dptr) / SZDIRE)
    ensures res != Ok ==> dp.sect == 0
  {
    hide ListedFirst, ListsNothing, NamedBy, FatOf, Flush, Geometry.DataEnd, Geometry.ClusterSector, Geometry.Valid,
      Mirrored, Forest, PlaceOf, Off, Zeros, Healthy, Reachable, CursorAt, ReadEntry, EntryAt, NextCursor;
    Bases(dp.fs.g);
    res, blk, k := NoFile, blk0, dp.dptr / SZDIRE;
    if dp.sect == 0 {
      return;
    }
    var ord: byte, sum: byte := 0xFF, 0xFF;
    ghost var f, e, k0 := dp.fs.Fat(), dp.fs.Eff(), k;
    ghost var b0 := lfnbuf[..];
    Ready(dp);
    ListedIs(dp.fs.g, f, e, dp.sclust, k0, ReadState(0xFF, 0xFF, b0, blk0));
    while true
      invariant dp.Valid() && dp.fs.Valid() && dp.sect != 0 && dp.fs.Eff() == e
        && (old(Healthy(dp.fs)) ==> Healthy(dp.fs))
      invariant dp.dptr == SZDIRE * k < MAX_DIR && SZDIRE * k0 < MAX_DIR
      invariant ReadFrom(dp.fs.g, f, e, dp.sclust, k0, ReadState(0xFF, 0xFF, b0, blk0))
             == ReadFrom(dp.fs.g, f, e, dp.sclust, k, ReadState(ord, sum, lfnbuf[..], blk))
      decreases MAX_DIR - SZDIRE * k
    {
      Bring(dp);
      UnderCursor(dp, k);
      var seen;
      seen, ord, sum, blk := ReadOne(lfnbuf, dp.fs.win[dp.dir..dp.dir + SZDIRE], dp.dptr, ord, sum, blk);
      if seen != 1 {
        if seen == 2 {
          return Ok, blk, k;
        }
        res := NoFile;
        break;
      }
      NextOf(dp.fs.g, f, dp.sclust, k);
      res := dp.Next(false);
      if res != Ok {
        break;
      }
      k := k + 1;
    }
    dp.sect := 0;
  }

  /** Brings the entry under the cursor into the window. */
  method Bring(dp: Dir)
    requires dp.Valid() && dp.sect != 0
    modifies dp.fs`disk, dp.fs`wflag, dp.fs`winsect, dp.fs.win
    ensures dp.Valid() && dp.fs.Eff() == old(dp.fs.Eff()) && (old(Healthy(dp.fs)) ==> Healthy(dp.fs))
    ensures dp.fs.winsect == dp.sect && dp.fs.win[..] == dp.fs.Eff()[dp.fs.winsect]
  {
    hide FatOf, Flush, Geometry.DataEnd, Geometry.ClusterSector, Geometry.Valid, Mirrored, Forest, PlaceOf, Off, Zeros;
    Ready(dp);
    dp.fs.MoveWindow(dp.sect);
  }

  lemma UnderCursor(dp: Dir, k: nat)
    requires dp.Valid() && dp.sect != 0 && dp.dptr == SZDIRE * k && dp.fs.winsect == dp.sect
      && dp.fs.win[..] == dp.fs.Eff()[dp.fs.winsect]
    ensures dp.dir + SZDIRE <= 512
    ensures dp.fs.win[dp.dir..dp.dir + SZDIRE] == EntryAt(dp.fs.g, dp.fs.Fat(), dp.fs.Eff(), dp.sclust, k)
  {
    hide FatOf, Flush, PlaceOf, Off;
    EntryFits(k);
  }

  lemma NextOf(g: Geometry, f: Table, sclust: nat, k: nat)
    requires g.Valid() && |f| == g.nFatEnt && Reachable(g, f, sclust, SZDIRE * k)
    ensures var (r, c) := NextCursor(g, f, CursorAt(g, f, sclust, SZDIRE * k));
      && (r == Ok <==> Reachable(g, f, sclust, SZDIRE * (k + 1)))
      && (r == Ok ==> c == CursorAt(g, f, sclust, SZDIRE * (k + 1)) && c.sect != 0)
    ensures Reachable(g, f, sclust, SZDIRE * (k + 1)) ==> SZDIRE * (k + 1) < MAX_DIR
    ensures CursorAt(g, f, sclust, SZDIRE * k).dptr == SZDIRE * k
      && CursorAt(g, f, sclust, SZDIRE * (k + 1)).dptr == SZDIRE * (k + 1)
  {
    hide PlaceOf, NextCursor;
    assert SZDIRE * (k + 1) == SZDIRE * k + SZDIRE;
    if SZDIRE * (k + 1) < MAX_DIR {
      PlaceStep(g, f, sclust, SZDIRE * k);
    } else {
      NextLimit(g, f, CursorAt(g, f, sclust, SZDIRE * k));
    }
  }

  lemma NextLimit(g: Geometry, f: Table, c: Cursor)
    requires g.csize > 0 && c.dptr + SZDIRE >= MAX_DIR
    ensures NextCursor(g, f, c).0 == NoFile
  {
  }

  // ----- what reading lists -----

  /** An entry that dir_read returns: used, no dot entry, no volume label, no part of a long name. */
  predicate Listed(x: Entry) {
    x[0] != 0 && x[0] != 0xE5 && x[0] != 0x2E && x[11] % 64 != 8 && x[11] % 64 != 0x28 && x[11] % 64 != 15
  }

  /** A whole long name lies right in front of entry `k`, from entry `lo` on, with its checksum. */
  ghost predicate NameBefore(g: Geometry, f: Table, e: Disk, sclust: nat, lo: nat, k: nat)
    requires g.csize > 0
  {
    && Counting(g, f, e, sclust, lo, k, Gathered) && Order(EntryAt(g, f, e, sclust, lo)) == k - lo
    && EntryAt(g, f, e, sclust, lo)[13] == SumFrom(0, EntryAt(g, f, e, sclust, k)[..11])
  }

  /** What dir_read knows in front of entry `k`, having started at entry `from`. */
  ghost predicate Remembers(g: Geometry, f: Table, e: Disk, sclust: nat, from: nat, k: nat, st: ReadState)
    requires g.csize > 0
  {
    && |st.buf| == MAX_LFN + 1
    && (st.ord != 0xFF ==> exists lo :: from <= lo && Counting(g, f, e, sclust, lo, k, Gathered))
    && forall lo :: from <= lo && Counting(g, f, e, sclust, lo, k, Gathered) ==>
         Known(EntryAt(g, f, e, sclust, lo), lo, k, st.ord, st.sum, st.blk)
  }

  lemma {:induction false} Passing(g: Geometry, f: Table, e: Disk, sclust: nat, from: nat, k: nat, st: ReadState)
    requires g.csize > 0 && |st.buf| == MAX_LFN + 1 && st.ord == 0xFF
    requires Passed(EntryAt(g, f, e, sclust, k)) || !Long(EntryAt(g, f, e, sclust, k))
    ensures Remembers(g, f, e, sclust, from, k + 1, st)
  {
    hide EntryAt, Test.Fits, Known, Counting;
    var k1 := k + 1;
    forall lo ensures !Counting(g, f, e, sclust, lo, k1, Gathered) {
      if Counting(g, f, e, sclust, lo, k1, Gathered) {
        CountingBack(g, f, e, sclust, lo, k, Gathered);
        NotTaken(EntryAt(g, f, e, sclust, k));
      }
    }
  }

  lemma NotTaken(x: Entry)
    requires Passed(x) && Long(x)
    ensures !Gathered.Fits(x)
  {
  }

  lemma {:induction false} TakeUp(g: Geometry, f: Table, e: Disk, sclust: nat, from: nat, k: nat, st: ReadState)
    requires g.csize > 0 && from <= k && Remembers(g, f, e, sclust, from, k, st)
    requires var x := EntryAt(g, f, e, sclust, k); Long(x) && !Passed(x)
    ensures var m := ReadEntry(st, EntryAt(g, f, e, sclust, k), SZDIRE * k);
      m.Skip? && |m.st.buf| == MAX_LFN + 1 && Remembers(g, f, e, sclust, from, k + 1, m.st)
  {
    hide EntryAt, Pickable, CountsAt, Picked, Counting;
    var x := EntryAt(g, f, e, sclust, k);
    FitsPickable(x);
    var st' := ReadEntry(st, x, SZDIRE * k).st;
    forall lo | from <= lo && Counting(g, f, e, sclust, lo, k + 1, Gathered)
      ensures Known(EntryAt(g, f, e, sclust, lo), lo, k + 1, st'.ord, st'.sum, st'.blk)
    {
      CountingBack(g, f, e, sclust, lo, k, Gathered);
      CountsIs(g, f, e, sclust, lo, k, Gathered);
      var d := EntryAt(g, f, e, sclust, lo);
      assert lo < k ==> Known(d, lo, k, st.ord, st.sum, st.blk);
      TakeNext(st, x, SZDIRE * k, d, lo, k);
    }
    if st'.ord != 0xFF {
      if x[0] / 64 % 2 == 1 {
        StartsAt(g, f, e, sclust, k, Gathered);
        CountingOn(g, f, e, sclust, k, k, Gathered);
      } else {
        NotLastOrder(x);
        var lo :| from <= lo && Counting(g, f, e, sclust, lo, k, Gathered);
        GoesOn(g, f, e, sclust, lo, k, Gathered);
        CountingOn(g, f, e, sclust, lo, k, Gathered);
      }
    }
  }

  /** A part that goes on, or begins, as expected. */
  lemma TakeNext(st: ReadState, x: Entry, p: nat, d: Entry, lo: nat, k: nat)
    requires |st.buf| == MAX_LFN + 1 && Long(x) && !Passed(x) && Pickable(x) && p == SZDIRE * k && lo <= k
    requires x[13] == d[13] && Order(x) + k - lo == Order(d) && 1 <= Order(x) < 192 && (x[0] / 64 % 2 == 1 <==> k == lo)
    requires if lo < k then Known(d, lo, k, st.ord, st.sum, st.blk) else d == x
    ensures var m := ReadEntry(st, x, p); m.Skip? && Known(d, lo, k + 1, m.st.ord, m.st.sum, m.st.blk)
  {
    hide Pickable, Picked;
  }

  lemma FitsPickable(x: Entry)
    requires !Passed(x)
    ensures Gathered.Fits(x) <==> Pickable(x)
  {
    hide Pickable;
  }

  /** Reading ends at the first entry that is listed, or where the table ends. Its long name is
      the one right in front of it; if there is none, it has none. */
  lemma {:induction false} ReadExact(g: Geometry, f: Table, e: Disk, sclust: nat, from: nat, k: nat, st: ReadState)
    requires g.Valid() && |f| == g.nFatEnt && Reachable(g, f, sclust, SZDIRE * k) && SZDIRE * k < MAX_DIR
    requires from <= k && |st.buf| == MAX_LFN + 1 && Remembers(g, f, e, sclust, from, k, st)
    ensures var (r, k', st') := ReadFrom(g, f, e, sclust, k, st);
      && k <= k' && Reachable(g, f, sclust, SZDIRE * k')
      && (forall j :: k <= j < k' ==> EntryAt(g, f, e, sclust, j)[0] != 0 && !Listed(EntryAt(g, f, e, sclust, j)))
      && (r == Ok ==> Listed(EntryAt(g, f, e, sclust, k')) && NamedBy(g, f, e, sclust, from, k', st'.blk))
      && (r != Ok ==>
            || EntryAt(g, f, e, sclust, k')[0] == 0
            || (!Listed(EntryAt(g, f, e, sclust, k')) && !Reachable(g, f, sclust, SZDIRE * (k' + 1))))
    decreases MAX_DIR - SZDIRE * k
  {
    hide EntryAt, Reachable, ReadEntry, Geometry.Valid, NextCursor, CursorAt, Remembers, NamedBy, Listed;
    Bases(g);
    ReadStep(g, f, e, sclust, from, k, st);
    NextOf(g, f, sclust, k);
    var m := ReadEntry(st, EntryAt(g, f, e, sclust, k), SZDIRE * k);
    if m.Skip? && Reachable(g, f, sclust, SZDIRE * (k + 1)) {
      ReadExact(g, f, e, sclust, from, k + 1, m.st);
    }
  }

  /** Entry `k` is the first one listed from entry `from` on, with no end mark before it. */
  ghost predicate ListedFirst(g: Geometry, f: Table, e: Disk, sclust: nat, from: nat, k: nat)
    requires g.csize > 0
  {
    && from <= k && Reachable(g, f, sclust, SZDIRE * k) && Listed(EntryAt(g, f, e, sclust, k))
    && forall j :: from <= j < k ==> EntryAt(g, f, e, sclust, j)[0] != 0 && !Listed(EntryAt(g, f, e, sclust, j))
  }

  /** From entry `from` to the next end mark, or the end of the table, nothing is listed. */
  ghost predicate ListsNothing(g: Geometry, f: Table, e: Disk, sclust: nat, from: nat)
    requires g.csize > 0
  {
    forall k: nat :: !ListedFirst(g, f, e, sclust, from, k)
  }

  lemma {:induction false} ListedIs(g: Geometry, f: Table, e: Disk, sclust: nat, k: nat, st: ReadState)
    requires g.Valid() && |f| == g.nFatEnt && Reachable(g, f, sclust, SZDIRE * k) && SZDIRE * k < MAX_DIR
    requires |st.buf| == MAX_LFN + 1 && st.ord == 0xFF
    ensures var (r, k', st') := ReadFrom(g, f, e, sclust, k, st);
      && (r == Ok ==> ListedFirst(g, f, e, sclust, k, k') && NamedBy(g, f, e, sclust, k, k', st'.blk))
      && (r != Ok ==> ListsNothing(g, f, e, sclust, k))
  {
    hide EntryAt, Reachable, ReadFrom, Remembers, NamedBy, Listed, Geometry.Valid;
    Bases(g);
    RemembersNothing(g, f, e, sclust, k, st);
    ReadExact(g, f, e, sclust, k, k, st);
    var (r, k', st') := ReadFrom(g, f, e, sclust, k, st);
    if r != Ok {
      forall j: nat ensures !ListedFirst(g, f, e, sclust, k, j) {
        if k' < j && Reachable(g, f, sclust, SZDIRE * j) {
          ReachableDown(g, f, sclust, k' + 1, j);
        }
        UsedListed(EntryAt(g, f, e, sclust, j));
      }
    }
  }

  lemma UsedListed(x: Entry)
    ensures Listed(x) ==> x[0] != 0
  {
  }

  lemma RemembersNothing(g: Geometry, f: Table, e: Disk, sclust: nat, k: nat, st: ReadState)
    requires g.csize > 0 && |st.buf| == MAX_LFN + 1 && st.ord == 0xFF
    ensures Remembers(g, f, e, sclust, k, k, st)
  {
    hide EntryAt;
  }

  /** The recorded start is that of the long name right in front of entry `k`, if there is one. */
  ghost predicate NamedBy(g: Geometry, f: Table, e: Disk, sclust: nat, from: nat, k: nat, blk: nat)
    requires g.csize > 0
  {
    && (forall lo :: from <= lo && NameBefore(g, f, e, sclust, lo, k) ==> blk == SZDIRE * lo)
    && (blk == NO_LFN || exists lo :: from <= lo && NameBefore(g, f, e, sclust, lo, k))
  }

  lemma {:induction false} ReadStep(g: Geometry, f: Table, e: Disk, sclust: nat, from: nat, k: nat, st: ReadState)
    requires g.csize > 0 && from <= k && |st.buf| == MAX_LFN + 1 && Remembers(g, f, e, sclust, from, k, st)
    ensures match ReadEntry(st, EntryAt(g, f, e, sclust, k), SZDIRE * k)
      case End => EntryAt(g, f, e, sclust, k)[0] == 0
      case Found(st') => Listed(EntryAt(g, f, e, sclust, k)) && NamedBy(g, f, e, sclust, from, k, st'.blk)
      case Skip(st') =>
        && EntryAt(g, f, e, sclust, k)[0] != 0 && !Listed(EntryAt(g, f, e, sclust, k))
        && |st'.buf| == MAX_LFN + 1 && Remembers(g, f, e, sclust, from, k + 1, st')
  {
    hide EntryAt, Remembers, NamedBy, ReadEntry;
    var x := EntryAt(g, f, e, sclust, k);
    ReadPlain(st, x, SZDIRE * k);
    if x[0] == 0 {
    } else if Passed(x) {
      Passing(g, f, e, sclust, from, k, st.(ord := 0xFF));
    } else if Long(x) {
      TakeUp(g, f, e, sclust, from, k, st);
    } else {
      ReadNamed(g, f, e, sclust, from, k, st);
    }
  }

  /** Entries that are no parts of long names. */
  lemma ReadPlain(st: ReadState, x: Entry, p: nat)
    requires |st.buf| == MAX_LFN + 1
    ensures x[0] == 0 ==> ReadEntry(st, x, p) == End
    ensures x[0] != 0 && Passed(x) ==> ReadEntry(st, x, p) == Skip(st.(ord := 0xFF)) && !Listed(x)
    ensures Long(x) ==> !Listed(x)
    ensures x[0] != 0 && !Passed(x) && !Long(x) ==> Listed(x)
    ensures Listed(x) ==>
      ReadEntry(st, x, p) == Found(if st.ord != 0 || st.sum != SumFrom(0, x[..11]) then st.(blk := NO_LFN) else st)
  {
    hide SumFrom, Pickable, Picked;
  }

  lemma {:induction false} ReadNamed(g: Geometry, f: Table, e: Disk, sclust: nat, from: nat, k: nat, st: ReadState)
    requires g.csize > 0 && Remembers(g, f, e, sclust, from, k, st) && Listed(EntryAt(g, f, e, sclust, k))
    ensures var m := ReadEntry(st, EntryAt(g, f, e, sclust, k), SZDIRE * k);
      m.Found? && NamedBy(g, f, e, sclust, from, k, m.st.blk)
  {
    hide EntryAt, Test.Fits, Counting, SumFrom, ReadEntry;
    var x := EntryAt(g, f, e, sclust, k);
    ReadPlain(st, x, SZDIRE * k);
    if st.ord == 0 && st.sum == SumFrom(0, x[..11]) {
      var lo :| from <= lo && Counting(g, f, e, sclust, lo, k, Gathered);
      assert NameBefore(g, f, e, sclust, lo, k);
    }
  }

  // ----- what was registered is read -----

  /** The state of dir_read behind the parts down to order `ord`: they were accepted and
      their units are in the buffer, or one was refused. */
  ghost predicate After(st: ReadState, name: seq<word>, sum: byte, ord: nat, p: nat) {
    && |st.buf| == MAX_LFN + 1
    && if |name| <= 253 then
         st.ord == ord && st.sum == sum && st.blk == p && Upto(st.buf, name, ord * 13)
       else st.ord == 0xFF
  }

  /** One part of the name, read in turn. */
  lemma {:induction false} ReadPart(st: ReadState, e: Entry, name: seq<word>, sum: byte, ord: byte, p: nat, q: nat)
    requires Plain(name) && |name| <= MAX_LFN && 0 < ord && (ord - 1) * 13 < |name| && IsPart(e, name, ord, sum)
    requires if |name| <= ord * 13 then |st.buf| == MAX_LFN + 1 && p == q else After(st, name, sum, ord, p)
    ensures var s := ReadEntry(st, e, q); s.Skip? && After(s.st, name, sum, ord - 1, p)
  {
    hide IsPart, Chars, Count, Padded, LoadWord, Pickable, Picked, PickBase, Upto;
    PartChars(e, name, ord, sum);
    PartWord(e, name, ord, sum);
    PickPart(st.buf, e, name, ord, sum);
    PartFirst(e, name, ord, sum);
  }

  lemma PartFirst(e: Entry, name: seq<word>, ord: byte, sum: byte)
    requires 0 < ord <= 20 && IsPart(e, name, ord, sum)
    ensures e[0] == ord || e[0] == ord + LLEF
  {
  }

  lemma {:induction false} ReadShort(st: ReadState, fn: seq<byte>, name: seq<word>, p: nat, q: nat)
    requires |fn| == 12 && fn[0] != 0 && fn[0] != DDEM && fn[0] != DOT
    requires After(st, name, SumFrom(0, fn[..11]), 0, p)
    ensures ReadEntry(st, ShortEntry(fn), q) == Found(if |name| <= 253 then st else st.(blk := NO_LFN))
  {
    assert ShortEntry(fn)[..11] == fn[..11];
  }

  /** The rest of a registered block, from its part number `d` on. */
  lemma {:induction false} ReadBlock(g: Geometry, f: Table, e: Disk, sclust: nat, k: nat, cnt: nat, d: nat,
      st: ReadState, name: seq<word>, fn: seq<byte>)
    requires g.csize > 0 && Plain(name) && 0 < |name| <= MAX_LFN && |fn| == 12 && fn[0] != 0 && fn[0] != DDEM
      && fn[0] != DOT
    requires d <= cnt == (|name| + 12) / 13 && RunThere(g, f, sclust, k, k + cnt)
    requires Parts(g, f, e, sclust, k, cnt, cnt, name, SumFrom(0, fn[..11]))
      && EntryAt(g, f, e, sclust, k + cnt) == ShortEntry(fn)
    requires if d == 0 then |st.buf| == MAX_LFN + 1 else After(st, name, SumFrom(0, fn[..11]), cnt - d, SZDIRE * k)
    requires SZDIRE * (k + d) < MAX_DIR
    ensures var (r, k', st') := ReadFrom(g, f, e, sclust, k + d, st);
      && r == Ok && k' == k + cnt && |st'.buf| == MAX_LFN + 1
      && (|name| <= 253 ==> st'.blk == SZDIRE * k && Holds(st'.buf, name))
      && (|name| > 253 ==> st'.blk == NO_LFN)
    decreases cnt - d
  {
    hide PlaceOf, Off, IsPart, ReadEntry, EntryAt, ShortEntry, Reachable;
    var sum := SumFrom(0, fn[..11]);
    if d < cnt {
      assert PartAt(g, f, e, sclust, k, cnt, d, name, sum);
      ReadPart(st, EntryAt(g, f, e, sclust, k + d), name, sum, cnt - d, SZDIRE * k, SZDIRE * (k + d));
      assert Reachable(g, f, sclust, SZDIRE * (k + (d + 1)));
      InLimit(g, f, sclust, SZDIRE * (k + (d + 1)));
      ReadBlock(g, f, e, sclust, k, cnt, d + 1, ReadEntry(st, EntryAt(g, f, e, sclust, k + d), SZDIRE * (k + d)).st,
        name, fn);
    } else {
      ReadShort(st, fn, name, SZDIRE * k, SZDIRE * (k + d));
      if |name| <= 253 {
        HeldAll(st.buf, name);
      }
    }
  }

  lemma InLimit(g: Geometry, f: Table, sclust: nat, p: nat)
    requires g.csize > 0 && Reachable(g, f, sclust, p)
    ensures p < MAX_DIR
  {
  }

  lemma HeldAll(buf: seq<word>, name: seq<word>)
    requires Upto(buf, name, 0) && Plain(name)
    ensures Holds(buf, name)
  {
  }

  /** A long name that dir_register stored is, from its first entry on, found by dir_read and
      rebuilt unchanged exactly when it has at most 253 units; longer names are lost. */
  lemma {:induction false} RegisteredIsRead(g: Geometry, f: Table, e1: Disk, e: Disk, sclust: nat, last: nat,
      name: seq<word>, fn: seq<byte>, st0: ReadState)
    requires g.csize > 0 && Plain(name) && 0 < |name| <= MAX_LFN && |fn| == 12 && fn[0] != 0 && fn[0] != DDEM
      && fn[0] != DOT
    requires fn[11] / 2 % 2 == 1 && Intact(g, f, sclust) && |st0.buf| == MAX_LFN + 1
    requires Registered(g, f, e1, e, sclust, last, LongCount(|name|, fn[11]), name, fn)
    ensures var k := last - LongCount(|name|, fn[11]);
      && Reachable(g, f, sclust, SZDIRE * k) && SZDIRE * k < MAX_DIR
      && var (r, k', st) := ReadFrom(g, f, e, sclust, k, st0);
         && r == Ok && k' == last
         && (st.blk == SZDIRE * k <==> |name| <= 253)
         && (|name| <= 253 ==> Holds(st.buf, name))
  {
    hide PlaceOf, Off, IsPart, ReadEntry, EntryAt, ShortEntry, Reachable, RunEnds, Rewritten, Intact, ReadFrom, Holds,
      Parts;
    var cnt := LongCount(|name|, fn[11]);
    assert Reachable(g, f, sclust, SZDIRE * (last - cnt));
    InLimit(g, f, sclust, SZDIRE * (last - cnt));
    ReadBlock(g, f, e, sclust, last - cnt, cnt, 0, st0, name, fn);
  }

  /** dir_read from an earlier entry, with no end mark in between, stops at a file before entry
      `first` or arrives there. */
  lemma {:induction false} ReadAhead(g: Geometry, f: Table, e: Disk, sclust: nat, k: nat, first: nat, st: ReadState)
    returns (st': ReadState)
    requires g.csize > 0 && |st.buf| == MAX_LFN + 1 && k <= first && RunThere(g, f, sclust, k, first)
      && SZDIRE * k < MAX_DIR
    requires forall i :: k <= i < first ==> EntryAt(g, f, e, sclust, i)[0] != 0
    ensures |st'.buf| == MAX_LFN + 1 && SZDIRE * first < MAX_DIR
    ensures var r := ReadFrom(g, f, e, sclust, k, st);
      (r.0 == Ok && k <= r.1 < first) || r == ReadFrom(g, f, e, sclust, first, st')
    decreases first - k
  {
    hide PlaceOf, Off, EntryAt, Reachable, NextCursor, Picked, Pickable;
    st' := st;
    assert Reachable(g, f, sclust, SZDIRE * first);
    InLimit(g, f, sclust, SZDIRE * first);
    if k < first {
      var m := ReadEntry(st, EntryAt(g, f, e, sclust, k), SZDIRE * k);
      if m.Skip? {
        assert Reachable(g, f, sclust, SZDIRE * (k + 1));
        InLimit(g, f, sclust, SZDIRE * (k + 1));
        st' := ReadAhead(g, f, e, sclust, k + 1, first, m.st);
      }
    }
  }

  /** Reading the table from any earlier entry on comes to a file in front of the registered
      one, or to that, with its name rebuilt exactly when it has at most 253 units. */
  lemma {:induction false} RegisteredIsListed(g: Geometry, f: Table, e1: Disk, e: Disk, sclust: nat, last: nat,
      name: seq<word>, fn: seq<byte>, k: nat, st0: ReadState)
    requires g.Valid() && |f| == g.nFatEnt && g.DataEnd() <= |e1| && Closed(g, f, e1, sclust)
    requires Plain(name) && 0 < |name| <= MAX_LFN && Named(fn) && fn[0] != DOT
    requires fn[11] / 2 % 2 == 1 && Intact(g, f, sclust) && |st0.buf| == MAX_LFN + 1
    requires Registered(g, f, e1, e, sclust, last, LongCount(|name|, fn[11]), name, fn)
      && k <= last - LongCount(|name|, fn[11])
    ensures SZDIRE * k < MAX_DIR
    ensures var first := last - LongCount(|name|, fn[11]);
      var (r, k', st) := ReadFrom(g, f, e, sclust, k, st0);
      && r == Ok && (k <= k' < first || k' == last)
      && (k' == last ==> (st.blk == SZDIRE * first <==> |name| <= 253) && (|name| <= 253 ==> Holds(st.buf, name)))
  {
    hide PlaceOf, Off, IsPart, ReadEntry, EntryAt, ShortEntry, Reachable, RunEnds, Rewritten, Intact, ReadFrom, Holds,
      Parts, Closed, FirstRun, Geometry.Valid, Geometry.DataEnd;
    Bases(g);
    var cnt := LongCount(|name|, fn[11]);
    RegisteredClosed(g, f, e1, e, sclust, last, cnt, name, fn);
    RunDown(g, f, sclust, last);
    assert Reachable(g, f, sclust, SZDIRE * k);
    InLimit(g, f, sclust, SZDIRE * k);
    var st1 := ReadAhead(g, f, e, sclust, k, last - cnt, st0);
    RegisteredIsRead(g, f, e1, e, sclust, last, name, fn, st1);
  }

  // ----- searching -----

  /** What dir_find remembers between entries. */
  datatype FindState = FindState(ord: byte, sum: byte, blk: nat)

  datatype Match = NoMore | Go(st: FindState) | Hit(st: FindState)

  /** A search: the name in the buffer, the short name with its flags, the case mapping. */
  datatype Query = Query(buf: seq<word>, fn: seq<byte>, up: word -> word) {
    predicate Valid() {
      |buf| == MAX_LFN + 1 && |fn| == 12
    }

    /** The test of the parts of long names. */
    function Parts(): Test {
      Sought(buf, up)
    }

    /** Only short names are looked for. */
    predicate NoLong()
      requires Valid()
    {
      fn[11] / 0x40 % 2 == 1
    }

    /** The name has no short form of its own. */
    predicate Loss()
      requires Valid()
    {
      fn[11] % 2 == 1
    }
  }

  const Reset := FindState(0xFF, 0xFF, NO_LFN)

  /** What dir_find makes of the entry at table offset `p`. */
  ghost function FindEntry(st: FindState, e: Entry, p: nat, q: Query): Match
    requires q.Valid()
  {
    if e[0] == 0 then NoMore
    else if e[0] == DDEM || (Attr(e) / AM_VOL % 2 == 1 && Attr(e) != AM_LFN) then Go(FindState(0xFF, st.sum, NO_LFN))
    else if Attr(e) == AM_LFN then
      if q.NoLong() then Go(st)
      else
        var s := if IsLast(e) then FindState(ClearLast(e[0]), e[LDIR_Chksum], p) else st;
        Go(s.(ord := if ClearLast(e[0]) == s.ord && s.sum == e[LDIR_Chksum] && Matches(q.buf, e, q.up)
                     then (s.ord + 255) % 256 else 0xFF))
    else if st.ord == 0 && st.sum == SumFrom(0, e[..11]) then Hit(st)
    else if !q.Loss() && e[..11] == q.fn[..11] then Hit(st)
    else Go(FindState(0xFF, st.sum, NO_LFN))
  }

  /** What dir_find finds from entry `k` on. */
  ghost function FindFrom(g: Geometry, f: Table, e: Disk, sclust: nat, k: nat, st: FindState, q: Query)
      : (FResult, nat, FindState)
    requires g.csize > 0 && q.Valid() && SZDIRE * k < MAX_DIR
    decreases MAX_DIR - SZDIRE * k
  {
    match FindEntry(st, EntryAt(g, f, e, sclust, k), SZDIRE * k, q)
    case NoMore => (NoFile, k, st)
    case Hit(st') => (Ok, k, st')
    case Go(st') =>
      if Reachable(g, f, sclust, SZDIRE * (k + 1)) then FindFrom(g, f, e, sclust, k + 1, st', q)
      else (NextCursor(g, f, CursorAt(g, f, sclust, SZDIRE * k)).0, k, st')
  }

  /** One entry of dir_find. */
  method FindOne(lfnbuf: array<word>, dir: Entry, p: nat, st: FindState, q: Query) returns (m: Match)
    requires q.Valid() && lfnbuf[..] == q.buf
    ensures m == FindEntry(st, dir, p, q)
  {
    hide Chars, Count, Padded, Matches;
    var c := dir[0];
    if c == 0 {
      return NoMore;
    }
    var a := Attr(dir);
    var ord: byte, sum: byte, blk := st.ord, st.sum, st.blk;
    if c == DDEM || (a / AM_VOL % 2 == 1 && a != AM_LFN) {
      ord, blk := 0xFF, NO_LFN;
    } else if a == AM_LFN {
      if !q.NoLong() {
        if IsLast(dir) {
          sum := dir[LDIR_Chksum];
          c := ClearLast(c);
          ord := c;
          blk := p;
        }
        var ok := false;
        if c == ord && sum == dir[LDIR_Chksum] {
          ok := CmpLfn(lfnbuf, dir, q.up);
        }
        ord := if ok then (ord + 255) % 256 else 0xFF;
      }
    } else {
      var chk := SumSfn(dir);
      if ord == 0 && sum == chk {
        return Hit(st);
      }
      if !q.Loss() && dir[..11] == q.fn[..11] {
        return Hit(st);
      }
      ord, blk := 0xFF, NO_LFN;
    }
    m := Go(FindState(ord, sum, blk));
  }

  /** dir_find. */
  method Find(dp: Dir, lfnbuf: array<word>, q: Query) returns (res: FResult, blk: nat, ghost k: nat)
    requires dp.fs.Valid() && dp.fs.g.DataEnd() <= |dp.fs.disk| && q.Valid() && lfnbuf[..] == q.buf
    modifies dp, dp.fs, dp.fs.win
    ensures dp.fs.Valid() && dp.fs.Eff() == old(dp.fs.Eff()) && (old(Healthy(dp.fs)) ==> Healthy(dp.fs))
    ensures !Reachable(dp.fs.g, dp.fs.Fat(), dp.sclust, 0) ==> res == IntErr
    ensures res == Ok ==>
      && Live(dp.fs.g, dp.fs.Fat(), dp.fs.Eff(), dp.sclust, k)
        && Answers(dp.fs.g, dp.fs.Fat(), dp.fs.Eff(), dp.sclust, k, q)
      && forall j :: 0 <= j < k ==> !Answers(dp.fs.g, dp.fs.Fat(), dp.fs.Eff(), dp.sclust, j, q)
    ensures res != Ok && Reachable(dp.fs.g, dp.fs.Fat(), dp.sclust, 0) ==> forall j: nat ::
      Live(dp.fs.g, dp.fs.Fat(), dp.fs.Eff(), dp.sclust, j) ==>
        !Answers(dp.fs.g, dp.fs.Fat(), dp.fs.Eff(), dp.sclust, j, q)
    ensures Reachable(dp.fs.g, dp.fs.Fat(), dp.sclust, 0) ==>
      && var (r, k', st) := FindFrom(dp.fs.g, dp.fs.Fat(), dp.fs.Eff(), dp.sclust, 0, Reset, q);
         && res == r && k == k' && st.blk == blk
         && (res == Ok ==> dp.Valid() && dp.sect != 0 && dp.dptr == SZDIRE * k)
  {
    hide Live, Answers, FatOf, Flush, Geometry.DataEnd, Geometry.ClusterSector, Geometry.Valid, Mirrored, Forest,
      PlaceOf, Off, Zeros, Healthy, Reachable, CursorAt, FindEntry, EntryAt, NextCursor;
    Bases(dp.fs.g);
    ghost var f, e := dp.fs.Fat(), dp.fs.Eff();
    k, blk := 0, NO_LFN;
    res := dp.Seek(0);
    if res != Ok {
      return;
    }
    CursorThere(dp.fs.g, f, dp.sclust, 0);
    FoundFirst(dp.fs.g, f, e, dp.sclust, q);
    var st := Reset;
    while true
      invariant dp.Valid() && dp.fs.Valid() && dp.sect != 0 && dp.fs.Eff() == e
        && (old(Healthy(dp.fs)) ==> Healthy(dp.fs))
      invariant dp.dptr == SZDIRE * k < MAX_DIR
      invariant FindFrom(dp.fs.g, f, e, dp.sclust, 0, Reset, q) == FindFrom(dp.fs.g, f, e, dp.sclust, k, st, q)
      decreases MAX_DIR - SZDIRE * k
    {
      Bring(dp);
      UnderCursor(dp, k);
      var m := FindOne(lfnbuf, dp.fs.win[dp.dir..dp.dir + SZDIRE], dp.dptr, st, q);
      if m.NoMore? {
        return NoFile, st.blk, k;
      }
      st := m.st;
      if m.Hit? {
        return Ok, st.blk, k;
      }
      NextOf(dp.fs.g, f, dp.sclust, k);
      res := dp.Next(false);
      if res != Ok {
        return res, st.blk, k;
      }
      k := k + 1;
    }
  }

  // ----- what a search answers -----

  /** A whole long name that matches lies right in front of entry `k`, with its checksum. */
  ghost predicate LongBefore(g: Geometry, f: Table, e: Disk, sclust: nat, lo: nat, k: nat, q: Query)
    requires g.csize > 0 && q.Valid()
  {
    && Counting(g, f, e, sclust, lo, k, q.Parts()) && Order(EntryAt(g, f, e, sclust, lo)) == k - lo
    && EntryAt(g, f, e, sclust, lo)[13] == SumFrom(0, EntryAt(g, f, e, sclust, k)[..11])
  }

  /** Entry `k` is that of a file with the name that is looked for: its long name matches, or,
      if the name has a short form, its eleven bytes are the same. */
  ghost predicate Answers(g: Geometry, f: Table, e: Disk, sclust: nat, k: nat, q: Query)
    requires g.csize > 0 && q.Valid()
  {
    && Short(EntryAt(g, f, e, sclust, k))
    && ((q.fn[11] / 64 % 2 == 0 && exists lo :: LongBefore(g, f, e, sclust, lo, k, q))
        || (q.fn[11] % 2 == 0 && EntryAt(g, f, e, sclust, k)[..11] == q.fn[..11]))
  }

  /** The table has entry `k`, and no end mark up to it. */
  ghost predicate Live(g: Geometry, f: Table, e: Disk, sclust: nat, k: nat)
    requires g.csize > 0
  {
    Reachable(g, f, sclust, SZDIRE * k) && forall j :: 0 <= j <= k ==> EntryAt(g, f, e, sclust, j)[0] != 0
  }

  /** What dir_find knows in front of entry `k`. */
  ghost predicate Knows(g: Geometry, f: Table, e: Disk, sclust: nat, k: nat, st: FindState, q: Query)
    requires g.csize > 0 && q.Valid()
  {
    if q.fn[11] / 64 % 2 == 1 then st.ord == 0xFF
    else
      && (st.ord != 0xFF ==> exists lo :: Counting(g, f, e, sclust, lo, k, q.Parts()))
      && forall lo :: Counting(g, f, e, sclust, lo, k, q.Parts()) ==>
        Known(EntryAt(g, f, e, sclust, lo), lo, k, st.ord, st.sum, st.blk)
  }

  /** One entry: what is known in front of the next, or that this one answers. */
  lemma {:induction false} FindStep(g: Geometry, f: Table, e: Disk, sclust: nat, k: nat, st: FindState, q: Query)
    requires g.csize > 0 && q.Valid() && Knows(g, f, e, sclust, k, st, q)
    ensures match FindEntry(st, EntryAt(g, f, e, sclust, k), SZDIRE * k, q)
      case NoMore => EntryAt(g, f, e, sclust, k)[0] == 0
      case Hit(_) => EntryAt(g, f, e, sclust, k)[0] != 0 && Answers(g, f, e, sclust, k, q)
      case Go(st') =>
        && EntryAt(g, f, e, sclust, k)[0] != 0 && !Answers(g, f, e, sclust, k, q)
        && Knows(g, f, e, sclust, k + 1, st', q)
  {
    hide EntryAt, Query.Parts, Test.Fits, Matches, Knows, Answers, FindEntry;
    var x := EntryAt(g, f, e, sclust, k);
    FindPlain(st, x, SZDIRE * k, q);
    NotShort(g, f, e, sclust, k, q);
    if Long(x) {
      if q.fn[11] / 64 % 2 == 0 {
        LongStep(g, f, e, sclust, k, st, q);
      } else {
        NoLongStep(g, f, e, sclust, k, st, q);
      }
    } else if Short(x) {
      ShortStep(g, f, e, sclust, k, st, q);
    } else if x[0] != 0 {
      Interrupted(g, f, e, sclust, k, FindState(0xFF, st.sum, NO_LFN), q);
    }
  }

  /** Entries that are no file. */
  lemma FindPlain(st: FindState, x: Entry, p: nat, q: Query)
    requires q.Valid()
    ensures x[0] == 0 ==> FindEntry(st, x, p, q) == NoMore && !Short(x) && !Long(x)
    ensures x[0] != 0 && !Short(x) && !Long(x) ==> FindEntry(st, x, p, q) == Go(FindState(0xFF, st.sum, NO_LFN))
    ensures Long(x) && q.fn[11] / 64 % 2 == 1 ==> FindEntry(st, x, p, q) == Go(st)
    ensures Long(x) ==> !Short(x)
  {
    hide Matches, SumFrom;
    AttrBits(x[11]);
  }

  lemma AttrBits(b: byte)
    ensures b % 64 / 8 % 2 == b / 8 % 2 && (b % 64 == 15 ==> b / 8 % 2 == 1)
  {
  }

  lemma NotShort(g: Geometry, f: Table, e: Disk, sclust: nat, k: nat, q: Query)
    requires g.csize > 0 && q.Valid()
    ensures Answers(g, f, e, sclust, k, q) ==> Short(EntryAt(g, f, e, sclust, k))
  {
    hide EntryAt, LongBefore;
  }

  lemma NoLongStep(g: Geometry, f: Table, e: Disk, sclust: nat, k: nat, st: FindState, q: Query)
    requires g.csize > 0 && q.Valid() && q.fn[11] / 64 % 2 == 1 && Knows(g, f, e, sclust, k, st, q)
    ensures Knows(g, f, e, sclust, k + 1, st, q)
  {
  }

  /** An entry that is no part of a long name ends the counting. */
  lemma {:induction false} Interrupted(g: Geometry, f: Table, e: Disk, sclust: nat, k: nat, st: FindState, q: Query)
    requires g.csize > 0 && q.Valid() && !Long(EntryAt(g, f, e, sclust, k)) && st.ord == 0xFF
    ensures Knows(g, f, e, sclust, k + 1, st, q)
  {
    hide EntryAt, Query.Parts, Test.Fits, Matches, Known, Counting;
    var k1 := k + 1;
    forall lo ensures !Counting(g, f, e, sclust, lo, k1, q.Parts()) {
      if Counting(g, f, e, sclust, lo, k1, q.Parts()) {
        CountingBack(g, f, e, sclust, lo, k, q.Parts());
      }
    }
  }

  lemma {:induction false} ShortStep(g: Geometry, f: Table, e: Disk, sclust: nat, k: nat, st: FindState, q: Query)
    requires g.csize > 0 && q.Valid() && Knows(g, f, e, sclust, k, st, q) && Short(EntryAt(g, f, e, sclust, k))
    ensures match FindEntry(st, EntryAt(g, f, e, sclust, k), SZDIRE * k, q)
      case NoMore => false
      case Hit(_) => Answers(g, f, e, sclust, k, q)
      case Go(st') => !Answers(g, f, e, sclust, k, q) && Knows(g, f, e, sclust, k + 1, st', q)
  {
    hide EntryAt, Query.Parts, Test.Fits, SumFrom, Counting, FindEntry;
    var x := EntryAt(g, f, e, sclust, k);
    ShortIs(st, x, SZDIRE * k, q);
    Interrupted(g, f, e, sclust, k, FindState(0xFF, st.sum, NO_LFN), q);
    if q.fn[11] / 64 % 2 == 0 {
      if st.ord == 0 && st.sum == SumFrom(0, x[..11]) {
        var lo :| Counting(g, f, e, sclust, lo, k, q.Parts());
        assert LongBefore(g, f, e, sclust, lo, k, q);
      }
    }
  }

  lemma ShortIs(st: FindState, x: Entry, p: nat, q: Query)
    requires q.Valid() && Short(x)
    ensures !Long(x)
    ensures FindEntry(st, x, p, q) ==
      if (st.ord == 0 && st.sum == SumFrom(0, x[..11])) || (q.fn[11] % 2 == 0 && x[..11] == q.fn[..11]) then Hit(st)
      else Go(FindState(0xFF, st.sum, NO_LFN))
  {
    hide SumFrom, Matches;
    AttrBits(x[11]);
  }

  lemma {:induction false} LongStep(g: Geometry, f: Table, e: Disk, sclust: nat, k: nat, st: FindState, q: Query)
    requires g.csize > 0 && q.Valid() && Knows(g, f, e, sclust, k, st, q) && Long(EntryAt(g, f, e, sclust, k))
    requires q.fn[11] / 64 % 2 == 0
    ensures var m := FindEntry(st, EntryAt(g, f, e, sclust, k), SZDIRE * k, q);
      m.Go? && Knows(g, f, e, sclust, k + 1, m.st, q)
  {
    hide EntryAt, Query.Parts, Test.Fits, Matches, CountsAt;
    var x := EntryAt(g, f, e, sclust, k);
    FitsMatches(x, q);
    var st' := FindEntry(st, x, SZDIRE * k, q).st;
    forall lo | Counting(g, f, e, sclust, lo, k + 1, q.Parts())
      ensures Known(EntryAt(g, f, e, sclust, lo), lo, k + 1, st'.ord, st'.sum, st'.blk)
    {
      CountingBack(g, f, e, sclust, lo, k, q.Parts());
      CountsIs(g, f, e, sclust, lo, k, q.Parts());
    }
    if st'.ord != 0xFF {
      if x[0] / 64 % 2 == 1 {
        assert CountsAt(g, f, e, sclust, k, k, q.Parts()) by {
          StartsAt(g, f, e, sclust, k, q.Parts());
        }
        CountingOn(g, f, e, sclust, k, k, q.Parts());
      } else {
        NotLastOrder(x);
        var lo :| Counting(g, f, e, sclust, lo, k, q.Parts());
        GoesOn(g, f, e, sclust, lo, k, q.Parts());
        CountingOn(g, f, e, sclust, lo, k, q.Parts());
      }
    }
  }

  lemma FitsMatches(x: Entry, q: Query)
    requires q.Valid()
    ensures q.Parts().Fits(x) <==> Matches(q.buf, x, q.up)
  {
  }

  /** The search ends at the first entry that answers, or where the table ends. */
  lemma {:induction false} FindExact(g: Geometry, f: Table, e: Disk, sclust: nat, k: nat, st: FindState, q: Query)
    requires g.Valid() && |f| == g.nFatEnt && q.Valid() && Reachable(g, f, sclust, SZDIRE * k) && SZDIRE * k < MAX_DIR
    requires Knows(g, f, e, sclust, k, st, q)
    ensures var (r, k', st') := FindFrom(g, f, e, sclust, k, st, q);
      && k <= k' && Reachable(g, f, sclust, SZDIRE * k')
      && (forall j :: k <= j < k' ==> EntryAt(g, f, e, sclust, j)[0] != 0 && !Answers(g, f, e, sclust, j, q))
      && (r == Ok ==> EntryAt(g, f, e, sclust, k')[0] != 0 && Answers(g, f, e, sclust, k', q))
      && (r != Ok ==>
            || EntryAt(g, f, e, sclust, k')[0] == 0
            || (!Answers(g, f, e, sclust, k', q) && !Reachable(g, f, sclust, SZDIRE * (k' + 1))))
    decreases MAX_DIR - SZDIRE * k
  {
    hide EntryAt, Query.Parts, Test.Fits, Matches, Reachable, FindEntry, Answers, Knows, Geometry.Valid, NextCursor,
      CursorAt;
    Bases(g);
    FindStep(g, f, e, sclust, k, st, q);
    NextOf(g, f, sclust, k);
    var m := FindEntry(st, EntryAt(g, f, e, sclust, k), SZDIRE * k, q);
    if m.Go? && Reachable(g, f, sclust, SZDIRE * (k + 1)) {
      FindExact(g, f, e, sclust, k + 1, m.st, q);
    }
  }

  lemma KnowsNothing(g: Geometry, f: Table, e: Disk, sclust: nat, q: Query)
    requires g.csize > 0 && q.Valid()
    ensures Knows(g, f, e, sclust, 0, Reset, q)
  {
  }

  /** Of the whole table: the first entry that answers, if there is one before an end mark. */
  lemma {:induction false} FoundFirst(g: Geometry, f: Table, e: Disk, sclust: nat, q: Query)
    requires g.Valid() && |f| == g.nFatEnt && q.Valid() && Reachable(g, f, sclust, 0)
    ensures var (r, k, st) := FindFrom(g, f, e, sclust, 0, Reset, q);
      && (r == Ok ==> Live(g, f, e, sclust, k) && Answers(g, f, e, sclust, k, q)
                      && forall j :: 0 <= j < k ==> !Answers(g, f, e, sclust, j, q))
      && (r != Ok ==> forall j: nat :: Live(g, f, e, sclust, j) ==> !Answers(g, f, e, sclust, j, q))
  {
    hide EntryAt, Reachable, FindFrom, Answers, Knows, Geometry.Valid;
    Bases(g);
    KnowsNothing(g, f, e, sclust, q);
    FindExact(g, f, e, sclust, 0, Reset, q);
    var (r, k, st) := FindFrom(g, f, e, sclust, 0, Reset, q);
    if r != Ok {
      forall j: nat | Live(g, f, e, sclust, j) ensures !Answers(g, f, e, sclust, j, q) {
        if j > k {
          ReachableDown(g, f, sclust, k + 1, j);
        }
      }
    }
  }

  /** The state of dir_find behind the parts down to order `ord`. */
  ghost predicate Matched(st: FindState, name: seq<word>, sum: byte, ord: nat, p: nat) {
    st.blk == p && if |name| <= 254 then st.ord == ord && st.sum == sum else st.ord == 0xFF
  }

  lemma {:induction false} FindPart(st: FindState, e: Entry, q: Query, name: seq<word>, sum: byte, ord: byte, p: nat,
      at: nat)
    requires q.Valid() && !q.NoLong() && Holds(q.buf, name)
    requires Plain(name) && |name| <= MAX_LFN && 0 < ord && (ord - 1) * 13 < |name| && IsPart(e, name, ord, sum)
    requires if |name| <= ord * 13 then p == at else Matched(st, name, sum, ord, p)
    ensures var s := FindEntry(st, e, at, q); s.Go? && Matched(s.st, name, sum, ord - 1, p)
  {
    hide IsPart, Chars, Count, Padded, LoadWord, Matches, Holds;
    PartChars(e, name, ord, sum);
    PartWord(e, name, ord, sum);
    MatchPart(q.buf, e, name, ord, sum, q.up);
    PartFirst(e, name, ord, sum);
  }

  lemma {:induction false} FindShort(st: FindState, fn: seq<byte>, q: Query, name: seq<word>, p: nat, at: nat)
    requires q.Valid() && q.Loss() && |fn| == 12 && fn[0] != 0 && fn[0] != DDEM
    requires Matched(st, name, SumFrom(0, fn[..11]), 0, p)
    ensures FindEntry(st, ShortEntry(fn), at, q) == if |name| <= 254 then Hit(st)
      else Go(FindState(0xFF, st.sum, NO_LFN))
  {
    assert ShortEntry(fn)[..11] == fn[..11];
  }

  lemma {:induction false} FindBlock(g: Geometry, f: Table, e: Disk, sclust: nat, k: nat, cnt: nat, d: nat,
      st: FindState, q: Query, name: seq<word>, fn: seq<byte>)
    requires g.csize > 0 && q.Valid() && !q.NoLong() && q.Loss() && Holds(q.buf, name)
    requires Plain(name) && 0 < |name| <= MAX_LFN && |fn| == 12 && fn[0] != 0 && fn[0] != DDEM
    requires d <= cnt == (|name| + 12) / 13 && RunThere(g, f, sclust, k, k + cnt)
    requires Parts(g, f, e, sclust, k, cnt, cnt, name, SumFrom(0, fn[..11]))
      && EntryAt(g, f, e, sclust, k + cnt) == ShortEntry(fn)
    requires d > 0 ==> Matched(st, name, SumFrom(0, fn[..11]), cnt - d, SZDIRE * k)
    requires SZDIRE * (k + d) < MAX_DIR
    ensures var (r, k', st') := FindFrom(g, f, e, sclust, k + d, st, q);
      (r == Ok && k' == k + cnt && st'.blk == SZDIRE * k) <==> |name| <= 254
    decreases cnt - d
  {
    hide PlaceOf, Off, IsPart, FindEntry, EntryAt, ShortEntry, Reachable, Holds;
    var sum := SumFrom(0, fn[..11]);
    if d < cnt {
      assert PartAt(g, f, e, sclust, k, cnt, d, name, sum);
      FindPart(st, EntryAt(g, f, e, sclust, k + d), q, name, sum, cnt - d, SZDIRE * k, SZDIRE * (k + d));
      assert Reachable(g, f, sclust, SZDIRE * (k + (d + 1)));
      InLimit(g, f, sclust, SZDIRE * (k + (d + 1)));
      var st1 := FindEntry(st, EntryAt(g, f, e, sclust, k + d), SZDIRE * (k + d), q).st;
      FindBlock(g, f, e, sclust, k, cnt, d + 1, st1, q, name, fn);
    } else {
      FindShort(st, fn, q, name, SZDIRE * k, SZDIRE * (k + d));
      if |name| > 254 && Reachable(g, f, sclust, SZDIRE * (k + cnt + 1)) {
        InLimit(g, f, sclust, SZDIRE * (k + cnt + 1));
        FindBeyond(g, f, e, sclust, k + cnt + 1, FindState(0xFF, st.sum, NO_LFN), q);
      }
    }
  }

  /** dir_find stops at or behind the entry it looks at. */
  lemma {:induction false} FindBeyond(g: Geometry, f: Table, e: Disk, sclust: nat, k: nat, st: FindState, q: Query)
    requires g.csize > 0 && q.Valid() && SZDIRE * k < MAX_DIR
    ensures FindFrom(g, f, e, sclust, k, st, q).1 >= k
    decreases MAX_DIR - SZDIRE * k
  {
    hide PlaceOf, Off, FindEntry, EntryAt, Reachable;
    var m := FindEntry(st, EntryAt(g, f, e, sclust, k), SZDIRE * k, q);
    if m.Go? && Reachable(g, f, sclust, SZDIRE * (k + 1)) {
      InLimit(g, f, sclust, SZDIRE * (k + 1));
      FindBeyond(g, f, e, sclust, k + 1, m.st, q);
    }
  }

  /** A search for a registered long name that reaches its first entry ends at its short
      entry exactly when the name has at most 254 units, whatever the case mapping. */
  lemma {:induction false} RegisteredIsFound(g: Geometry, f: Table, e1: Disk, e: Disk, sclust: nat, last: nat,
      name: seq<word>, fn: seq<byte>, st: FindState, q: Query)
    requires g.csize > 0 && q.Valid() && !q.NoLong() && q.Loss() && Holds(q.buf, name)
    requires Plain(name) && 0 < |name| <= MAX_LFN && |fn| == 12 && fn[0] != 0 && fn[0] != DDEM
    requires fn[11] / 2 % 2 == 1 && Intact(g, f, sclust)
    requires Registered(g, f, e1, e, sclust, last, LongCount(|name|, fn[11]), name, fn)
    ensures var k := last - LongCount(|name|, fn[11]);
      && Reachable(g, f, sclust, SZDIRE * k) && SZDIRE * k < MAX_DIR
      && var (r, k', st') := FindFrom(g, f, e, sclust, k, st, q);
         (r == Ok && k' == last && st'.blk == SZDIRE * k) <==> |name| <= 254
  {
    hide PlaceOf, Off, IsPart, EntryAt, ShortEntry, Reachable, RunEnds, Rewritten, Intact, FindFrom, Holds, Parts;
    var cnt := LongCount(|name|, fn[11]);
    assert Reachable(g, f, sclust, SZDIRE * (last - cnt));
    InLimit(g, f, sclust, SZDIRE * (last - cnt));
    FindBlock(g, f, e, sclust, last - cnt, cnt, 0, st, q, name, fn);
  }

  /** The search from an earlier entry, with no end mark in between, ends with a hit before
      entry `first` or arrives there. */
  lemma {:induction false} FindAhead(g: Geometry, f: Table, e: Disk, sclust: nat, k: nat, first: nat, st: FindState,
      q: Query)
    returns (st': FindState)
    requires g.csize > 0 && q.Valid() && k <= first && RunThere(g, f, sclust, k, first) && SZDIRE * k < MAX_DIR
    requires forall i :: k <= i < first ==> EntryAt(g, f, e, sclust, i)[0] != 0
    ensures SZDIRE * first < MAX_DIR
    ensures var r := FindFrom(g, f, e, sclust, k, st, q);
      (r.0 == Ok && k <= r.1 < first) || r == FindFrom(g, f, e, sclust, first, st', q)
    decreases first - k
  {
    hide PlaceOf, Off, EntryAt, Reachable, NextCursor, Matches;
    st' := st;
    assert Reachable(g, f, sclust, SZDIRE * first);
    InLimit(g, f, sclust, SZDIRE * first);
    if k < first {
      var m := FindEntry(st, EntryAt(g, f, e, sclust, k), SZDIRE * k, q);
      if m.Go? {
        assert Reachable(g, f, sclust, SZDIRE * (k + 1));
        InLimit(g, f, sclust, SZDIRE * (k + 1));
        st' := FindAhead(g, f, e, sclust, k + 1, first, m.st, q);
      }
    }
  }

  /** dir_find of a registered long name, which starts at the first entry of the table, ends at
      an entry in front of it that answers the search too, or else at its short entry, and
      that exactly when the name has at most 254 units. */
  lemma {:induction false} RegisteredIsSought(g: Geometry, f: Table, e1: Disk, e: Disk, sclust: nat, last: nat,
      name: seq<word>, fn: seq<byte>, q: Query)
    requires g.Valid() && |f| == g.nFatEnt && g.DataEnd() <= |e1| && Closed(g, f, e1, sclust)
    requires q.Valid() && !q.NoLong() && q.Loss() && Holds(q.buf, name)
    requires Plain(name) && 0 < |name| <= MAX_LFN && Named(fn) && fn[11] / 2 % 2 == 1 && Intact(g, f, sclust)
    requires Registered(g, f, e1, e, sclust, last, LongCount(|name|, fn[11]), name, fn)
    ensures var first := last - LongCount(|name|, fn[11]);
      var (r, k, st) := FindFrom(g, f, e, sclust, 0, Reset, q);
      || (r == Ok && k < first)
      || ((r == Ok && k == last && st.blk == SZDIRE * first) <==> |name| <= 254)
  {
    hide PlaceOf, Off, IsPart, EntryAt, ShortEntry, Reachable, RunEnds, Rewritten, Intact, FindFrom, Holds, Parts,
      FindEntry, Closed, FirstRun, Geometry.Valid, Geometry.DataEnd;
    Bases(g);
    var cnt := LongCount(|name|, fn[11]);
    RegisteredClosed(g, f, e1, e, sclust, last, cnt, name, fn);
    RunDown(g, f, sclust, last);
    var st1 := FindAhead(g, f, e, sclust, 0, last - cnt, Reset, q);
    RegisteredIsFound(g, f, e1, e, sclust, last, name, fn, st1, q);
  }

  /** On a sound volume dir_register leaves the table of an existing directory intact. */
  lemma {:induction false} RegisteredIntact(g: Geometry, f0: Table, e0: Disk, f: Table, e1: Disk, sclust: nat)
    requires Lengthened(g, f0, e0, f, e1) && Forest(f)
    requires TableStart(g, sclust) == 0 || (InRange(f0, TableStart(g, sclust)) && f0[TableStart(g, sclust)] != 0)
    ensures Intact(g, f, sclust)
  {
    if TableStart(g, sclust) != 0 {
      assert f[TableStart(g, sclust)] != 0;
    }
  }

  // ----- removing -----

  /** Entries `lo` to `hi` - 1 are marked as deleted; nothing else of them changed. */
  ghost predicate Deleted(g: Geometry, f: Table, e1: Disk, e: Disk, sclust: nat, lo: nat, hi: nat)
    requires g.csize > 0
  {
    forall j :: lo <= j < hi ==> EntryAt(g, f, e, sclust, j) == EntryAt(g, f, e1, sclust, j)[0 := DDEM]
  }

  lemma {:induction false} DeletedMore(g: Geometry, f: Table, e1: Disk, e: Disk, e': Disk, sclust: nat, lo: nat,
      k: nat, last: nat)
    requires g.Valid() && |f| == g.nFatEnt && Intact(g, f, sclust) && lo <= k <= last
      && RunThere(g, f, sclust, lo, last)
    requires Deleted(g, f, e1, e, sclust, lo, k) && Rewritten(g, f, e1, e, sclust, lo, k)
    requires Written(g, f, e, e', sclust, k, EntryAt(g, f, e, sclust, k)[0 := DDEM])
    ensures Deleted(g, f, e1, e', sclust, lo, k + 1)
  {
    hide PlaceOf, Intact, Off, Geometry.Valid, EntryAt;
    Bases(g);
    forall j | lo <= j < k + 1 ensures EntryAt(g, f, e', sclust, j) == EntryAt(g, f, e1, sclust, j)[0 := DDEM] {
      assert Reachable(g, f, sclust, SZDIRE * j);
      WrittenEntries(g, f, e, e', sclust, k, EntryAt(g, f, e, sclust, k)[0 := DDEM], j);
    }
  }

  /** Marks the entry under the cursor. */
  method MarkDeleted(dp: Dir, ghost k: nat)
    requires dp.Valid() && dp.sect != 0 && dp.dptr == SZDIRE * k
    modifies dp.fs`disk, dp.fs`wflag, dp.fs`winsect, dp.fs.win
    ensures dp.Valid() && dp.fs.Fat() == old(dp.fs.Fat()) && (old(Healthy(dp.fs)) ==> Healthy(dp.fs))
    ensures Written(dp.fs.g, dp.fs.Fat(), old(dp.fs.Eff()), dp.fs.Eff(), dp.sclust, k,
      EntryAt(dp.fs.g, dp.fs.Fat(), old(dp.fs.Eff()), dp.sclust, k)[0 := DDEM])
  {
    hide FatOf, Flush, Geometry.DataEnd, Geometry.ClusterSector, Mirrored, Forest, PlaceOf, Off, Zeros, Written,
      Healthy, EntryAt;
    Ready(dp);
    Bring(dp);
    UnderCursor(dp, k);
    label here:
    ghost var w := dp.fs.win[dp.dir..dp.dir + SZDIRE];
    dp.fs.win[dp.dir] := DDEM;
    dp.fs.wflag := true;
    Poked@here(dp);
    assert dp.fs.win[dp.dir..dp.dir + SZDIRE] == w[0 := DDEM];
  }

  /** dir_remove: the entries of the object, from `blk` or, without a long name, only the
      one under the cursor. */
  method Remove(dp: Dir, blk: nat) returns (res: FResult)
    requires dp.Valid() && dp.sect != 0 && (blk == NO_LFN || (blk % SZDIRE == 0 && blk <= dp.dptr))
    modifies dp, dp.fs, dp.fs.win
    ensures res == Ok && dp.fs.Valid() && dp.fs.Fat() == old(dp.fs.Fat()) && (old(Healthy(dp.fs)) ==> Healthy(dp.fs))
    ensures var last := old(dp.dptr) / SZDIRE;
      var lo := if blk == NO_LFN then last else blk / SZDIRE;
      && Rewritten(dp.fs.g, dp.fs.Fat(), old(dp.fs.Eff()), dp.fs.Eff(), dp.sclust, lo, last + 1)
      && (Intact(dp.fs.g, dp.fs.Fat(), dp.sclust) ==>
            Deleted(dp.fs.g, dp.fs.Fat(), old(dp.fs.Eff()), dp.fs.Eff(), dp.sclust, lo, last + 1))
  {
    hide FatOf, Flush, Geometry.DataEnd, Geometry.ClusterSector, Geometry.Valid, Mirrored, Forest, PlaceOf, Off,
      Zeros, Written, Healthy, Rewritten, Deleted, Intact, NextCursor, EntryAt, Reachable, CursorAt;
    var last := dp.dptr;
    Ready(dp);
    Bases(dp.fs.g);
    ghost var f, e1 := dp.fs.Fat(), dp.fs.Eff();
    ghost var k1 := last / SZDIRE;
    ghost var lo := if blk == NO_LFN then k1 else blk / SZDIRE;
    ReachableDown(dp.fs.g, f, dp.sclust, lo, k1);
    RewrittenNone(dp.fs.g, f, e1, dp.sclust, lo, 0, [], 0);
    DeletedNone(dp.fs.g, f, e1, dp.sclust, lo);
    if blk != NO_LFN {
      assert Reachable(dp.fs.g, f, dp.sclust, SZDIRE * lo);
      res := dp.Seek(blk);
      CursorThere(dp.fs.g, f, dp.sclust, SZDIRE * lo);
    }
    ghost var k := lo;
    while true
      invariant dp.Valid() && dp.fs.Valid() && dp.sect != 0 && dp.fs.Fat() == f
        && (old(Healthy(dp.fs)) ==> Healthy(dp.fs))
      invariant lo <= k <= k1 && dp.dptr == SZDIRE * k && last == SZDIRE * k1
      invariant Rewritten(dp.fs.g, f, e1, dp.fs.Eff(), dp.sclust, lo, k)
      invariant Intact(dp.fs.g, f, dp.sclust) ==> Deleted(dp.fs.g, f, e1, dp.fs.Eff(), dp.sclust, lo, k)
      decreases k1 - k
    {
      ghost var e := dp.fs.Eff();
      MarkDeleted(dp, k);
      RewrittenMore(dp.fs.g, f, e1, e, dp.fs.Eff(), dp.sclust, lo, k, EntryAt(dp.fs.g, f, e, dp.sclust, k)[0 := DDEM]);
      if Intact(dp.fs.g, f, dp.sclust) {
        DeletedMore(dp.fs.g, f, e1, e, dp.fs.Eff(), dp.sclust, lo, k, k1);
      }
      if dp.dptr >= last {
        break;
      }
      assert Reachable(dp.fs.g, f, dp.sclust, SZDIRE * k) && Reachable(dp.fs.g, f, dp.sclust, SZDIRE * (k + 1));
      CursorThere(dp.fs.g, f, dp.sclust, SZDIRE * (k + 1));
      NextThere(dp.fs.g, f, dp.sclust, k);
      res := dp.Next(false);
      k := k + 1;
    }
    res := Ok;
  }

  lemma DeletedNone(g: Geometry, f: Table, e: Disk, sclust: nat, lo: nat)
    requires g.csize > 0
    ensures Deleted(g, f, e, e, sclust, lo, lo)
  {
  }

  /** A table that has an entry has all entries before it. */
  lemma {:induction false} ReachableDown(g: Geometry, f: Table, sclust: nat, lo: nat, k: nat)
    requires g.Valid() && |f| == g.nFatEnt && Reachable(g, f, sclust, SZDIRE * k) && lo <= k
    ensures RunThere(g, f, sclust, lo, k)
    decreases k - lo
  {
    hide PlaceOf;
    Bases(g);
    if lo < k {
      assert SZDIRE * k == SZDIRE * (k - 1) + SZDIRE;
      ReachableBefore(g, f, sclust, SZDIRE * (k - 1));
      ReachableDown(g, f, sclust, lo, k - 1);
    }
  }

  /** Removing what was registered frees its whole run again and gives every other entry
      of the table back as dir_alloc left it. */
  lemma {:induction false} RemoveUndoesRegister(g: Geometry, f: Table, e1: Disk, e: Disk, e': Disk, sclust: nat,
      last: nat, cnt: nat, name: seq<word>, fn: seq<byte>)
    requires g.Valid() && |f| == g.nFatEnt && Intact(g, f, sclust) && |fn| == 12
    requires Registered(g, f, e1, e, sclust, last, cnt, name, fn)
    requires Rewritten(g, f, e, e', sclust, last - cnt, last + 1) && Deleted(g, f, e, e', sclust, last - cnt, last + 1)
    ensures RunEnds(g, f, e', sclust, last, cnt + 1)
    ensures forall j: nat :: !(last - cnt <= j <= last) && PlaceOf(g, f, sclust, SZDIRE * j).sect != 0 ==>
      EntryAt(g, f, e', sclust, j) == EntryAt(g, f, e1, sclust, j)
  {
    hide PlaceOf, Off, Intact, Parts, Geometry.Valid, ShortEntry;
    Bases(g);
    forall j | last + 1 - (cnt + 1) <= j <= last ensures FreeAt(g, f, e', sclust, j) {
      assert FreeAt(g, f, e1, sclust, j);
      EntryFits(j);
      assert EntryAt(g, f, e', sclust, j)[0] == DDEM;
    }
  }

  /** Removing keeps the end marks in place. */
  lemma {:induction false} RemovedClosed(g: Geometry, f: Table, e1: Disk, e: Disk, sclust: nat, lo: nat, last: nat)
    requires g.Valid() && |f| == g.nFatEnt && Intact(g, f, sclust) && g.DataEnd() <= |e1| && Closed(g, f, e1, sclust)
    requires Rewritten(g, f, e1, e, sclust, lo, last + 1) && Deleted(g, f, e1, e, sclust, lo, last + 1)
    ensures Closed(g, f, e, sclust)
  {
    hide PlaceOf, Off, Intact, EntryAt, Geometry.Valid, Geometry.DataEnd, EndAt, FreeAt, Reachable, Rewritten;
    Bases(g);
    forall i: nat, j: nat | i < j && EndAt(g, f, e, sclust, i) && Reachable(g, f, sclust, SZDIRE * j)
      ensures FreeAt(g, f, e, sclust, j)
    {
      ReachableDown(g, f, sclust, i, j);
      assert Reachable(g, f, sclust, SZDIRE * i);
      ThereSame(g, f, e1, e, sclust, lo, last + 1, i);
      ThereSame(g, f, e1, e, sclust, lo, last + 1, j);
      ThereFree(g, f, e, sclust, i);
      ThereFree(g, f, e, sclust, j);
    }
  }

  /** What was removed is neither listed nor found any more, and its entries are free. */
  lemma RemovedUnseen(g: Geometry, f: Table, e1: Disk, e: Disk, sclust: nat, lo: nat, hi: nat, j: nat, q: Query)
    requires g.csize > 0 && q.Valid() && Deleted(g, f, e1, e, sclust, lo, hi) && lo <= j < hi
    ensures !Listed(EntryAt(g, f, e, sclust, j)) && !Answers(g, f, e, sclust, j, q)
    ensures EntryAt(g, f, e, sclust, j)[0] == 0xE5
  {
    hide EntryAt, LongBefore;
    assert EntryAt(g, f, e, sclust, j) == EntryAt(g, f, e1, sclust, j)[0 := DDEM];
  }
}
