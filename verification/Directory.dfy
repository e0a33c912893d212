/** Directory tables: the cursor that dir_sdi sets and dir_next advances, and the search
    of dir_alloc for a run of free entries, which may stretch the table. */
module Directory {
  import opened Bytes
  import opened Layout
  import opened FatTable
  import opened Volume
  import opened Clusters
  import opened FileData

  const SZDIRE: nat := 32
  const MAX_DIR: nat := 0x20_0000
  const DDEM: byte := 0xE5

  /** The cluster reached from `c` over `m` links, 0 if the links leave the table before. */
  function Walk(f: Table, c: nat, m: nat): nat {
    if m == 0 then c
    else
      var d := Walk(f, c, m - 1);
      if InRange(f, d) && InRange(f, f[d]) then f[d] else 0
  }

  /** The start of the table: on FAT32 the root directory is a chain too. */
  function TableStart(g: Geometry, sclust: nat): nat {
    if sclust == 0 && g.kind == Fat32 then g.dirBase else sclust
  }

  datatype Place = Place(clust: nat, sect: nat)

  /** Where the byte at offset `p` of the table lies; sector 0 if the table has no such byte. */
  function PlaceOf(g: Geometry, f: Table, sclust: nat, p: nat): Place
    requires g.csize > 0
  {
    var st := TableStart(g, sclust);
    if st == 0 then Place(0, if p / SZDIRE >= g.nRootDir then 0 else g.dirBase + Sec(p))
    else
      var c := Walk(f, st, ClusterIndex(g, p));
      Place(c, if !g.ValidCluster(c) then 0 else g.ClusterSector(c) + SectorInCluster(g, p))
  }

  /** The fields of a directory object that move. */
  datatype Cursor = Cursor(dptr: nat, clust: nat, sect: nat)

  /** The cursor at table offset `p`. */
  function CursorAt(g: Geometry, f: Table, sclust: nat, p: nat): Cursor
    requires g.csize > 0
  {
    var pl := PlaceOf(g, f, sclust, p);
    Cursor(p, pl.clust, pl.sect)
  }

  /** Some byte of the table has offset `p`, and it may be asked for. */
  predicate Reachable(g: Geometry, f: Table, sclust: nat, p: nat)
    requires g.csize > 0
  {
    p < MAX_DIR && p % SZDIRE == 0 && PlaceOf(g, f, sclust, p).sect != 0
  }

  /** What dir_next does to the cursor when it may not stretch the table. */
  function NextCursor(g: Geometry, f: Table, cur: Cursor): (FResult, Cursor)
    requires g.csize > 0
  {
    var ofs := cur.dptr + SZDIRE;
    if cur.sect == 0 || ofs >= MAX_DIR then (NoFile, cur)
    else if Off(ofs) != 0 then (Ok, cur.(dptr := ofs))
    else if cur.clust == 0 then
      if ofs / SZDIRE >= g.nRootDir then (NoFile, cur.(sect := 0)) else (Ok, cur.(dptr := ofs, sect := cur.sect + 1))
    else if SectorInCluster(g, ofs) != 0 then (Ok, cur.(dptr := ofs, sect := cur.sect + 1))
    else
      var clst := if InRange(f, cur.clust) then f[cur.clust] else 1;
      if clst <= 1 then (IntErr, cur.(sect := cur.sect + 1))
      else if clst >= |f| then (NoFile, cur.(sect := 0))
      else (Ok, Cursor(ofs, clst, g.ClusterSector(clst)))
  }

  /** `k` calls of dir_next, ended by the first that fails. */
  function Steps(g: Geometry, f: Table, cur: Cursor, k: nat): (FResult, Cursor)
    requires g.csize > 0
  {
    if k == 0 then (Ok, cur)
    else
      var (r, c) := Steps(g, f, cur, k - 1);
      if r != Ok then (r, c) else NextCursor(g, f, c)
  }

  lemma OffStep(p: nat)
    requires p % SZDIRE == 0
    ensures Off(p + SZDIRE) != 0 ==> Sec(p + SZDIRE) == Sec(p)
    ensures Off(p + SZDIRE) == 0 ==> Sec(p + SZDIRE) == Sec(p) + 1 && Sec(p + SZDIRE - 1) == Sec(p)
  {
  }

  /** Moving on by one entry: the place of the next entry from the place of this one. */
  lemma {:induction false} PlaceStep(g: Geometry, f: Table, sclust: nat, p: nat)
    requires g.Valid() && |f| == g.nFatEnt && Reachable(g, f, sclust, p) && p + SZDIRE < MAX_DIR
    ensures var (r, c) := NextCursor(g, f, CursorAt(g, f, sclust, p));
      && (r == Ok <==> Reachable(g, f, sclust, p + SZDIRE))
      && (r == Ok ==> c == CursorAt(g, f, sclust, p + SZDIRE))
  {
    hide Walk, Geometry.Valid, Geometry.DataEnd, Geometry.ClusterSector, Sec, Off, ClusterIndex, SectorInCluster;
    Bases(g);
    OffStep(p);
    EntryStep(p);
    if TableStart(g, sclust) == 0 {
      StaticStep(g, p);
    } else {
      ChainStep(g, f, sclust, p);
    }
  }

  lemma EntryStep(p: nat)
    requires p % SZDIRE == 0
    ensures (p + SZDIRE) % SZDIRE == 0
  {
  }

  /** The same for a table that is a cluster chain. */
  lemma {:induction false} ChainStep(g: Geometry, f: Table, sclust: nat, p: nat)
    requires g.Valid() && |f| == g.nFatEnt && p % SZDIRE == 0 && TableStart(g, sclust) != 0
    requires PlaceOf(g, f, sclust, p).sect != 0
    ensures var c, d, q := PlaceOf(g, f, sclust, p), PlaceOf(g, f, sclust, p + SZDIRE), p + SZDIRE;
      && c.clust == Walk(f, TableStart(g, sclust), ClusterIndex(g, p)) && g.ValidCluster(c.clust)
      && c.clust != 0 && InRange(f, c.clust)
      && (Off(q) != 0 ==> d == c)
      && (Off(q) == 0 && SectorInCluster(g, q) != 0 ==> d == Place(c.clust, c.sect + 1))
      && (Off(q) == 0 && SectorInCluster(g, q) == 0 && InRange(f, f[c.clust]) ==>
           d == Place(f[c.clust], g.ClusterSector(f[c.clust])) && d.sect != 0)
      && (Off(q) == 0 && SectorInCluster(g, q) == 0 && !InRange(f, f[c.clust]) ==> d == Place(0, 0))
  {
    hide Walk, Geometry.Valid, Geometry.DataEnd, Geometry.ClusterSector, Sec, Off, ClusterIndex, SectorInCluster;
    Bases(g);
    OffStep(p);
    var q := p + SZDIRE;
    ClusterPlaced(g, Walk(f, TableStart(g, sclust), ClusterIndex(g, p)));
    if Off(q) != 0 {
      SameCluster(g, p, q);
    } else if SectorInCluster(g, q) != 0 {
      NextSector(g, p, q);
    } else {
      IndexBoundary(g, q);
      IndexSame(g, p, q - 1);
      WalkStep(f, TableStart(g, sclust), ClusterIndex(g, p));
      ClusterPlaced(g, f[Walk(f, TableStart(g, sclust), ClusterIndex(g, p))]);
    }
  }

  /** Clusters have no sector 0. */
  lemma ClusterPlaced(g: Geometry, c: nat)
    requires g.Valid()
    ensures g.ClusterSector(c) != 0 <==> g.ValidCluster(c)
  {
    if g.ValidCluster(c) {
      ClusterInside(g, c);
    }
  }

  lemma WalkStep(f: Table, c: nat, m: nat)
    ensures var d := Walk(f, c, m);
      Walk(f, c, m + 1) == if InRange(f, d) && InRange(f, f[d]) then f[d] else 0
  {
  }

  /** The static table ends at a sector boundary. */
  lemma StaticStep(g: Geometry, p: nat)
    requires g.Valid() && p % SZDIRE == 0
    ensures p / SZDIRE < g.nRootDir && Off(p + SZDIRE) != 0 ==> (p + SZDIRE) / SZDIRE < g.nRootDir
  {
    if g.kind != Fat32 {
      var k := p / 32;
      assert p == 32 * k;
      assert Off(32 * (k + 1)) == 0 <==> (k + 1) % 16 == 0;
    }
  }

  lemma SameCluster(g: Geometry, p: nat, q: nat)
    requires g.csize > 0 && Sec(p) == Sec(q)
    ensures ClusterIndex(g, p) == ClusterIndex(g, q) && SectorInCluster(g, p) == SectorInCluster(g, q)
  {
  }

  lemma NextSector(g: Geometry, p: nat, q: nat)
    requires g.csize > 0 && Sec(q) == Sec(p) + 1 && SectorInCluster(g, q) != 0
    ensures ClusterIndex(g, p) == ClusterIndex(g, q) && SectorInCluster(g, q) == SectorInCluster(g, p) + 1
  {
    var k := Sec(q);
    var a, b := k / g.csize, k % g.csize;
    assert k == a * g.csize + b;
    DivStep(a, g.csize, b - 1);
  }

  /** Seeking to entry `k` succeeds exactly when `k` calls of dir_next from the first
      entry do, and both end at the same cluster, sector and offset, on any FAT at all. */
  lemma {:induction false} SeekIsSteps(g: Geometry, f: Table, sclust: nat, k: nat)
    requires g.Valid() && |f| == g.nFatEnt && Reachable(g, f, sclust, 0) && SZDIRE * k < MAX_DIR
    ensures Reachable(g, f, sclust, SZDIRE * k) <==> Steps(g, f, CursorAt(g, f, sclust, 0), k).0 == Ok
    ensures Reachable(g, f, sclust, SZDIRE * k) ==>
      Steps(g, f, CursorAt(g, f, sclust, 0), k).1 == CursorAt(g, f, sclust, SZDIRE * k)
  {
    hide PlaceOf, NextCursor;
    if k > 0 {
      var p := SZDIRE * (k - 1);
      SeekIsSteps(g, f, sclust, k - 1);
      assert SZDIRE * k == p + SZDIRE;
      if Reachable(g, f, sclust, p) {
        PlaceStep(g, f, sclust, p);
      } else if Reachable(g, f, sclust, p + SZDIRE) {
        ReachableBefore(g, f, sclust, p);
      }
    }
  }

  /** A table that has an entry has the one before it. */
  lemma ReachableBefore(g: Geometry, f: Table, sclust: nat, p: nat)
    requires g.Valid() && |f| == g.nFatEnt && p % SZDIRE == 0 && Reachable(g, f, sclust, p + SZDIRE)
    ensures Reachable(g, f, sclust, p)
  {
    hide Walk, Geometry.Valid, Geometry.DataEnd, Geometry.ClusterSector, Sec, Off, ClusterIndex, SectorInCluster;
    Bases(g);
    var q := p + SZDIRE;
    OffStep(p);
    if TableStart(g, sclust) == 0 {
      EntryBefore(p);
    } else if Off(q) != 0 {
      SameCluster(g, p, q);
    } else if SectorInCluster(g, q) != 0 {
      NextSector(g, p, q);
      ClusterPlaced(g, Walk(f, TableStart(g, sclust), ClusterIndex(g, p)));
    } else {
      IndexBoundary(g, q);
      IndexSame(g, p, q - 1);
      WalkStep(f, TableStart(g, sclust), ClusterIndex(g, p));
      ClusterPlaced(g, Walk(f, TableStart(g, sclust), ClusterIndex(g, p)));
    }
  }

  lemma EntryBefore(p: nat)
    ensures p / SZDIRE <= (p + SZDIRE) / SZDIRE
  {
  }

  lemma Bases(g: Geometry)
    requires g.Valid()
    ensures g.csize > 0 && g.nFatEnt > 2 && (g.nRootDir > 0 ==> g.dirBase > 0) && g.dataBase > 0
    ensures g.kind == Fat32 ==> g.nRootDir == 0
  {
  }

  // ----- stretching a table -----

  predicate InCluster(g: Geometry, c: nat, s: nat) {
    g.ClusterSector(c) <= s < g.ClusterSector(c) + g.csize
  }

  /** The free cluster `c` was linked behind `d` and filled with zeros. */
  ghost predicate Extended(g: Geometry, f: Table, e: Disk, f': Table, e': Disk, d: nat, c: nat) {
    && |f| == g.nFatEnt && |e'| == |e| && InRange(f, c) && f[c] == 0 && InRange(f, d) && f[d] >= |f|
    && f' == Stretched(f, d, c, EndMark(g.kind))
    && forall s :: 0 <= s < |e| && !g.InFats(s) ==> e'[s] == if InCluster(g, c, s) then ZeroSector() else e[s]
  }

  /** Links are kept, chains may have become longer, and data changed in formerly free
      clusters only, which were cleared. */
  ghost predicate Lengthened(g: Geometry, f: Table, e: Disk, f': Table, e': Disk) {
    && |f| == |f'| == g.nFatEnt && |e'| == |e|
    && (forall x :: InRange(f, x) && f[x] != 0 ==> f'[x] == f[x] || (f[x] >= |f| && InRange(f, f'[x]) && f[f'[x]] == 0))
    && (forall s :: 0 <= s < |e| && !g.InFats(s) ==> e'[s] == e[s] || (e'[s] == ZeroSector() && Fresh(g, f, s)))
  }

  /** Sector `s` belongs to a free cluster. */
  ghost predicate Fresh(g: Geometry, f: Table, s: nat) {
    exists c :: InRange(f, c) && f[c] == 0 && InCluster(g, c, s)
  }

  lemma {:induction false} LengthenedMore(g: Geometry, f0: Table, e0: Disk, f: Table, e: Disk, f': Table, e': Disk,
      d: nat, c: nat)
    requires g.Valid() && Lengthened(g, f0, e0, f, e) && Extended(g, f, e, f', e', d, c)
    ensures Lengthened(g, f0, e0, f', e')
  {
    hide Geometry.Valid, Geometry.ClusterSector;
    assert f0[c] == 0;
    forall s | 0 <= s < |e0| && !g.InFats(s) ensures e'[s] == e0[s] || (e'[s] == ZeroSector() && Fresh(g, f0, s)) {
      assert InCluster(g, c, s) ==> Fresh(g, f0, s);
    }
  }

  /** Stretching a chain at its end leaves the walk up to there alone and makes it one longer. */
  lemma {:induction false} StretchWalk(f: Table, st: nat, m: nat, c: nat, eoc: nat)
    requires InRange(f, Walk(f, st, m)) && f[Walk(f, st, m)] >= |f| && InRange(f, c) && f[c] == 0
    ensures Walk(Stretched(f, Walk(f, st, m), c, eoc), st, m + 1) == c
    ensures forall i :: 0 <= i <= m ==> Walk(Stretched(f, Walk(f, st, m), c, eoc), st, i) == Walk(f, st, i) != c
  {
    forall i | 0 <= i <= m
      ensures Walk(Stretched(f, Walk(f, st, m), c, eoc), st, i) == Walk(f, st, i) != c
    {
      StretchPrefix(f, st, m, c, eoc, i);
    }
  }

  lemma {:induction false} StretchPrefix(f: Table, st: nat, m: nat, c: nat, eoc: nat, i: nat)
    requires InRange(f, Walk(f, st, m)) && f[Walk(f, st, m)] >= |f| && InRange(f, c) && f[c] == 0 && i <= m
    ensures Walk(Stretched(f, Walk(f, st, m), c, eoc), st, i) == Walk(f, st, i) != c
    decreases i
  {
    WalkThere(f, st, m, i);
    if i > 0 {
      StretchPrefix(f, st, m, c, eoc, i - 1);
      WalkThere(f, st, m, i - 1);
    }
  }

  lemma {:induction false} WalkThere(f: Table, st: nat, m: nat, i: nat)
    requires InRange(f, Walk(f, st, m)) && i <= m
    ensures InRange(f, Walk(f, st, i))
    ensures i < m ==> InRange(f, f[Walk(f, st, i)])
    decreases m - i
  {
    if i < m {
      WalkThere(f, st, m, i + 1);
    }
  }

  predicate FreeMark(b: byte) {
    b == DDEM || b == 0
  }

  /** Entry number `j` of the table exists and is free. */
  ghost predicate FreeAt(g: Geometry, f: Table, e: Disk, sclust: nat, j: nat)
    requires g.csize > 0
  {
    var s := PlaceOf(g, f, sclust, SZDIRE * j).sect;
    0 < s < |e| && FreeMark(e[s][Off(SZDIRE * j)])
  }

  /** Entry number `j` of the table exists and is marked as never used. */
  ghost predicate EndAt(g: Geometry, f: Table, e: Disk, sclust: nat, j: nat)
    requires g.csize > 0
  {
    var s := PlaceOf(g, f, sclust, SZDIRE * j).sect;
    0 < s < |e| && e[s][Off(SZDIRE * j)] == 0
  }

  /** An entry that was never used is followed by free ones only. */
  ghost predicate Closed(g: Geometry, f: Table, e: Disk, sclust: nat)
    requires g.csize > 0
  {
    forall i: nat, j: nat :: i < j && EndAt(g, f, e, sclust, i) && Reachable(g, f, sclust, SZDIRE * j) ==>
      FreeAt(g, f, e, sclust, j)
  }

  /** Entry `i` is the last of `n` successive free entries. */
  ghost predicate RunEnds(g: Geometry, f: Table, e: Disk, sclust: nat, i: nat, n: nat)
    requires g.csize > 0
  {
    0 < n <= i + 1 && forall j :: i + 1 - n <= j <= i ==> FreeAt(g, f, e, sclust, j)
  }

  /** Where an entry lies. */
  lemma {:induction false} PlaceBounds(g: Geometry, f: Table, sclust: nat, p: nat)
    requires g.Valid() && |f| == g.nFatEnt
    requires PlaceOf(g, f, sclust, p).sect != 0
    ensures var s := PlaceOf(g, f, sclust, p).sect;
      g.FatEnd() <= s < g.DataEnd() && !g.InFats(s) && (TableStart(g, sclust) == 0 ==> s < g.dataBase)
  {
    hide Walk, Geometry.ClusterSector, ClusterIndex, SectorInCluster;
    MulMono(g.csize, 0, g.nFatEnt - 2);
    var st := TableStart(g, sclust);
    if st == 0 {
      StaticBound(g, p);
    } else {
      ClusterInside(g, Walk(f, st, ClusterIndex(g, p)));
    }
  }

  lemma StaticBound(g: Geometry, p: nat)
    requires g.Valid() && p / SZDIRE < g.nRootDir
    ensures Sec(p) < g.nRootDir / 16
  {
    assert p < 32 * g.nRootDir;
    if g.kind != Fat32 {
      assert g.nRootDir == 16 * (g.nRootDir / 16);
    }
  }

  /** Stretching a table leaves every entry it had where it was and as it was. */
  lemma {:induction false} StretchKeepsEntries(g: Geometry, f: Table, e: Disk, f': Table, e': Disk, sclust: nat,
      k: nat, j: nat)
    requires g.Valid() && |f| == g.nFatEnt && TableStart(g, sclust) != 0 && j <= k && g.DataEnd() <= |e|
    requires var d := Walk(f, TableStart(g, sclust), ClusterIndex(g, SZDIRE * k));
      InRange(f, d) && exists c :: Extended(g, f, e, f', e', d, c)
    ensures FreeAt(g, f', e', sclust, j) <==> FreeAt(g, f, e, sclust, j)
    ensures EndAt(g, f', e', sclust, j) <==> EndAt(g, f, e, sclust, j)
    ensures Reachable(g, f', sclust, SZDIRE * j) <==> Reachable(g, f, sclust, SZDIRE * j)
  {
    hide Walk, Geometry.DataEnd, Geometry.Valid, Geometry.ClusterSector, ClusterIndex, SectorInCluster, Off;
    Bases(g);
    var st, m := TableStart(g, sclust), ClusterIndex(g, SZDIRE * k);
    var d := Walk(f, st, m);
    var c :| Extended(g, f, e, f', e', d, c);
    StretchWalk(f, st, m, c, EndMark(g.kind));
    IndexMono(g, SZDIRE * j, SZDIRE * k);
    var x := Walk(f, st, ClusterIndex(g, SZDIRE * j));
    ClusterPlaced(g, x);
    if g.ValidCluster(x) {
      PlaceBounds(g, f, sclust, SZDIRE * j);
      OneCluster(g, x, c, SectorInCluster(g, SZDIRE * j));
    }
  }

  /** Stretching a table adds entries that were never used. */
  lemma {:induction false} StretchAdds(g: Geometry, f: Table, e: Disk, f': Table, e': Disk, sclust: nat, k: nat,
      c: nat, j: nat)
    requires g.Valid() && |f| == g.nFatEnt && TableStart(g, sclust) != 0 && k < j && g.DataEnd() <= |e|
    requires Off(SZDIRE * k + SZDIRE) == 0 && SectorInCluster(g, SZDIRE * k + SZDIRE) == 0
    requires Extended(g, f, e, f', e', Walk(f, TableStart(g, sclust), ClusterIndex(g, SZDIRE * k)), c)
    requires Reachable(g, f', sclust, SZDIRE * j)
    ensures FreeAt(g, f', e', sclust, j)
  {
    hide Walk, Geometry.DataEnd, Geometry.Valid, Geometry.ClusterSector, ClusterIndex, SectorInCluster, Off;
    Bases(g);
    var st, m, q := TableStart(g, sclust), ClusterIndex(g, SZDIRE * k), SZDIRE * k + SZDIRE;
    OffStep(SZDIRE * k);
    EntryStep(SZDIRE * k);
    IndexBoundary(g, q);
    IndexSame(g, SZDIRE * k, q - 1);
    StretchWalk(f, st, m, c, EndMark(g.kind));
    IndexMono(g, q, SZDIRE * j);
    var n := ClusterIndex(g, SZDIRE * j);
    ClusterPlaced(g, Walk(f', st, n));
    if n > m + 1 {
      EndMarkIsEnd(g);
      WalkStep(f', st, m + 1);
      WalkStuck(f', st, m + 2, n);
      assert false;
    }
    var s := PlaceOf(g, f', sclust, SZDIRE * j).sect;
    PlaceBounds(g, f', sclust, SZDIRE * j);
    InOwnCluster(g, c, SZDIRE * j);
    assert e'[s] == ZeroSector();
  }

  lemma InOwnCluster(g: Geometry, c: nat, p: nat)
    requires g.csize > 0
    ensures InCluster(g, c, g.ClusterSector(c) + SectorInCluster(g, p))
  {
  }

  lemma {:induction false} StretchClosed(g: Geometry, f: Table, e: Disk, f': Table, e': Disk, sclust: nat, k: nat,
      c: nat)
    requires g.Valid() && |f| == g.nFatEnt && TableStart(g, sclust) != 0 && g.DataEnd() <= |e|
    requires Off(SZDIRE * k + SZDIRE) == 0 && SectorInCluster(g, SZDIRE * k + SZDIRE) == 0
    requires Extended(g, f, e, f', e', Walk(f, TableStart(g, sclust), ClusterIndex(g, SZDIRE * k)), c)
    requires Closed(g, f, e, sclust)
    ensures Closed(g, f', e', sclust)
  {
    hide Walk, Geometry.DataEnd, Geometry.Valid, Geometry.ClusterSector, ClusterIndex, SectorInCluster, Off, FreeAt,
      EndAt, Reachable, Extended;
    Bases(g);
    DistantLink(g, f, e, f', e', Walk(f, TableStart(g, sclust), ClusterIndex(g, SZDIRE * k)), c);
    forall i: nat, j: nat | i < j && EndAt(g, f', e', sclust, i) && Reachable(g, f', sclust, SZDIRE * j)
      ensures FreeAt(g, f', e', sclust, j)
    {
      if j <= k {
        StretchKeepsEntries(g, f, e, f', e', sclust, k, i);
        StretchKeepsEntries(g, f, e, f', e', sclust, k, j);
      } else {
        StretchAdds(g, f, e, f', e', sclust, k, c, j);
      }
    }
  }

  lemma DistantLink(g: Geometry, f: Table, e: Disk, f': Table, e': Disk, d: nat, c: nat)
    requires Extended(g, f, e, f', e', d, c)
    ensures InRange(f, d)
  {
  }

  /** What is no entry may change. */
  lemma {:induction false} DataClosed(g: Geometry, f: Table, e: Disk, e': Disk, sclust: nat)
    requires g.Valid() && |f| == g.nFatEnt && SameData(e, e', g) && Closed(g, f, e, sclust)
    ensures Closed(g, f, e', sclust)
  {
    hide Geometry.Valid, Geometry.DataEnd, Geometry.ClusterSector, PlaceOf, Off;
    Bases(g);
    forall i: nat | PlaceOf(g, f, sclust, SZDIRE * i).sect != 0
      ensures EndAt(g, f, e', sclust, i) <==> EndAt(g, f, e, sclust, i)
      ensures FreeAt(g, f, e', sclust, i) <==> FreeAt(g, f, e, sclust, i)
    {
      PlaceBounds(g, f, sclust, SZDIRE * i);
    }
  }

  lemma OneCluster(g: Geometry, x: nat, c: nat, r: nat)
    requires g.Valid() && g.ValidCluster(x) && g.ValidCluster(c) && x != c && r < g.csize
    ensures !InCluster(g, c, g.ClusterSector(x) + r) && g.ClusterSector(x) != 0
  {
    ClusterInside(g, x);
    if x < c {
      ClustersApart(g, x, c);
    } else {
      ClustersApart(g, c, x);
    }
  }

  lemma IndexMono(g: Geometry, p: nat, q: nat)
    requires g.csize > 0 && p <= q
    ensures ClusterIndex(g, p) <= ClusterIndex(g, q)
  {
    StartOf(g, p);
    StartOf(g, q);
    if ClusterIndex(g, p) > ClusterIndex(g, q) {
      StartMono(g, ClusterIndex(g, q) + 1, ClusterIndex(g, p));
      assert false;
    }
  }

  /** dir_clear: fills a cluster with zeros, through the window buffer. */
  method DirClear(fs: FatVolume, clst: nat)
    requires fs.Valid() && fs.g.ValidCluster(clst) && fs.g.DataEnd() <= |fs.disk|
    modifies fs`disk, fs`wflag, fs`winsect, fs.win
    ensures fs.Valid() && !fs.wflag && fs.winsect == fs.g.ClusterSector(clst)
    ensures |fs.disk| == old(|fs.disk|) && forall s :: 0 <= s < |fs.disk| ==>
      fs.Eff()[s] == if InCluster(fs.g, clst, s) then ZeroSector() else old(fs.Eff())[s]
    ensures fs.Fat() == old(fs.Fat()) && (old(Healthy(fs)) ==> Healthy(fs))
  {
    hide FatOf, Flush, Geometry.ClusterSector, Geometry.DataEnd, Geometry.Valid, Forest, ZeroSector;
    ClusterInside(fs.g, clst);
    DataBehind(fs.g);
    ghost var e0 := fs.Eff();
    fs.SyncWindow();
    var sect := fs.ClusterToSector(clst);
    fs.winsect := sect;
    CopyInto(fs.win, 0, ZeroSector());
    assert fs.win[..] == ZeroSector();
    StoreWindow(fs);
    SameFat(e0, fs.Eff(), fs.g);
  }

  /** Writes the window buffer to every sector of the cluster that starts at it. */
  method StoreWindow(fs: FatVolume)
    requires fs.win.Length == 512 && fs.winsect + fs.g.csize <= |fs.disk|
    modifies fs`disk
    ensures |fs.disk| == old(|fs.disk|) && forall s :: 0 <= s < |fs.disk| ==>
      fs.disk[s] == if fs.winsect <= s < fs.winsect + fs.g.csize then fs.win[..] else old(fs.disk[s])
  {
    var n := 0;
    while n < fs.g.csize
      invariant 0 <= n <= fs.g.csize && |fs.disk| == old(|fs.disk|)
      invariant forall s :: 0 <= s < |fs.disk| ==>
        fs.disk[s] == if fs.winsect <= s < fs.winsect + n then fs.win[..] else old(fs.disk[s])
    {
      fs.disk := fs.disk[fs.winsect + n := fs.win[..]];
      n := n + 1;
    }
  }

  lemma DataBehind(g: Geometry)
    requires g.Valid()
    ensures g.fatBase + g.fsize <= g.FatEnd() <= g.dataBase && 0 < g.csize
    ensures g.nFats == 2 ==> g.FatEnd() == g.fatBase + 2 * g.fsize
  {
  }

  class Dir {
    const fs: FatVolume
    const sclust: nat
    var dptr: nat
    var clust: nat
    var sect: nat
    var dir: nat

    /** The fields that move; `dir` is the offset in the window at which the entry lies. */
    function Cur(): Cursor
      reads `dptr, `clust, `sect
    {
      Cursor(dptr, clust, sect)
    }

    /** The cursor stands at an entry of the table, or is past its end. */
    ghost predicate Valid()
      reads this, fs`disk, fs`winsect, fs`wflag, fs.win
    {
      && fs.Valid() && fs.g.DataEnd() <= |fs.disk|
      && (sect != 0 ==> Standing(fs.Fat()))
    }

    ghost predicate Standing(f: Table)
      requires fs.g.csize > 0
      reads `dptr, `clust, `sect, `dir
    {
      Reachable(fs.g, f, sclust, dptr) && Cur() == CursorAt(fs.g, f, sclust, dptr) && dir == Off(dptr)
    }

    constructor (fs: FatVolume, sclust: nat)
      requires fs.Valid() && fs.g.DataEnd() <= |fs.disk|
      ensures Valid() && this.fs == fs && this.sclust == sclust && sect == 0
    {
      this.fs, this.sclust := fs, sclust;
      dptr, clust, sect, dir := 0, 0, 0, 0;
    }

    /** dir_sdi. */
    method Seek(ofs0: nat) returns (res: FResult)
      requires fs.Valid() && fs.g.DataEnd() <= |fs.disk|
      modifies this, fs`disk, fs`wflag, fs`winsect, fs.win
      ensures fs.Valid() && |fs.disk| == old(|fs.disk|) && fs.Eff() == old(fs.Eff())
      ensures old(Healthy(fs)) ==> Healthy(fs)
      ensures res == if Reachable(fs.g, fs.Fat(), sclust, ofs0) then Ok else IntErr
      ensures res == Ok ==> Valid() && Cur() == CursorAt(fs.g, fs.Fat(), sclust, ofs0)
    {
      hide FatOf, Flush, Geometry.DataEnd, Geometry.ClusterSector, Mirrored, Forest, Walk, Sec, Off, ClusterIndex,
        SectorInCluster;
      var ofs := ofs0;
      if ofs >= MAX_DIR || ofs % SZDIRE != 0 {
        return IntErr;
      }
      dptr := ofs;
      var clst := sclust;
      if clst == 0 && fs.g.kind == Fat32 {
        clst := fs.g.dirBase;
      }
      if clst == 0 {
        if ofs / SZDIRE >= fs.g.nRootDir {
          return IntErr;
        }
        sect := fs.g.dirBase;
      } else {
        var inside;
        inside, clst, ofs := Follow(clst, ofs);
        if !inside {
          return IntErr;
        }
        sect := fs.ClusterToSector(clst);
      }
      clust := clst;
      Bases(fs.g);
      ClusterPlaced(fs.g, clst);
      if sect == 0 {
        return IntErr;
      }
      sect := sect + ofs / 512;
      dir := ofs % 512;
      OffOf(ofs);
      res := Ok;
    }

    /** dir_next: as `NextCursor` says, except that at the end of a cluster chain a table
        that may be stretched gets a cleared cluster that was free. */
    method Next(stretch: bool) returns (res: FResult)
      requires Valid()
      modifies this, fs, fs.win
      ensures fs.Valid() && |fs.disk| == old(|fs.disk|) && (old(Healthy(fs)) ==> Healthy(fs))
      ensures !(stretch && old(AtEnd(fs.Fat()))) ==>
        && (res, Cur()) == NextCursor(fs.g, old(fs.Fat()), old(Cur()))
        && fs.Eff() == old(fs.Eff()) && (res == Ok ==> dir == Off(dptr))
      ensures stretch && old(AtEnd(fs.Fat())) ==>
        if res == Ok then
          && Extended(fs.g, old(fs.Fat()), old(fs.Eff()), fs.Fat(), fs.Eff(), old(clust), clust)
          && dptr == old(dptr) + SZDIRE && sect == fs.g.ClusterSector(clust) && dir == Off(dptr)
        else
          && (res == Denied || res == IntErr) && fs.Fat() == old(fs.Fat()) && SameData(old(fs.Eff()), fs.Eff(), fs.g)
          && (old(Healthy(fs)) ==> res == Denied && FreeCount(fs.Fat()) == 0)
    {
      hide FatOf, Flush, Geometry.DataEnd, Geometry.ClusterSector, Geometry.Valid, Mirrored, Forest, FatVolume.FreeOk,
        Sec, Off, SectorInCluster, Extended, CursorAt, Reachable, SameData, FreeCount;
      Bases(fs.g);
      var ofs := dptr + SZDIRE;
      OffOf(ofs);
      if sect == 0 || ofs >= MAX_DIR {
        return NoFile;
      }
      if ofs % 512 == 0 {
        sect := sect + 1;
        if clust == 0 {
          if ofs / SZDIRE >= fs.g.nRootDir {
            sect := 0;
            return NoFile;
          }
        } else if ModCluster(ofs) == 0 {
          res := NextCluster(stretch);
          if res != Ok {
            return;
          }
        }
      }
      dptr := ofs;
      dir := ofs % 512;
      res := Ok;
    }

    function ModCluster(ofs: nat): (r: nat)
      requires fs.g.csize > 0
      ensures r == SectorInCluster(fs.g, ofs)
    {
      ofs / 512 % fs.g.csize
    }

    /** The next entry would lie behind the last cluster of the chain. */
    ghost predicate AtEnd(f: Table)
      requires fs.g.csize > 0
      reads `dptr, `clust, `sect
    {
      var ofs := dptr + SZDIRE;
      && sect != 0 && ofs < MAX_DIR && Off(ofs) == 0 && SectorInCluster(fs.g, ofs) == 0
      && InRange(f, clust) && f[clust] >= |f|
    }

    /** In dir_alloc: standing at entry `k`, with `n` free entries right before it. */
    ghost predicate Searching(f0: Table, e0: Disk, k: nat, n: nat, nent: nat)
      reads this, fs`disk, fs`winsect, fs`wflag, fs.win
    {
      && Valid() && sect != 0 && dptr == SZDIRE * k
      && Lengthened(fs.g, f0, e0, fs.Fat(), fs.Eff()) && Scanned(fs.g, fs.Fat(), fs.Eff(), sclust, k, n, nent)
    }

    /** Looks at the entry under the cursor. */
    method Look(ghost f0: Table, ghost e0: Disk, ghost k: nat, n0: nat, nent: nat) returns (found: bool, n: nat)
      requires Searching(f0, e0, k, n0, nent)
      modifies fs`disk, fs`wflag, fs`winsect, fs.win
      ensures Valid() && sect != 0 && fs.Eff() == old(fs.Eff()) && fs.winsect == sect
        && (old(Healthy(fs)) ==> Healthy(fs))
      ensures found ==> RunEnds(fs.g, fs.Fat(), fs.Eff(), sclust, k, nent)
      ensures !found ==> Scanned(fs.g, fs.Fat(), fs.Eff(), sclust, k + 1, n, nent)
    {
      hide FatOf, Flush, Geometry.DataEnd, Geometry.ClusterSector, Geometry.Valid, Mirrored, Forest, Scanned, RunEnds,
        Lengthened;
      Bases(fs.g);
      PlaceBounds(fs.g, fs.Fat(), sclust, dptr);
      FatsApart(fs.g);
      fs.MoveWindow(sect);
      ScannedMore(fs.g, fs.Fat(), fs.Eff(), sclust, k, n0, nent);
      assert fs.win[dir] == fs.win[..][dir];
      found, n := false, 0;
      if fs.win[dir] == DDEM || fs.win[dir] == 0 {
        n := n0 + 1;
        found := n == nent;
      }
    }

    /** Moves on to the next entry, stretching the table if need be. */
    method Advance(ghost f0: Table, ghost e0: Disk, ghost k: nat, n: nat, nent: nat) returns (res: FResult)
      requires Valid() && sect != 0 && dptr == SZDIRE * k && Lengthened(fs.g, f0, e0, fs.Fat(), fs.Eff())
      requires Scanned(fs.g, fs.Fat(), fs.Eff(), sclust, k + 1, n, nent)
      modifies this, fs, fs.win
      ensures fs.Valid() && |fs.disk| == old(|fs.disk|) && (old(Healthy(fs)) ==> Healthy(fs))
      ensures res == Ok ==> Searching(f0, e0, k + 1, n, nent) && SZDIRE * (k + 1) < MAX_DIR
      ensures res != Ok ==>
        Lengthened(fs.g, f0, e0, fs.Fat(), fs.Eff()) && Scanned(fs.g, fs.Fat(), fs.Eff(), sclust, k + 1, n, nent)
      ensures res != Ok ==> !Reachable(fs.g, fs.Fat(), sclust, SZDIRE * (k + 1))
      ensures res == NoFile ==> TableStart(fs.g, sclust) == 0 || SZDIRE * (k + 1) >= MAX_DIR
      ensures res == Denied && old(Healthy(fs)) ==> FreeCount(fs.Fat()) == 0
      ensures old(Closed(fs.g, fs.Fat(), fs.Eff(), sclust)) ==> Closed(fs.g, fs.Fat(), fs.Eff(), sclust)
    {
      hide Closed, FreeAt, FatOf, Flush, Geometry.DataEnd, Geometry.ClusterSector, Geometry.Valid, Mirrored, Forest,
        FatVolume.FreeOk, Scanned, Lengthened, Extended, Sec, Off, SectorInCluster, ClusterIndex, Walk, SameData,
        FreeCount;
      ghost var f, e := fs.Fat(), fs.Eff();
      assert SZDIRE * (k + 1) == dptr + SZDIRE;
      Bases(fs.g);
      PlaceAt(fs.g, f, sclust, dptr);
      if dptr + SZDIRE < MAX_DIR {
        PlaceStep(fs.g, f, sclust, dptr);
      }
      ghost var atEnd := AtEnd(f);
      res := Next(true);
      if !atEnd {
      } else if res == Ok {
        LengthenedMore(fs.g, f0, e0, f, e, fs.Fat(), fs.Eff(), old(clust), clust);
        StretchedPlace(fs.g, f, e, fs.Fat(), fs.Eff(), sclust, SZDIRE * k, clust);
        ScannedStays(fs.g, f, e, fs.Fat(), fs.Eff(), sclust, k, n, nent);
        if Closed(fs.g, f, e, sclust) {
          StretchClosed(fs.g, f, e, fs.Fat(), fs.Eff(), sclust, k, clust);
        }
      } else {
        if Closed(fs.g, f, e, sclust) {
          DataClosed(fs.g, f, e, fs.Eff(), sclust);
        }
        DataStays(fs.g, f0, e0, f, e, fs.Eff(), sclust, k + 1, n, nent);
      }
    }

    /** dir_alloc: the first run of `nent` free entries; `last` is the last entry looked at. */
    method Alloc(nent: nat) returns (res: FResult, ghost last: nat)
      requires fs.Valid() && fs.g.DataEnd() <= |fs.disk|
      modifies this, fs, fs.win
      ensures fs.Valid() && |fs.disk| == old(|fs.disk|) && (old(Healthy(fs)) ==> Healthy(fs))
      ensures Lengthened(fs.g, old(fs.Fat()), old(fs.Eff()), fs.Fat(), fs.Eff())
      ensures !Reachable(fs.g, old(fs.Fat()), sclust, 0) ==> res == IntErr && fs.Eff() == old(fs.Eff())
      ensures res == Ok ==>
        && Valid() && Cur() == CursorAt(fs.g, fs.Fat(), sclust, SZDIRE * last) && fs.winsect == sect != 0
        && RunEnds(fs.g, fs.Fat(), fs.Eff(), sclust, last, nent)
        && forall i :: 0 <= i < last ==> !RunEnds(fs.g, fs.Fat(), fs.Eff(), sclust, i, nent)
      ensures old(Closed(fs.g, fs.Fat(), fs.Eff(), sclust)) ==> Closed(fs.g, fs.Fat(), fs.Eff(), sclust)
      ensures res == Denied ==>
        && !Reachable(fs.g, fs.Fat(), sclust, SZDIRE * (last + 1))
        && (forall i :: 0 <= i <= last ==> !RunEnds(fs.g, fs.Fat(), fs.Eff(), sclust, i, nent))
        && (old(Healthy(fs)) ==>
             FreeCount(fs.Fat()) == 0 || TableStart(fs.g, sclust) == 0 || SZDIRE * (last + 1) >= MAX_DIR)
      ensures res != NoFile
    {
      hide Closed, FatOf, Flush, Geometry.DataEnd, Geometry.ClusterSector, Geometry.Valid, Mirrored, Forest,
        FatVolume.FreeOk, Scanned, Lengthened, Extended, Sec, Off, SectorInCluster, ClusterIndex, Walk, SameData,
        FreeCount, RunEnds, Healthy;
      last := 0;
      ghost var f0, e0 := fs.Fat(), fs.Eff();
      Bases(fs.g);
      LengthenedSelf(fs.g, f0, e0);
      res := Seek(0);
      if res != Ok {
        return;
      }
      ScannedNone(fs.g, f0, e0, sclust, nent);
      var n := 0;
      while true
        invariant Searching(f0, e0, last, n, nent) && fs.Valid() && |fs.disk| == |e0|
        invariant old(Healthy(fs)) ==> Healthy(fs)
        invariant old(Closed(fs.g, fs.Fat(), fs.Eff(), sclust)) ==> Closed(fs.g, fs.Fat(), fs.Eff(), sclust)
        decreases MAX_DIR - SZDIRE * last
      {
        ghost var k := last;
        var found;
        ScannedAll(fs.g, fs.Fat(), fs.Eff(), sclust, k, n, nent);
        found, n := Look(f0, e0, k, n, nent);
        if found {
          return Ok, k;
        }
        res := Advance(f0, e0, k, n, nent);
        ScannedAll(fs.g, fs.Fat(), fs.Eff(), sclust, k + 1, n, nent);
        if res != Ok {
          break;
        }
        last := k + 1;
      }
      if res == NoFile {
        res := Denied;
      }
    }

    /** The step of dir_next to the next cluster of the chain. */
    method NextCluster(stretch: bool) returns (res: FResult)
      requires fs.Valid() && fs.g.DataEnd() <= |fs.disk|
      modifies `clust, `sect, fs, fs.win
      ensures fs.Valid() && |fs.disk| == old(|fs.disk|) && (old(Healthy(fs)) ==> Healthy(fs))
      ensures var f := old(fs.Fat());
        var clst := if InRange(f, old(clust)) then f[old(clust)] else 1;
        if clst <= 1 then res == IntErr && clust == old(clust) && sect == old(sect) && fs.Eff() == old(fs.Eff())
        else if clst < |f| then res == Ok && clust == clst && sect == fs.g.ClusterSector(clst)
          && fs.Eff() == old(fs.Eff())
        else if !stretch then res == NoFile && clust == old(clust) && sect == 0 && fs.Eff() == old(fs.Eff())
        else if res == Ok then Extended(fs.g, f, old(fs.Eff()), fs.Fat(), fs.Eff(), old(clust), clust)
          && sect == fs.g.ClusterSector(clust)
        else
          && (res == Denied || res == IntErr) && fs.Fat() == f && SameData(old(fs.Eff()), fs.Eff(), fs.g)
          && (old(Healthy(fs)) ==> res == Denied && FreeCount(fs.Fat()) == 0)
    {
      hide FatOf, Flush, Geometry.DataEnd, Geometry.ClusterSector, Geometry.Valid, Mirrored, Forest, Extended,
        SameData, FreeCount;
      var clst := fs.GetFat(clust);
      if clst <= 1 {
        return IntErr;
      }
      if clst >= fs.g.nFatEnt {
        if !stretch {
          sect := 0;
          return NoFile;
        }
        res, clst := Extend(fs, clust);
        if res != Ok {
          return;
        }
      }
      clust := clst;
      sect := fs.ClusterToSector(clst);
      res := Ok;
    }

    /** Follows the chain to the cluster that holds table offset `ofs`. */
    method Follow(clst: nat, ofs: nat) returns (inside: bool, c: nat, rest: nat)
      requires fs.Valid() && clst != 0
      modifies fs`disk, fs`wflag, fs`winsect, fs.win
      ensures fs.Valid() && fs.Eff() == old(fs.Eff()) && (old(Healthy(fs)) ==> Healthy(fs))
      ensures inside ==> c == Walk(fs.Fat(), clst, ClusterIndex(fs.g, ofs))
      ensures inside ==> rest / 512 == SectorInCluster(fs.g, ofs) && rest % 512 == Off(ofs)
      ensures !inside ==> Walk(fs.Fat(), clst, ClusterIndex(fs.g, ofs)) == 0
    {
      hide FatOf, Flush, Geometry.DataEnd, Geometry.ClusterSector, Mirrored, Forest, Walk, Sec, Off, ClusterIndex,
        SectorInCluster, ClusterStart;
      var csz := fs.g.csize * 512;
      ghost var m := 0;
      inside, c, rest := true, clst, ofs;
      WalkZero(fs.Fat(), clst);
      StartZero(fs.g);
      while rest >= csz
        invariant fs.Valid() && fs.Eff() == old(fs.Eff()) && (old(Healthy(fs)) ==> Healthy(fs))
        invariant c == Walk(fs.Fat(), clst, m) && ofs == ClusterStart(fs.g, m) + rest
      {
        WalkStep(fs.Fat(), clst, m);
        StartStep(fs.g, m);
        c := fs.GetFat(c);
        if c < 2 || c >= fs.g.nFatEnt {
          StartMore(fs.g, ofs, m + 1);
          WalkStuck(fs.Fat(), clst, m + 1, ClusterIndex(fs.g, ofs));
          return false, 0, 0;
        }
        rest := rest - csz;
        m := m + 1;
      }
      StartStep(fs.g, m);
      IndexOf(fs.g, ofs, m);
      RestOf(fs.g, ofs, m, rest);
    }
  }

  /** create_chain behind the last cluster of a table, and dir_clear of what it gave. */
  method Extend(fs: FatVolume, clst: nat) returns (res: FResult, c: nat)
    requires fs.Valid() && fs.g.DataEnd() <= |fs.disk| && InRange(fs.Fat(), clst) && fs.Fat()[clst] >= fs.g.nFatEnt
    modifies fs, fs.win
    ensures fs.Valid() && |fs.disk| == old(|fs.disk|) && (old(Healthy(fs)) ==> Healthy(fs))
    ensures res == Ok || ((res == Denied || res == IntErr) && fs.Fat() == old(fs.Fat())
      && SameData(old(fs.Eff()), fs.Eff(), fs.g))
    ensures res == Ok ==> Extended(fs.g, old(fs.Fat()), old(fs.Eff()), fs.Fat(), fs.Eff(), clst, c)
    ensures old(Healthy(fs)) ==> res != IntErr && (res == Denied ==> FreeCount(fs.Fat()) == 0)
  {
    hide FatOf, Flush, Geometry.DataEnd, Geometry.ClusterSector, Geometry.Valid, Mirrored, Rooted, Injective,
      FreeCount, Stretched, NoOnes;
    ghost var f, e, free, last := fs.Fat(), fs.Eff(), fs.freeClst, fs.lastClst;
    c := CreateChain(fs, clst);
    if Forest(f) {
      CreatedForest(f, fs.Fat(), fs.g, clst, free, last, c);
      ForestNoOnes(f);
      if old(fs.FreeOk()) {
        FullExactly(f, fs.Fat(), fs.g.kind, clst, free, last, c);
      }
    }
    if c == 0 {
      return Denied, 0;
    }
    if c == 1 {
      return IntErr, 0;
    }
    DirClear(fs, c);
    res := Ok;
  }

  lemma WalkZero(f: Table, c: nat)
    ensures Walk(f, c, 0) == c
  {
  }

  lemma StartZero(g: Geometry)
    ensures ClusterStart(g, 0) == 0
  {
  }

  lemma {:induction false} WalkStuck(f: Table, c: nat, m: nat, n: nat)
    requires Walk(f, c, m) == 0 && m <= n
    ensures Walk(f, c, n) == 0
  {
    if m < n {
      WalkStuck(f, c, m, n - 1);
    }
  }

  lemma StartMore(g: Geometry, p: nat, m: nat)
    requires g.csize > 0 && ClusterStart(g, m) <= p
    ensures m <= ClusterIndex(g, p)
  {
    StartOf(g, p);
    if ClusterIndex(g, p) < m {
      StartMono(g, ClusterIndex(g, p) + 1, m);
      assert false;
    }
  }

  lemma RestOf(g: Geometry, p: nat, m: nat, rest: nat)
    requires g.csize > 0 && p == ClusterStart(g, m) + rest && rest < 512 * g.csize
    ensures rest / 512 == SectorInCluster(g, p) && rest % 512 == Off(p)
  {
    var k := g.csize * m;
    assert p == 512 * k + rest;
    assert Sec(p) == k + rest / 512;
    DivStep(m, g.csize, rest / 512);
  }

  lemma OffOf(p: nat)
    ensures p / 512 == Sec(p) && p % 512 == Off(p)
  {
  }

  // ----- the search -----

  /** Entries before `k` hold no run of `nent` free ones; the last `n` of them are free. */
  ghost predicate Scanned(g: Geometry, f: Table, e: Disk, sclust: nat, k: nat, n: nat, nent: nat)
    requires g.csize > 0
  {
    && n <= k && (nent > 0 ==> n < nent)
    && (forall j :: k - n <= j < k ==> FreeAt(g, f, e, sclust, j))
    && (n < k ==> !FreeAt(g, f, e, sclust, k - n - 1))
    && forall i :: 0 <= i < k ==> !RunEnds(g, f, e, sclust, i, nent)
  }

  lemma ScannedNone(g: Geometry, f: Table, e: Disk, sclust: nat, nent: nat)
    requires g.csize > 0
    ensures Scanned(g, f, e, sclust, 0, 0, nent)
  {
  }

  lemma ScannedAll(g: Geometry, f: Table, e: Disk, sclust: nat, k: nat, n: nat, nent: nat)
    requires g.csize > 0
    ensures Scanned(g, f, e, sclust, k, n, nent) ==> forall i :: 0 <= i < k ==> !RunEnds(g, f, e, sclust, i, nent)
  {
  }

  /** Looking at one more entry. */
  lemma {:induction false} ScannedMore(g: Geometry, f: Table, e: Disk, sclust: nat, k: nat, n: nat, nent: nat)
    requires g.csize > 0 && Scanned(g, f, e, sclust, k, n, nent)
    ensures FreeAt(g, f, e, sclust, k) && n + 1 == nent ==> RunEnds(g, f, e, sclust, k, nent)
    ensures FreeAt(g, f, e, sclust, k) && n + 1 != nent ==> Scanned(g, f, e, sclust, k + 1, n + 1, nent)
    ensures !FreeAt(g, f, e, sclust, k) ==> Scanned(g, f, e, sclust, k + 1, 0, nent)
  {
    hide FreeAt;
  }

  /** Stretching the table changes nothing about the entries already looked at. */
  lemma {:induction false} ScannedStays(g: Geometry, f: Table, e: Disk, f': Table, e': Disk, sclust: nat, k: nat,
      n: nat, nent: nat)
    requires g.Valid() && |f| == g.nFatEnt && TableStart(g, sclust) != 0 && g.DataEnd() <= |e|
    requires Scanned(g, f, e, sclust, k + 1, n, nent)
    requires var d := Walk(f, TableStart(g, sclust), ClusterIndex(g, SZDIRE * k));
      InRange(f, d) && exists c :: Extended(g, f, e, f', e', d, c)
    ensures Scanned(g, f', e', sclust, k + 1, n, nent)
  {
    hide FreeAt, Extended, Geometry.Valid, Geometry.DataEnd;
    Bases(g);
    forall j: nat | j <= k ensures FreeAt(g, f', e', sclust, j) <==> FreeAt(g, f, e, sclust, j) {
      StretchKeepsEntries(g, f, e, f', e', sclust, k, j);
    }
    SameScan(g, f, e, f', e', sclust, k + 1, n, nent);
  }

  lemma {:induction false} SameScan(g: Geometry, f: Table, e: Disk, f': Table, e': Disk, sclust: nat, k: nat, n: nat,
      nent: nat)
    requires g.csize > 0 && Scanned(g, f, e, sclust, k, n, nent)
    requires forall j: nat :: j < k ==> (FreeAt(g, f', e', sclust, j) <==> FreeAt(g, f, e, sclust, j))
    ensures Scanned(g, f', e', sclust, k, n, nent)
  {
    hide FreeAt;
    forall i | 0 <= i < k ensures RunEnds(g, f', e', sclust, i, nent) <==> RunEnds(g, f, e, sclust, i, nent) {
    }
  }

  lemma {:induction false} DataStays(g: Geometry, f0: Table, e0: Disk, f: Table, e: Disk, e': Disk, sclust: nat,
      k: nat, n: nat, nent: nat)
    requires g.Valid() && |f| == g.nFatEnt && SameData(e, e', g) && Lengthened(g, f0, e0, f, e)
    requires Scanned(g, f, e, sclust, k, n, nent)
    ensures Lengthened(g, f0, e0, f, e') && Scanned(g, f, e', sclust, k, n, nent)
  {
    hide Geometry.Valid, Geometry.DataEnd, Geometry.ClusterSector, Fresh, PlaceOf, Off;
    Bases(g);
    forall j: nat | j < k ensures FreeAt(g, f, e', sclust, j) <==> FreeAt(g, f, e, sclust, j) {
      if PlaceOf(g, f, sclust, SZDIRE * j).sect != 0 {
        PlaceBounds(g, f, sclust, SZDIRE * j);
      }
    }
    SameScan(g, f, e, f, e', sclust, k, n, nent);
  }

  lemma LengthenedSelf(g: Geometry, f: Table, e: Disk)
    requires |f| == g.nFatEnt
    ensures Lengthened(g, f, e, f, e)
  {
  }

  lemma FatsApart(g: Geometry)
    requires g.Valid()
    ensures forall s :: g.InSecondFat(s) ==> g.InFats(s)
  {
  }

  /** A table with a cluster has no static part. */
  lemma PlaceAt(g: Geometry, f: Table, sclust: nat, p: nat)
    requires g.csize > 0
    ensures PlaceOf(g, f, sclust, p).clust ==
      if TableStart(g, sclust) == 0 then 0 else Walk(f, TableStart(g, sclust), ClusterIndex(g, p))
  {
  }

  /** The place of the first entry in a cluster just linked to the table. */
  lemma {:induction false} StretchedPlace(g: Geometry, f: Table, e: Disk, f': Table, e': Disk, sclust: nat, p: nat,
      c: nat)
    requires g.Valid() && |f| == g.nFatEnt && TableStart(g, sclust) != 0 && p % SZDIRE == 0 && p + SZDIRE < MAX_DIR
    requires Off(p + SZDIRE) == 0 && SectorInCluster(g, p + SZDIRE) == 0
    requires var d := Walk(f, TableStart(g, sclust), ClusterIndex(g, p)); Extended(g, f, e, f', e', d, c)
    ensures Reachable(g, f', sclust, p + SZDIRE)
    ensures CursorAt(g, f', sclust, p + SZDIRE) == Cursor(p + SZDIRE, c, g.ClusterSector(c))
  {
    hide Walk, Geometry.Valid, Geometry.DataEnd, Geometry.ClusterSector, Sec, Off, ClusterIndex, SectorInCluster;
    Bases(g);
    OffStep(p);
    EntryStep(p);
    IndexBoundary(g, p + SZDIRE);
    IndexSame(g, p, p + SZDIRE - 1);
    StretchWalk(f, TableStart(g, sclust), ClusterIndex(g, p), c, EndMark(g.kind));
    ClusterPlaced(g, c);
  }

  /** Each entry of the run that dir_alloc found was a free entry before, unless it lies
      in a cluster that was free and is now part of the table, cleared. */
  lemma {:induction false} RunWasFree(g: Geometry, f0: Table, e0: Disk, f: Table, e: Disk, sclust: nat, i: nat,
      n: nat, j: nat)
    requires g.Valid() && Lengthened(g, f0, e0, f, e) && RunEnds(g, f, e, sclust, i, n) && i + 1 - n <= j <= i
    ensures var s := PlaceOf(g, f, sclust, SZDIRE * j).sect;
      0 < s < |e0| && (FreeMark(e0[s][Off(SZDIRE * j)]) || (Fresh(g, f0, s) && e[s] == ZeroSector()))
  {
    hide Geometry.ClusterSector, Fresh, Geometry.DataEnd, Geometry.Valid;
    Bases(g);
    assert FreeAt(g, f, e, sclust, j);
    PlaceBounds(g, f, sclust, SZDIRE * j);
  }
}
