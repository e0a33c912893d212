/** An open file: f_read, f_write, f_lseek and f_truncate over the file's own dirty
    sector buffer and the volume. The object refines a byte sequence with a position. */
module FileObject {
  import opened Basics
  import opened Bytes
  import opened Layout
  import opened FatTable
  import opened Volume
  import opened Clusters
  import opened FileData

  ghost predicate ChainOk(f: Table, start: nat, chain: seq<nat>) {
    if start == 0 then chain == [] else IsChain(f, start, chain)
  }

  ghost predicate ClusterSame(g: Geometry, e: Disk, e': Disk, c: nat) {
    && |e'| == |e|
    && forall s :: g.ClusterSector(c) <= s < g.ClusterSector(c) + g.csize && s < |e| ==> e'[s] == e[s]
  }

  /** Every allocated cluster outside `chain` keeps its FAT entry and its data. */
  ghost predicate OthersKept(g: Geometry, f: Table, e: Disk, f': Table, e': Disk, chain: seq<nat>) {
    && |f'| == |f| && |e'| == |e|
    && forall c :: InRange(f, c) && f[c] != 0 && c !in chain ==> f'[c] == f[c] && ClusterSame(g, e, e', c)
  }

  /** `chain'` consists of clusters of `chain` and of formerly free clusters. */
  ghost predicate Grown(f: Table, chain: seq<nat>, chain': seq<nat>) {
    forall x :: x in chain' ==> x in chain || (InRange(f, x) && f[x] == 0)
  }

  /** Clusters change hands between the chain and the free ones only: entries outside both
      chains stay as they are, free or not, and what left the chain is free. */
  ghost predicate Exact(f: Table, ch: seq<nat>, f': Table, ch': seq<nat>) {
    && |f'| == |f|
    && (forall c :: InRange(f, c) && c !in ch && c !in ch' ==> f'[c] == f[c])
    && (forall c :: InRange(f, c) && c in ch && c !in ch' ==> f'[c] == 0)
  }

  /** From one state of volume and chain to another, other files are untouched, and no
      cluster is lost or taken. */
  ghost predicate Kept(g: Geometry, f: Table, e: Disk, ch: seq<nat>, f': Table, e': Disk, ch': seq<nat>) {
    OthersKept(g, f, e, f', e', ch) && Grown(f, ch, ch') && Exact(f, ch, f', ch')
  }

  lemma {:induction false} KeptCompose(g: Geometry, f0: Table, e0: Disk, ch0: seq<nat>,
      f1: Table, e1: Disk, ch1: seq<nat>, f2: Table, e2: Disk, ch2: seq<nat>)
    requires Kept(g, f0, e0, ch0, f1, e1, ch1) && Kept(g, f1, e1, ch1, f2, e2, ch2)
    ensures Kept(g, f0, e0, ch0, f2, e2, ch2)
  {
    forall c | InRange(f0, c) && f0[c] != 0 && c !in ch0 ensures f2[c] == f0[c] && ClusterSame(g, e0, e2, c) {
      assert InRange(f1, c) && ClusterSame(g, e0, e1, c) && ClusterSame(g, e1, e2, c);
    }
    forall x | x in ch2 ensures x in ch0 || (InRange(f0, x) && f0[x] == 0) {
      assert x in ch1 || (InRange(f1, x) && f1[x] == 0);
    }
    forall c | InRange(f0, c) && c !in ch2 ensures f2[c] == if c in ch0 then 0 else f0[c] {
      assert InRange(f1, c);
    }
  }

  lemma {:induction false} OthersAfterFat(g: Geometry, f: Table, e: Disk, f': Table, e': Disk, chain: seq<nat>)
    requires g.Valid() && |f| == g.nFatEnt == |f'| && SameData(e, e', g)
    requires forall c :: InRange(f, c) && f[c] != 0 && c !in chain ==> f'[c] == f[c]
    ensures OthersKept(g, f, e, f', e', chain)
  {
    forall c: nat, s: nat | g.ValidCluster(c) && g.ClusterSector(c) <= s < g.ClusterSector(c) + g.csize && s < |e|
      ensures e'[s] == e[s]
    {
      ClusterInside(g, c);
    }
  }

  lemma {:induction false} OthersAfterWrite(g: Geometry, f: Table, e: Disk, e': Disk, chain: seq<nat>,
      a: nat, x: nat, n: nat, d: seq<byte>)
    requires |f| == g.nFatEnt && a < |chain| && g.ValidCluster(chain[a])
    requires |d| == 512 * n && x + n <= g.csize && g.ClusterSector(chain[a]) + x + n <= |e|
    requires e' == WriteSectors(e, g.ClusterSector(chain[a]) + x, n, d)
    ensures OthersKept(g, f, e, f, e', chain)
  {
    var t := g.ClusterSector(chain[a]) + x;
    forall c: nat, s: nat | g.ValidCluster(c) && c !in chain && s < |e|
      && g.ClusterSector(c) <= s < g.ClusterSector(c) + g.csize
      ensures e'[s] == e[s]
    {
      if c < chain[a] {
        ClustersApart(g, c, chain[a]);
      } else {
        ClustersApart(g, chain[a], c);
      }
    }
  }

  /** disk_write of whole sectors of the data area that are not in the window. */
  method DiskWrite(fs: FatVolume, t: nat, n: nat, d: seq<byte>)
    requires fs.Valid() && |d| == 512 * n && fs.g.dataBase <= t && t + n <= |fs.disk|
    requires !(t <= fs.winsect < t + n)
    modifies fs`disk
    ensures fs.Valid() && fs.disk == WriteSectors(old(fs.disk), t, n, d)
    ensures fs.Eff() == WriteSectors(old(fs.Eff()), t, n, d) && fs.Fat() == old(fs.Fat())
    ensures old(Healthy(fs)) ==> Healthy(fs)
  {
    ghost var e0 := fs.Eff();
    fs.disk := WriteSectors(fs.disk, t, n, d);
    assert fs.Eff() == WriteSectors(e0, t, n, d);
    SameFat(e0, fs.Eff(), fs.g);
  }

  /** A transfer of the `n` sectors in `d` to disk sector `t` and following. */
  datatype Span = Span(t: nat, n: nat, d: seq<byte>) {
    predicate Sized() {
      |d| == 512 * n
    }
  }

  /** What create_chain means for a chain when it is asked for the cluster after its
      first `m`: the next one if there is one, else a formerly free cluster appended. */
  lemma {:induction false} Growth(g: Geometry, f: Table, f': Table, start: nat, chain: seq<nat>, m: nat, clst: nat,
      free: nat, last: nat, c: nat)
    requires g.Valid() && |f| == g.nFatEnt && ChainOk(f, start, chain) && m <= |chain|
    requires m == 0 ==> chain == []
    requires clst == if m == 0 then 0 else chain[m - 1]
    requires Created(f, f', g.kind, clst, free, last, c)
    ensures |f'| == |f| && forall x :: InRange(f, x) && f[x] != 0 && x !in chain ==> f'[x] == f[x]
    ensures Exact(f, chain, f', if c > 1 && m == |chain| then chain + [c] else chain)
    ensures c <= 1 ==> f' == f
    ensures m < |chain| ==> f' == f && c == chain[m] && c > 1
    ensures c > 1 && m == |chain| ==>
      IsChain(f', if start == 0 then c else start, chain + [c]) && InRange(f, c) && f[c] == 0 && f' != f
  {
    EndMarkIsEnd(g);
    var n := |chain|;
    if m < n {
      ChainAllocated(f, start, chain);
      assert f[chain[m - 1]] == chain[m];
    } else if c > 1 {
      var eoc := EndMark(g.kind);
      if m == 0 {
        assert f'[c] == eoc;
        assert IsChain(f', c, [c]);
      } else {
        assert f[chain[n - 1]] >= |f|;
        StretchExtends(f, clst, c, eoc, start, chain);
        assert f'[c] == eoc;
      }
    }
  }

  /** create_chain called on behalf of a file with chain `chain`, behind its first `m` clusters. */
  method Grow(fs: FatVolume, clst: nat, ghost start: nat, ghost chain: seq<nat>, ghost m: nat) returns (c: nat)
    requires fs.Valid() && ChainOk(fs.Fat(), start, chain) && m <= |chain| && (m == 0 ==> chain == [])
    requires clst == if m == 0 then 0 else chain[m - 1]
    modifies fs, fs.win
    ensures fs.Valid() && fs.Quiet(old(fs.disk), old(fs.winsect))
    ensures OthersKept(fs.g, old(fs.Fat()), old(fs.Eff()), fs.Fat(), fs.Eff(), chain)
    ensures Exact(old(fs.Fat()), chain, fs.Fat(), if c > 1 && m == |chain| then chain + [c] else chain)
    ensures old(Healthy(fs)) ==> Healthy(fs)
    ensures old(Healthy(fs)) ==> c != 1 && (c == 0 ==> FreeCount(fs.Fat()) == 0)
    ensures c <= 1 || m < |chain| ==> fs.Fat() == old(fs.Fat())
    ensures m < |chain| ==> c == chain[m] && c > 1
    ensures c > 1 && m == |chain| ==>
      && IsChain(fs.Fat(), if start == 0 then c else start, chain + [c])
      && InRange(old(fs.Fat()), c) && old(fs.Fat())[c] == 0 && fs.g.InFirstFat(fs.winsect)
  {
    hide FatOf, Flush, Mirrored, Zeros, Rooted, Injective, Created;
    ghost var f, e, free, last := fs.Fat(), fs.Eff(), fs.freeClst, fs.lastClst;
    c := CreateChain(fs, clst);
    Growth(fs.g, f, fs.Fat(), start, chain, m, clst, free, last, c);
    OthersAfterFat(fs.g, f, e, fs.Fat(), fs.Eff(), chain);
    if Forest(f) {
      CreatedForest(f, fs.Fat(), fs.g, clst, free, last, c);
    }
    if Forest(f) && old(fs.FreeOk()) {
      ForestNoOnes(f);
      GrowthFull(f, fs.Fat(), fs.g.kind, start, chain, m, clst, free, last, c);
    }
  }

  lemma {:induction false} GrowthFull(f: Table, f': Table, kind: Kind, start: nat, chain: seq<nat>, m: nat, clst: nat,
      free: nat, last: nat, c: nat)
    requires |f| >= 3 && Created(f, f', kind, clst, free, last, c) && NoOnes(f)
    requires free <= |f| - 2 ==> free == FreeCount(f)
    requires ChainOk(f, start, chain) && m <= |chain| && (m == 0 ==> chain == [])
    requires clst == if m == 0 then 0 else chain[m - 1]
    ensures c != 1 && (c == 0 ==> FreeCount(f) == 0)
  {
    if m < |chain| {
      ChainAllocated(f, start, chain);
      assert f[chain[m - 1]] == chain[m];
    } else {
      FullExactly(f, f', kind, clst, free, last, c);
    }
  }

  /** remove_chain on a whole chain. */
  method FreeWhole(fs: FatVolume, start: nat, ghost chain: seq<nat>)
    requires fs.Valid() && IsChain(fs.Fat(), start, chain)
    modifies fs, fs.win
    ensures fs.Valid() && fs.Quiet(old(fs.disk), old(fs.winsect))
    ensures OthersKept(fs.g, old(fs.Fat()), old(fs.Eff()), fs.Fat(), fs.Eff(), chain)
    ensures Exact(old(fs.Fat()), chain, fs.Fat(), [])
    ensures old(Healthy(fs) && IsHead(fs.Fat(), start)) ==> Healthy(fs)
  {
    hide FatOf, Flush, Zeros, Mirrored, Rooted, Injective, Removed, Cleared, OthersKept;
    ghost var f, e := fs.Fat(), fs.Eff();
    CutAll(fs.g, f, start, chain);
    var _ := RemoveChain(fs, start, 0);
    OthersAfterFat(fs.g, f, e, fs.Fat(), fs.Eff(), chain);
  }

  /** get_fat and remove_chain behind the first `keep` clusters of a chain. */
  method FreeBehind(fs: FatVolume, ghost start: nat, ghost chain: seq<nat>, ghost keep: nat, clust: nat)
    requires fs.Valid() && IsChain(fs.Fat(), start, chain) && 0 < keep <= |chain| && clust == chain[keep - 1]
    modifies fs, fs.win
    ensures fs.Valid() && fs.Quiet(old(fs.disk), old(fs.winsect))
    ensures IsChain(fs.Fat(), start, chain[..keep])
    ensures OthersKept(fs.g, old(fs.Fat()), old(fs.Eff()), fs.Fat(), fs.Eff(), chain)
    ensures Exact(old(fs.Fat()), chain, fs.Fat(), chain[..keep])
    ensures old(Healthy(fs)) ==> Healthy(fs)
  {
    hide FatOf, Flush, Zeros, Mirrored, Rooted, Injective, Removed, Cleared, OthersKept;
    ghost var f, e := fs.Fat(), fs.Eff();
    CutBehind(fs.g, f, start, chain, keep);
    ChainAllocated(f, start, chain);
    var ncl := fs.GetFat(clust);
    if ncl < fs.g.nFatEnt {
      var _ := RemoveChain(fs, ncl, clust);
    }
    OthersAfterFat(fs.g, f, e, fs.Fat(), fs.Eff(), chain);
  }

  /** All sectors of a file lie in the data area. */
  lemma {:induction false} SectorsInside(g: Geometry, f: Table, start: nat, chain: seq<nat>)
    requires g.csize > 0 && |f| == g.nFatEnt && ChainOk(f, start, chain)
    ensures forall k :: 0 <= k < |Sectors(g, chain)| ==> g.dataBase <= Sectors(g, chain)[k] < g.DataEnd()
  {
    forall k: nat | k < |Sectors(g, chain)| ensures g.dataBase <= Sectors(g, chain)[k] < g.DataEnd() {
      SectorInside(g, chain, k);
    }
  }

  class File {
    const fs: FatVolume
    const readable: bool
    const writable: bool
    var sclust: nat
    var objsize: nat
    var fptr: nat
    var clust: nat
    var sect: nat
    var dirty: bool
    var modified: bool
    var err: FResult
    const buf: array<byte>
    ghost var chain: seq<nat>

    /** The sectors of the file's cluster chain. */
    ghost function S(): seq<nat>
      requires fs.g.csize > 0
      reads `chain
    {
      Sectors(fs.g, chain)
    }

    /** What holds whether or not an error was recorded. */
    ghost predicate Core()
      reads `sclust, `objsize, `sect, `dirty, `chain, buf, fs`disk, fs`winsect, fs`wflag, fs.win
    {
      && fs.Valid()
      && fs.g.DataEnd() <= |fs.disk|
      && buf.Length == 512 && buf != fs.win
      && ChainOk(fs.Fat(), sclust, chain)
      && Readable(fs.disk, S(), objsize) && objsize < 0x1_0000_0000
      && (sect != 0 ==> fs.g.dataBase <= sect < |fs.disk| && fs.winsect != sect)
      && (sect != 0 && !dirty ==> buf[..] == fs.disk[sect])
      && (dirty ==> sect in S())
      && fs.winsect !in S()
    }

    /** The position, the remembered cluster and the buffered sector fit together: with
        fptr above 0, clust is element (fptr - 1) / cluster size of the chain. */
    ghost predicate Positioned()
      requires fs.g.csize > 0
      reads `fptr, `objsize, `clust, `chain, `sect
    {
      && fptr <= objsize
      && (fptr > 0 ==> ClusterIndex(fs.g, fptr - 1) < |chain| && clust == chain[ClusterIndex(fs.g, fptr - 1)])
      && (Off(fptr) != 0 ==> Sec(fptr) < |S()| && sect == S()[Sec(fptr)] && sect != 0)
    }

    ghost predicate Valid()
      reads this, buf, fs`disk, fs`winsect, fs`wflag, fs.win
    {
      Core() && (err == Ok ==> Positioned())
    }

    /** The disk as this file sees it, through its buffer. */
    ghost function View(): (v: Disk)
      requires Core()
      reads `sclust, `objsize, `sect, `dirty, `chain, buf, fs`disk, fs`winsect, fs`wflag, fs.win
      ensures |v| == |fs.disk|
    {
      if sect != 0 then fs.disk[sect := buf[..]] else fs.disk
    }

    /** The abstract value: the bytes of the file. */
    ghost function Contents(): (r: seq<byte>)
      requires Core()
      reads `sclust, `objsize, `sect, `dirty, `chain, buf, fs`disk, fs`winsect, fs`wflag, fs.win
      ensures |r| == objsize
    {
      Content(View(), S(), objsize)
    }

    /** Compared with FAT `f` and disk `e`, other files are untouched. */
    ghost predicate Steady(f: Table, e: Disk, ch: seq<nat>)
      requires Core()
      reads `sclust, `objsize, `sect, `dirty, `chain, buf, fs`disk, fs`winsect, fs`wflag, fs.win
    {
      Kept(fs.g, f, e, ch, fs.Fat(), fs.Eff(), chain)
    }

    /** What f_open leaves of the object for an existing file, or a new empty one. */
    constructor (fs: FatVolume, start: nat, size: nat, readable: bool, writable: bool, ghost chain: seq<nat>)
      requires fs.Valid() && fs.g.DataEnd() <= |fs.disk|
      requires ChainOk(fs.Fat(), start, chain)
      requires Readable(fs.disk, Sectors(fs.g, chain), size) && size < 0x1_0000_0000
      requires fs.winsect !in Sectors(fs.g, chain)
      ensures Valid() && this.fs == fs && this.chain == chain && fresh(buf)
      ensures objsize == size && fptr == 0 && err == Ok && !dirty
      ensures this.readable == readable && this.writable == writable
      ensures Contents() == Content(fs.disk, Sectors(fs.g, chain), size)
    {
      this.fs, this.readable, this.writable := fs, readable, writable;
      sclust, objsize, fptr, clust, sect := start, size, 0, 0, 0;
      dirty, modified, err := false, false, Ok;
      this.chain := chain;
      buf := new byte[512](_ => 0);
    }

    /** The cluster and the offset in it at which the dirty sector lies. */
    lemma DirtyPlace() returns (a: nat, x: nat)
      requires Core() && dirty
      ensures sect != 0 && a < |chain| && x < fs.g.csize && fs.g.ValidCluster(chain[a])
      ensures sect == fs.g.ClusterSector(chain[a]) + x
    {
      hide Geometry.DataEnd, FatOf, Flush;
      var k :| 0 <= k < |S()| && S()[k] == sect;
      SectorInside(fs.g, chain, k);
      a, x := Place(fs.g, chain, k);
    }

    /** Write-back of the dirty buffer. */
    method FlushBuffer()
      requires Core()
      modifies fs`disk, this`dirty
      ensures Core() && !dirty && View() == old(View()) && Contents() == old(Contents())
      ensures Steady(old(fs.Fat()), old(fs.Eff()), old(chain)) && fs.Fat() == old(fs.Fat())
      ensures old(Healthy(fs)) ==> Healthy(fs)
    {
      hide Geometry.DataEnd, FatOf, Flush, Mirrored, Forest, WriteSectors, Content, Sectors, Geometry.ClusterSector;
      if dirty {
        ghost var a, x := DirtyPlace();
        WriteOne(fs.disk, sect, buf[..]);
        DiskWrite(fs, sect, 1, buf[..]);
        OthersAfterWrite(fs.g, fs.Fat(), old(fs.Eff()), fs.Eff(), chain, a, x, 1, buf[..]);
        dirty := false;
      }
    }

    /** The remembered cluster is the one that holds the position. */
    ghost predicate At()
      requires fs.g.csize > 0
      reads `fptr, `clust, `chain
    {
      ClusterIndex(fs.g, fptr) < |chain| && clust == chain[ClusterIndex(fs.g, fptr)]
    }

    /** FAT work that keeps or lengthens the chain leaves the contents alone. */
    twostate lemma AfterFat()
      requires old(Core()) && fs.Valid() && fs.Quiet(old(fs.disk), old(fs.winsect))
      requires ChainOk(fs.Fat(), sclust, chain) && old(chain) <= chain
      requires chain != old(chain) ==> fs.g.InFirstFat(fs.winsect)
      requires unchanged(this`sect, this`dirty, this`objsize, buf)
      ensures Core() && Contents() == old(Contents())
    {
      hide FatOf, Flush, Geometry.DataEnd, Sectors, Geometry.ClusterSector, IsChain, InRange;
      SectorsInside(fs.g, old(fs.Fat()), old(sclust), old(chain));
      SectorsInside(fs.g, fs.Fat(), sclust, chain);
      SectorsPrefix(fs.g, chain, |old(chain)|);
      assert chain[..|old(chain)|] == old(chain);
      assert forall k :: 0 <= k < |old(S())| ==> S()[k] == old(S())[k];
      DirtyStays(old(S()), S(), sect);
      ContentSame(old(View()), old(S()), View(), S(), objsize);
    }

    static lemma DirtyStays(s: seq<nat>, s': seq<nat>, x: nat)
      requires |s| <= |s'| && forall k :: 0 <= k < |s| ==> s'[k] == s[k]
      ensures x in s ==> x in s'
    {
    }

    /** create_chain on the file's own chain, behind its first `m` clusters. */
    method Stretch(ghost m: nat) returns (c: nat)
      requires Core() && m <= |chain| && (m == 0 ==> chain == [])
      requires m > 0 ==> clust == chain[m - 1]
      modifies this`clust, this`sclust, this`chain, fs, fs.win
      ensures Core() && Contents() == old(Contents()) && old(chain) <= chain
      ensures Steady(old(fs.Fat()), old(fs.Eff()), old(chain))
      ensures old(Healthy(fs)) ==> Healthy(fs)
      ensures old(Healthy(fs)) ==> c != 1 && (c == 0 ==> FreeCount(fs.Fat()) == 0)
      ensures c <= 1 ==>
        clust == old(clust) && sclust == old(sclust) && chain == old(chain) && fs.Fat() == old(fs.Fat())
      ensures c > 1 ==> m < |chain| && clust == c == chain[m]
      ensures c <= 1 ==> m == |chain|
    {
      hide FatOf, Flush, Mirrored, Zeros, Content, Sectors, Geometry.ClusterSector, Geometry.DataEnd, OthersKept,
        NoOnes, View, Contents, Exact, Healthy, FreeCount, Readable;
      var from := if sclust == 0 then 0 else clust;
      c := Grow(fs, from, sclust, chain, m);
      if c > 1 {
        clust := c;
        if sclust == 0 {
          sclust := c;
        }
        if m == |chain| {
          chain := chain + [c];
        }
      }
      AfterFat();
    }

    /** The FAT work of f_write at a cluster boundary: follow the chain or stretch it. */
    method FollowOrStretch() returns (c: nat)
      requires Valid() && err == Ok && Off(fptr) == 0 && SectorInCluster(fs.g, fptr) == 0
      modifies this`clust, this`sclust, this`chain, fs, fs.win
      ensures Core() && Contents() == old(Contents()) && old(chain) <= chain
      ensures Steady(old(fs.Fat()), old(fs.Eff()), old(chain))
      ensures old(Healthy(fs)) ==> Healthy(fs)
      ensures old(Healthy(fs)) ==> c != 1 && (c == 0 ==> FreeCount(fs.Fat()) == 0)
      ensures c <= 1 ==> Valid() && chain == old(chain) && fs.Fat() == old(fs.Fat())
      ensures c > 1 ==> At()
    {
      hide Core, Contents, Content, Sectors, Healthy, FatVolume.Valid, Kept, Positioned, ClusterIndex, FreeCount;
      CoreFacts();
      BeforeFollow();
      if fptr == 0 && sclust != 0 {
        c := sclust;
        clust := c;
        MovedClust();
      } else {
        c := Stretch(ClusterIndex(fs.g, fptr));
        if c <= 1 {
          StillPositioned();
        }
      }
    }

    /** At a cluster boundary: the next cluster is wanted behind those before the position. */
    lemma BeforeFollow()
      requires Valid() && err == Ok && Off(fptr) == 0 && SectorInCluster(fs.g, fptr) == 0
      ensures ClusterIndex(fs.g, fptr) <= |chain|
      ensures ClusterIndex(fs.g, fptr) > 0 ==> fptr > 0 && clust == chain[ClusterIndex(fs.g, fptr) - 1]
      ensures ClusterIndex(fs.g, fptr) == 0 ==> fptr == 0
      ensures sclust == 0 ==> chain == []
      ensures sclust != 0 ==> sclust > 1 && |chain| > 0 && chain[0] == sclust
    {
      hide FatOf, Flush, Sectors, Geometry.DataEnd, ClusterIndex, Readable;
      if fptr > 0 {
        IndexBoundary(fs.g, fptr);
      } else {
        IndexZero(fs.g);
      }
    }

    /** The remembered cluster is no part of the abstract value. */
    twostate lemma MovedClust()
      requires old(Core()) && unchanged(this`sclust, this`objsize, this`sect, this`dirty, this`chain, buf, fs`disk,
        fs`winsect, fs`wflag, fs.win)
      ensures Core() && Contents() == old(Contents()) && Steady(old(fs.Fat()), old(fs.Eff()), chain)
    {
      hide Content, Sectors, FatOf, Flush;
      OthersAfterFat(fs.g, fs.Fat(), fs.Eff(), fs.Fat(), fs.Eff(), chain);
    }

    twostate lemma StillPositioned()
      requires fs.g.csize > 0 && old(Positioned()) && unchanged(this`fptr, this`objsize, this`sect)
      requires clust == old(clust) && chain == old(chain)
      ensures Positioned()
    {
    }

    /** The sector of the file position, found from the remembered cluster. */
    lemma Located()
      requires Core() && At()
      ensures Sec(fptr) < |S()| && fs.g.ValidCluster(clust)
      ensures S()[Sec(fptr)] == fs.g.ClusterSector(clust) + SectorInCluster(fs.g, fptr)
      ensures fs.g.dataBase <= S()[Sec(fptr)] < fs.g.DataEnd() && S()[Sec(fptr)] > 0
    {
      hide FatOf, Flush, Geometry.DataEnd, Geometry.ClusterSector, Sectors;
      IndexWithin(fs.g, fptr, |chain|);
      SectorInside(fs.g, chain, Sec(fptr));
    }

    /** Points the buffer at the sector of the position: at a sector boundary the buffer
        is filled first, unless the file ends there. */
    method PrepareBuffer()
      requires Core() && fptr <= objsize && At()
      requires Off(fptr) == 0 ==> !dirty
      requires Off(fptr) != 0 ==> Positioned()
      modifies this`sect, buf
      ensures Sec(fptr) < |S()| && sect == S()[Sec(fptr)] && sect != 0 && (old(dirty) ==> sect == old(sect))
      ensures forall j :: 0 <= j < 512 && 512 * Sec(fptr) + j < objsize ==> buf[j] == old(View())[S()[Sec(fptr)]][j]
    {
      Located();
      hide FatOf, Flush, Geometry.DataEnd, Geometry.ClusterSector, Sectors, SectorInCluster, ClusterIndex, IsChain,
        Sec, Off;
      if Off(fptr) == 0 {
        var t := fs.ClusterToSector(clust) + SectorInCluster(fs.g, fptr);
        if sect != t && fptr < objsize {
          CopyInto(buf, 0, fs.disk[t]);
          assert buf[..] == fs.disk[t];
        }
        sect := t;
      }
    }

    /** The loop increment of f_write: the position moves on, the size follows it. */
    method Advance(n: nat)
      modifies this`fptr, this`objsize
      ensures fptr == old(fptr) + n && objsize == Max(old(objsize), fptr)
    {
      fptr := fptr + n;
      if fptr > objsize {
        objsize := fptr;
      }
    }

    /** The buffer became sector `k` of the file with `x` at offset `o`: its other bytes
        are those of the file as far as the file reached. */
    twostate predicate Stored(k: nat, o: nat, x: seq<byte>)
      requires old(Core()) && Shaped()
      reads `sect, `dirty, `chain, buf
    {
      && k < |S()| && sect == S()[k] && sect != 0 && dirty && (old(dirty) ==> sect == old(sect))
      && S()[k] < |old(fs.disk)| && o + |x| <= 512 && buf[..][o..o + |x|] == x
      && forall j :: 0 <= j < 512 && !(o <= j < o + |x|) && 512 * k + j < old(objsize) ==>
        buf[j] == old(View())[S()[k]][j]
    }

    ghost predicate Shaped() {
      fs.g.csize > 0 && buf.Length == 512 && buf != fs.win
    }

    /** Puts `x` into the buffer at the offset of the position. */
    method StoreInBuffer(x: seq<byte>)
      requires Core() && fptr <= objsize && At() && |x| <= 512 - Off(fptr)
      requires Off(fptr) == 0 ==> !dirty
      requires Off(fptr) != 0 ==> Positioned()
      modifies this`sect, this`dirty, buf
      ensures Stored(Sec(fptr), Off(fptr), x)
    {
      PrepareBuffer();
      hide FatOf, Flush, Geometry.DataEnd, Geometry.ClusterSector, Sectors, SectorInCluster, ClusterIndex, IsChain,
        Sec, Off, Content, View;
      ghost var b := buf[..];
      CopyInto(buf, Off(fptr), x);
      PatchReads(b, Off(fptr), x);
      dirty := true;
    }

    /** What storing `x` at the position does to the contents. */
    twostate lemma AfterPart(x: seq<byte>)
      requires old(Core()) && unchanged(fs, fs.win, this`chain, this`sclust) && Shaped()
      requires Stored(Sec(old(fptr)), Off(old(fptr)), x) && old(fptr) <= old(objsize)
      requires objsize == Max(old(objsize), old(fptr) + |x|) < 0x1_0000_0000
      ensures Core() && Contents() == Splice(old(Contents()), old(fptr), x)
    {
      hide FatOf, Flush, Geometry.DataEnd, Geometry.ClusterSector, Sectors, IsChain, Sec, Off, Content, Splice;
      SectorsInside(fs.g, fs.Fat(), sclust, chain);
      SectorsDistinct(fs.g, fs.Fat(), sclust, chain);
      Whole(old(fptr));
      ghost var v, k, o := old(View()), Sec(old(fptr)), Off(old(fptr));
      assert forall j :: 0 <= j < 512 ==> buf[..][j] == buf[j];
      WritePart(v, S(), old(objsize), k, o, x, buf[..]);
      assert View() == v[S()[k] := buf[..]];
    }

    static lemma Whole(p: nat)
      ensures 512 * Sec(p) + Off(p) == p
    {
    }

    /** Storing `x` at the position keeps position and buffer in step. */
    twostate lemma PositionAfterStore(x: seq<byte>)
      requires Shaped() && old(Core() && At()) && unchanged(this`chain, this`clust)
      requires 0 < |x| <= 512 - Off(old(fptr)) && Stored(Sec(old(fptr)), Off(old(fptr)), x)
      requires fptr == old(fptr) + |x| && objsize == Max(old(objsize), fptr)
      ensures Positioned()
    {
      hide Core, Sectors, ClusterIndex, Sec, Off;
      StoreFacts(old(fptr), |x|);
    }

    lemma StoreFacts(p: nat, n: nat)
      requires fs.g.csize > 0 && 0 < n <= 512 - Off(p)
      ensures Sec(p + n - 1) == Sec(p) && ClusterIndex(fs.g, p + n - 1) == ClusterIndex(fs.g, p)
      ensures Off(p + n) != 0 ==> Sec(p + n) == Sec(p)
      ensures 512 * Sec(p) + Off(p) == p
    {
      SameSector(p, n);
      IndexSame(fs.g, p, p + n - 1);
    }

    /** Stores `x` in the sector of the position through the buffer. */
    method WriteInSector(x: seq<byte>)
      requires Core() && fptr <= objsize && 0 < |x| <= 512 - Off(fptr)
      requires Off(fptr) == 0 ==> !dirty
      requires At() && (Off(fptr) != 0 ==> Positioned())
      requires fptr + |x| < 0x1_0000_0000
      modifies this`sect, this`dirty, this`fptr, this`objsize, buf
      ensures Core() && Positioned() && dirty && fptr == old(fptr) + |x|
      ensures Contents() == Splice(old(Contents()), old(fptr), x)
    {
      hide Core, Positioned, At, Contents, Splice, Sec, Off, ClusterIndex;
      CoreFacts();
      StoreInBuffer(x);
      Advance(|x|);
      AfterPart(x);
      PositionAfterStore(x);
    }

    static lemma PatchReads(b: seq<byte>, o: nat, x: seq<byte>)
      requires o + |x| <= |b|
      ensures Patch(b, o, x)[o..o + |x|] == x
    {
    }

    static lemma SameSector(p: nat, n: nat)
      requires 0 < n <= 512 - Off(p)
      ensures Sec(p + n - 1) == Sec(p)
      ensures Off(p + n) != 0 ==> Sec(p + n) == Sec(p)
      ensures 512 * Sec(p) + Off(p) == p
    {
    }

    /** `n` sectors were written to the disk from sector `t` on, and a buffered sector among
        them was refreshed. */
    twostate predicate DirectDone(m: Span)
      requires old(fs.Valid()) && fs.Valid() && m.Sized() && m.t + m.n <= old(|fs.disk|)
      reads `sect, buf, fs`disk, fs`winsect, fs`wflag, fs.win
    {
      && fs.Fat() == old(fs.Fat()) && fs.winsect == old(fs.winsect)
      && fs.disk == WriteSectors(old(fs.disk), m.t, m.n, m.d)
      && fs.Eff() == WriteSectors(old(fs.Eff()), m.t, m.n, m.d)
      && buf[..] == if m.t <= sect < m.t + m.n then fs.disk[sect] else old(buf[..])
    }

    method PutDirect(t: nat, n: nat, d: seq<byte>)
      requires fs.Valid() && Shaped() && |d| == 512 * n && fs.g.dataBase <= t && t + n <= |fs.disk|
      requires !(t <= fs.winsect < t + n)
      modifies buf, fs`disk
      ensures fs.Valid() && DirectDone(Span(t, n, d)) && fs.Fat() == old(fs.Fat())
      ensures old(Healthy(fs)) ==> Healthy(fs)
    {
      hide FatOf, Flush, Healthy, WriteSectors;
      DiskWrite(fs, t, n, d);
      if t <= sect < t + n {
        CopyInto(buf, 0, fs.disk[sect]);
        assert buf[..] == fs.disk[sect];
      }
    }

    /** What writing whole sectors straight to the disk does to the contents. */
    twostate lemma AfterDirect(m: Span)
      requires m.Sized() && old(Core() && !dirty && At()) && fs.Valid() && Shaped() && m.n > 0
      requires unchanged(this`chain, this`sclust, this`sect, this`dirty)
      requires Run(S(), Sec(old(fptr)), m.t, m.n) && m.t + m.n <= old(|fs.disk|) && DirectDone(m)
      requires Off(old(fptr)) == 0 && old(fptr) <= old(objsize)
      requires objsize == Max(old(objsize), old(fptr) + 512 * m.n) < 0x1_0000_0000
      ensures Core() && Contents() == Splice(old(Contents()), old(fptr), m.d)
    {
      hide FatOf, Flush, Geometry.DataEnd, Geometry.ClusterSector, Sectors, IsChain, Sec, Off, ClusterIndex;
      SectorsInside(fs.g, fs.Fat(), sclust, chain);
      SectorsDistinct(fs.g, fs.Fat(), sclust, chain);
      Whole(old(fptr));
      WriteRun(old(View()), S(), old(objsize), Sec(old(fptr)), m.t, m.n, m.d);
      ViewWritten(old(fs.disk), old(View()), m, sect, old(buf[..]), buf[..]);
      assert View() == if sect != 0 then fs.disk[sect := buf[..]] else fs.disk;
    }

    static lemma ViewWritten(d0: Disk, v: Disk, m: Span, x: nat, b: Sector, b': Sector)
      requires m.Sized() && m.t + m.n <= |d0| && |v| == |d0| && x < |d0|
      requires v == if x != 0 then d0[x := b] else d0
      requires b' == if m.t <= x < m.t + m.n then WriteSectors(d0, m.t, m.n, m.d)[x] else b
      ensures WriteSectors(v, m.t, m.n, m.d) ==
              var w := WriteSectors(d0, m.t, m.n, m.d); if x != 0 then w[x := b'] else w
    {
    }

    /** Where the sectors of a direct transfer lie. */
    lemma DirectPlace(t: nat, n: nat)
      requires Core() && At() && Off(fptr) == 0 && n > 0 && SectorInCluster(fs.g, fptr) + n <= fs.g.csize
      requires t == fs.g.ClusterSector(clust) + SectorInCluster(fs.g, fptr)
      ensures fs.g.ValidCluster(clust) && Run(S(), Sec(fptr), t, n)
      ensures fs.g.dataBase <= t && t + n <= |fs.disk| && !(t <= fs.winsect < t + n)
      ensures ClusterIndex(fs.g, fptr + 512 * n - 1) == ClusterIndex(fs.g, fptr)
      ensures 512 * Sec(fptr) == fptr && t > 0
    {
      Located();
      Whole(fptr);
      ClusterRun(fs.g, chain, Sec(fptr), n);
      IndexRun(fs.g, fptr, n);
      hide FatOf, Flush, Geometry.DataEnd, Geometry.ClusterSector, Sectors, IsChain;
      assert S()[Sec(fptr) + (n - 1)] == t + (n - 1);
      WindowOff(Sec(fptr), t, n);
    }

    lemma WindowOff(k: nat, t: nat, n: nat)
      requires Core() && Run(S(), k, t, n)
      ensures !(t <= fs.winsect < t + n)
    {
      var m := if t <= fs.winsect < t + n then k + (fs.winsect - t) else k;
      assert n > 0 ==> S()[m] == t + (m - k) && S()[m] in S();
    }

    /** A direct transfer moves the position on within its cluster. */
    twostate lemma PositionAfterDirect(n: nat)
      requires fs.g.csize > 0 && old(At()) && n > 0 && unchanged(this`chain, this`clust)
      requires Off(old(fptr)) == 0 && fptr == old(fptr) + 512 * n && fptr <= objsize
      requires ClusterIndex(fs.g, fptr - 1) == ClusterIndex(fs.g, old(fptr))
      ensures Positioned()
    {
      hide ClusterIndex, Sectors;
      assert Off(fptr) == 0;
    }

    /** A direct transfer leaves other files alone. */
    twostate lemma OthersAfterDirect(m: Span)
      requires old(fs.Valid() && At()) && fs.Valid() && Core() && m.Sized()
      requires unchanged(this`chain, this`clust) && m.t + m.n <= old(|fs.disk|) && DirectDone(m)
      requires fs.g.ValidCluster(clust) && m.t == fs.g.ClusterSector(clust) + SectorInCluster(fs.g, old(fptr))
      requires SectorInCluster(fs.g, old(fptr)) + m.n <= fs.g.csize
      ensures Steady(old(fs.Fat()), old(fs.Eff()), chain)
    {
      hide FatOf, Flush, Geometry.DataEnd, Geometry.ClusterSector, Sectors, IsChain, Content, View, Contents, Sec,
        Off, Readable, OthersKept, WriteSectors;
      OthersAfterWrite(fs.g, fs.Fat(), old(fs.Eff()), fs.Eff(), chain, ClusterIndex(fs.g, old(fptr)),
                       SectorInCluster(fs.g, old(fptr)), m.n, m.d);
    }

    /** The direct path of f_write: `d` is a whole number of sectors within one cluster. A
        buffered sector among those written is refreshed. */
    method WriteDirect(n: nat, d: seq<byte>)
      requires Core() && !dirty && fptr <= objsize && At() && Off(fptr) == 0 && n > 0 && |d| == 512 * n
      requires SectorInCluster(fs.g, fptr) + n <= fs.g.csize && fptr + |d| < 0x1_0000_0000
      modifies this`fptr, this`objsize, buf, fs`disk
      ensures Core() && Positioned() && !dirty && fptr == old(fptr) + |d|
      ensures Contents() == Splice(old(Contents()), old(fptr), d)
      ensures Steady(old(fs.Fat()), old(fs.Eff()), chain) && fs.Fat() == old(fs.Fat())
      ensures old(Healthy(fs)) ==> Healthy(fs)
    {
      hide Core, Positioned, At, Contents, Splice, Healthy, Steady, FatVolume.Valid, WriteSectors,
        Geometry.ClusterSector, Geometry.DataEnd, SectorInCluster, ClusterIndex, Sectors, Run, Sec, Off, DirectDone;
      CoreFacts();
      var t := fs.ClusterToSector(clust) + SectorInCluster(fs.g, fptr);
      DirectPlace(t, n);
      PutDirect(t, n, d);
      Advance(512 * n);
      AfterDirect(Span(t, n, d));
      OthersAfterDirect(Span(t, n, d));
      PositionAfterDirect(n);
    }

    lemma CoreFacts()
      requires Core()
      ensures fs.Valid() && fs.g.csize > 0 && Shaped() && objsize < 0x1_0000_0000 && fs.g.DataEnd() <= |fs.disk|
      ensures Steady(fs.Fat(), fs.Eff(), chain)
    {
    }

    lemma FatsFirst()
      requires Core()
      ensures forall s: nat :: fs.g.InFirstFat(s) ==> s < fs.g.dataBase
    {
      hide FatOf, Flush, Geometry.DataEnd, Sectors, ChainOk, Readable;
    }

    /** Between cluster boundaries the remembered cluster still holds the position. */
    lemma StillAt()
      requires fs.g.csize > 0 && Positioned() && (Off(fptr) != 0 || SectorInCluster(fs.g, fptr) != 0)
      ensures At()
    {
      if Off(fptr) == 0 {
        IndexInside(fs.g, fptr);
      } else {
        SameSector(fptr - Off(fptr), Off(fptr));
        BeforeInside(fptr);
        IndexSame(fs.g, fptr - 1, fptr);
      }
    }

    static lemma BeforeInside(p: nat)
      requires Off(p) != 0
      ensures p > 0 && Sec(p - 1) == Sec(p)
    {
    }

    /** f_write up to the point where data is moved: the cluster of the position is
        remembered, and at a sector boundary the buffer is clean. */
    method Arrive() returns (c: nat)
      requires Valid() && err == Ok
      modifies this`clust, this`sclust, this`chain, this`dirty, fs, fs.win
      ensures Core() && Contents() == old(Contents()) && old(chain) <= chain
      ensures Steady(old(fs.Fat()), old(fs.Eff()), old(chain))
      ensures old(Healthy(fs)) ==> Healthy(fs) && c != 1 && (c == 0 ==> FreeCount(fs.Fat()) == 0)
      ensures c <= 1 ==> Valid()
      ensures c > 1 ==> At() && (Off(fptr) == 0 ==> !dirty) && (Off(fptr) != 0 ==> Positioned())
    {
      hide Core, Contents, Kept, Healthy, FreeCount, Off, SectorInCluster, At, FatVolume.Valid;
      CoreFacts();
      c := 2;
      if Off(fptr) == 0 {
        if SectorInCluster(fs.g, fptr) == 0 {
          c := FollowOrStretch();
          if c <= 1 {
            return;
          }
          CoreFacts();
        } else {
          StillAt();
        }
        ghost var f1, e1, ch1 := fs.Fat(), fs.Eff(), chain;
        FlushBuffer();
        CoreFacts();
        KeptCompose(fs.g, old(fs.Fat()), old(fs.Eff()), old(chain), f1, e1, ch1, fs.Fat(), fs.Eff(), chain);
      } else {
        StillAt();
      }
    }

    /** How many sectors the direct path moves at once: up to the end of the cluster. */
    method DirectCount(rest: nat) returns (cc: nat)
      requires fs.g.csize > 0
      ensures cc == 0 <==> rest < 512
      ensures cc > 0 ==> 512 * cc <= rest && SectorInCluster(fs.g, fptr) + cc <= fs.g.csize
    {
      cc := rest / 512;
      var csect := SectorInCluster(fs.g, fptr);
      if cc > 0 && csect + cc > fs.g.csize {
        cc := fs.g.csize - csect;
      }
    }

    /** Moves a part of `d` to the file: whole sectors directly, else through the buffer. */
    method MoveData(d: seq<byte>) returns (n: nat)
      requires Core() && At() && |d| > 0 && fptr <= objsize && fptr + |d| < 0x1_0000_0000
      requires (Off(fptr) == 0 ==> !dirty) && (Off(fptr) != 0 ==> Positioned())
      modifies this`sect, this`dirty, this`fptr, this`objsize, buf, fs`disk
      ensures Core() && Positioned() && 0 < n <= |d| && fptr == old(fptr) + n
      ensures Contents() == Splice(old(Contents()), old(fptr), d[..n])
      ensures Steady(old(fs.Fat()), old(fs.Eff()), chain) && fs.Fat() == old(fs.Fat())
      ensures old(Healthy(fs)) ==> Healthy(fs)
    {
      hide Core, Positioned, Contents, Kept, Healthy, Off, At, Splice, FatVolume.Valid, SectorInCluster;
      CoreFacts();
      var cc := 0;
      if Off(fptr) == 0 {
        cc := DirectCount(|d|);
      }
      if cc > 0 {
        n := 512 * cc;
        WriteDirect(cc, d[..n]);
      } else {
        n := 512 - Off(fptr);
        if n > |d| {
          n := |d|;
        }
        WriteInSector(d[..n]);
      }
    }

    /** One turn of the loop of f_write with `d` left to write: `n` bytes of it are stored,
        or none because no cluster could be had (c is 0: disk full, 1: damaged FAT). */
    method WriteStep(d: seq<byte>) returns (c: nat, n: nat)
      requires Valid() && err == Ok && |d| > 0 && fptr + |d| < 0x1_0000_0000
      modifies this`clust, this`sclust, this`chain, this`sect, this`dirty, this`fptr, this`objsize, buf, fs, fs.win
      ensures Valid() && old(chain) <= chain
      ensures n <= |d| && fptr == old(fptr) + n && Contents() == Splice(old(Contents()), old(fptr), d[..n])
      ensures c <= 1 <==> n == 0
      ensures Steady(old(fs.Fat()), old(fs.Eff()), old(chain))
      ensures old(Healthy(fs)) ==> Healthy(fs) && c != 1 && (c == 0 ==> FreeCount(fs.Fat()) == 0)
    {
      hide Core, Positioned, Contents, Kept, Healthy, FreeCount, Off, At, Splice, FatVolume.Valid;
      CoreFacts();
      Bounds();
      SpliceNothing(Contents(), fptr);
      assert d[..0] == [];
      n := 0;
      c := Arrive();
      if c > 1 {
        CoreFacts();
        ghost var f1, e1, ch1 := fs.Fat(), fs.Eff(), chain;
        n := MoveData(d);
        CoreFacts();
        KeptCompose(fs.g, old(fs.Fat()), old(fs.Eff()), old(chain), f1, e1, ch1, fs.Fat(), fs.Eff(), chain);
      }
    }

    lemma Bounds()
      requires Valid() && err == Ok
      ensures fs.g.csize > 0 && fptr <= objsize == |Contents()| < 0x1_0000_0000
    {
    }

    static lemma SpliceNothing(s: seq<byte>, p: nat)
      requires p <= |s|
      ensures Splice(s, p, []) == s
    {
    }

    /** f_write accepts this many of `n` bytes at position `p`: the size stays below 4 GiB. */
    static function WriteLimit(p: nat, n: nat): (r: nat)
      requires p < 0x1_0000_0000 && n < 0x1_0000_0000
      ensures r <= n && p + r < 0x1_0000_0000 && (p + n < 0x1_0000_0000 ==> r == n)
    {
      if (p + n) % 0x1_0000_0000 < p then 0xFFFF_FFFF - p else n
    }

    /** In the loop of f_write, entered with table `f0`, disk `e0`, chain `ch0` and contents
        `c0` at `p0`, when the bytes `d` have been written. */
    ghost predicate Writing(f0: Table, e0: Disk, ch0: seq<nat>, c0: seq<byte>, p0: nat, d: seq<byte>)
      reads this, buf, fs`disk, fs`winsect, fs`wflag, fs.win
    {
      && Valid() && fs.Valid() && err == Ok && ch0 <= chain && p0 <= |c0| && fptr == p0 + |d|
      && Contents() == Splice(c0, p0, d) && Steady(f0, e0, ch0)
    }

    /** One turn of the loop: `n` of the bytes `d` are written behind `b`. */
    method WriteTurn(d: seq<byte>, ghost b: seq<byte>, ghost f0: Table, ghost e0: Disk, ghost ch0: seq<nat>,
        ghost c0: seq<byte>, ghost p0: nat) returns (c: nat, n: nat)
      requires Writing(f0, e0, ch0, c0, p0, b) && |d| > 0 && fptr + |d| < 0x1_0000_0000
      modifies this`clust, this`sclust, this`chain, this`sect, this`dirty, this`fptr, this`objsize, buf, fs, fs.win
      ensures n <= |d| && Writing(f0, e0, ch0, c0, p0, b + d[..n]) && (c <= 1 <==> n == 0)
      ensures old(Healthy(fs)) ==> Healthy(fs) && c != 1 && (c == 0 ==> FreeCount(fs.Fat()) == 0)
    {
      hide Core, Positioned, Contents, Kept, Healthy, FreeCount, Splice, FatVolume.Valid, FatVolume.Eff, FatVolume.Fat;
      CoreFacts();
      ghost var f1, e1, ch1 := fs.Fat(), fs.Eff(), chain;
      c, n := WriteStep(d);
      SpliceAgain(c0, p0, b, d[..n]);
      CoreFacts();
      KeptCompose(fs.g, f0, e0, ch0, f1, e1, ch1, fs.Fat(), fs.Eff(), chain);
    }

    static lemma SpliceParts(data: seq<byte>, c0: seq<byte>, p0: nat, bw: nat, n: nat, lim: nat)
      requires bw + n <= lim <= |data|
      ensures data[..0] == [] && data[..bw] + data[bw..lim][..n] == data[..bw + n]
      ensures p0 <= |c0| ==> Splice(c0, p0, []) == c0
    {
    }

    /** The loop of f_write: everything is written, or the volume is full, or the chain is damaged. */
    method WriteLoop(data: seq<byte>, all: nat) returns (c: nat, bw: nat)
      requires Valid() && err == Ok && all <= |data| && fptr + all < 0x1_0000_0000
      modifies this`clust, this`sclust, this`chain, this`sect, this`dirty, this`fptr, this`objsize, buf, fs, fs.win
      ensures bw <= all && (c > 1 ==> bw == all)
      ensures Writing(old(fs.Fat()), old(fs.Eff()), old(chain), old(Contents()), old(fptr), data[..bw])
      ensures old(Healthy(fs)) ==> Healthy(fs) && c != 1 && (c == 0 ==> FreeCount(fs.Fat()) == 0)
    {
      hide Core, Positioned, Contents, Kept, Healthy, FreeCount, Splice, FatVolume.Valid, FatVolume.Eff, FatVolume.Fat;
      CoreFacts();
      Bounds();
      ghost var f0, e0, ch0, c0, p0 := fs.Fat(), fs.Eff(), chain, Contents(), fptr;
      SpliceParts(data, c0, p0, 0, 0, all);
      bw := 0;
      c := 2;
      while bw < all
        invariant bw <= all && fptr == p0 + bw && c > 1 && Writing(f0, e0, ch0, c0, p0, data[..bw])
        invariant old(Healthy(fs)) ==> Healthy(fs)
      {
        var n;
        SpliceParts(data, c0, p0, bw, 0, all);
        c, n := WriteTurn(data[bw..all], data[..bw], f0, e0, ch0, c0, p0);
        SpliceParts(data, c0, p0, bw, n, all);
        bw := bw + n;
        if c <= 1 {
          return;
        }
      }
    }

    /** f_write. The bytes of `data` that fit, `bw` of them, replace or extend the contents
        from the position on; fewer than asked are stored only when no cluster is free. */
    method Write(data: seq<byte>) returns (res: FResult, bw: nat)
      requires Valid() && |data| < 0x1_0000_0000
      modifies this, buf, fs, fs.win
      ensures Valid() && bw <= |data| && old(chain) <= chain
      ensures old(err) != Ok ==> res == old(err) && bw == 0
      ensures old(err) == Ok && !writable ==> res == Denied && bw == 0 && err == Ok
      ensures old(fptr) <= old(objsize) ==> Contents() == Splice(old(Contents()), old(fptr), data[..bw])
      ensures bw == 0 ==> Contents() == old(Contents())
      ensures fptr == old(fptr) + bw
      ensures res == Ok ==> err == Ok && modified
      ensures Steady(old(fs.Fat()), old(fs.Eff()), old(chain))
      ensures old(Healthy(fs)) ==> Healthy(fs)
      ensures old(Healthy(fs)) && old(err) == Ok && writable ==>
        res == Ok && old(fptr) < 0x1_0000_0000 && (bw < WriteLimit(old(fptr), |data|) ==> FreeCount(fs.Fat()) == 0)
    {
      hide Core, Positioned, Contents, Kept, Healthy, FreeCount, Splice, FatVolume.Valid;
      CoreFacts();
      bw := 0;
      SpliceZero(data);
      if err != Ok {
        return err, 0;
      }
      if !writable {
        return Denied, 0;
      }
      Bounds();
      var c;
      c, bw := WriteLoop(data, WriteLimit(fptr, |data|));
      if c == 1 {
        err := IntErr;
        return IntErr, bw;
      }
      modified := true;
      res := Ok;
    }

    lemma SpliceZero(data: seq<byte>)
      requires Valid()
      ensures data[..0] == []
      ensures fptr <= objsize ==> Splice(Contents(), fptr, data[..0]) == Contents()
    {
    }

    // ----- f_read -----

    /** Below the end of the file the position lies in the chain. */
    lemma InChain()
      requires Core() && fptr < objsize
      ensures ClusterIndex(fs.g, fptr) < |chain|
    {
      hide FatOf, Flush, Geometry.DataEnd, ChainOk, ClusterIndex;
      SecBelow(fptr, |S()|);
      IndexBound(fs.g, fptr, |chain|);
    }

    static lemma SecBelow(p: nat, n: nat)
      requires p < 512 * n
      ensures Sec(p) < n
    {
    }

    /** Walking one link within the chain leads to its next element. */
    lemma NextInChain(m: nat)
      requires Core() && 0 < m < |chain|
      ensures InRange(fs.Fat(), chain[m - 1]) && fs.Fat()[chain[m - 1]] == chain[m]
    {
      hide FatOf, Flush, Geometry.DataEnd, Sectors;
    }

    lemma HeadOfChain()
      requires Core() && |chain| > 0
      ensures sclust == chain[0]
    {
      hide FatOf, Flush, Geometry.DataEnd, Sectors;
    }

    /** get_fat on behalf of the file. */
    method Link(c: nat) returns (nxt: nat)
      requires Core()
      modifies fs`disk, fs`wflag, fs`winsect, fs.win
      ensures Core() && Contents() == old(Contents()) && fs.Fat() == old(fs.Fat())
      ensures nxt == if InRange(fs.Fat(), c) then fs.Fat()[c] else 1
      ensures Steady(old(fs.Fat()), old(fs.Eff()), chain)
      ensures old(Healthy(fs)) ==> Healthy(fs)
    {
      hide FatOf, Flush, Geometry.DataEnd, Sectors, Mirrored, Zeros, Forest, Content, ChainOk, Geometry.ClusterSector;
      ghost var f, e := fs.Fat(), fs.Eff();
      nxt := fs.GetFat(c);
      AfterFat();
      OthersAfterFat(fs.g, f, e, fs.Fat(), fs.Eff(), chain);
    }

    /** The FAT work of f_read at a cluster boundary. */
    method Follow()
      requires Valid() && err == Ok && fptr < objsize && Off(fptr) == 0 && SectorInCluster(fs.g, fptr) == 0
      modifies this`clust, fs`disk, fs`wflag, fs`winsect, fs.win
      ensures Core() && At() && Contents() == old(Contents()) && fs.Fat() == old(fs.Fat())
      ensures Steady(old(fs.Fat()), old(fs.Eff()), chain)
      ensures old(Healthy(fs)) ==> Healthy(fs)
    {
      hide Core, Contents, Kept, Healthy, Off, Sec, SectorInCluster, ClusterIndex, FatVolume.Valid, Sectors;
      CoreFacts();
      InChain();
      if fptr == 0 {
        FirstIndex();
        HeadOfChain();
        clust := sclust;
      } else {
        IndexBoundary(fs.g, fptr);
        NextInChain(ClusterIndex(fs.g, fptr));
        clust := Link(clust);
      }
    }

    lemma FirstIndex()
      requires fs.g.csize > 0
      ensures ClusterIndex(fs.g, 0) == 0
    {
    }

    /** With a clean buffer the file sees the disk itself. */
    lemma CleanView()
      requires Core() && !dirty
      ensures View() == fs.disk
    {
      hide FatOf, Flush, Geometry.DataEnd, Sectors, ChainOk, Geometry.ClusterSector;
      assert sect != 0 ==> fs.disk[sect := buf[..]] == fs.disk;
    }

    /** Filling the buffer from the disk changes nothing the file sees. */
    twostate lemma AfterLoad()
      requires old(Core() && !dirty) && fs.g.dataBase <= sect < |fs.disk| && sect != fs.winsect && sect > 0 && !dirty
      requires unchanged(fs, fs.win, this`chain, this`sclust, this`objsize) && Shaped() && buf[..] == fs.disk[sect]
      ensures Core() && Contents() == old(Contents()) && View() == old(View())
    {
      hide FatOf, Flush, Geometry.DataEnd, Sectors, ChainOk, Geometry.ClusterSector, Content;
      CleanView();
      assert old(View()) == old(fs.disk) by {
        assert old(sect) != 0 ==> old(fs.disk)[old(sect) := old(buf[..])] == old(fs.disk);
      }
    }

    /** Loads sector `t` into the clean buffer. */
    method Fill(t: nat)
      requires Core() && !dirty && fs.g.dataBase <= t < |fs.disk| && t != fs.winsect && t > 0
      modifies this`sect, buf
      ensures Core() && sect == t && Contents() == old(Contents()) && View() == old(View())
    {
      hide Core, Contents, View, FatVolume.Valid;
      CoreFacts();
      CopyInto(buf, 0, fs.disk[t]);
      assert buf[..] == fs.disk[t];
      sect := t;
      AfterLoad();
    }

    /** Loads sector `t` into the buffer unless it is there, writing a dirty buffer back first. */
    method LoadBuffer(t: nat)
      requires Core() && fs.g.dataBase <= t < |fs.disk| && t != fs.winsect && t > 0
      modifies this`sect, this`dirty, buf, fs`disk
      ensures Core() && sect == t && Contents() == old(Contents())
      ensures Steady(old(fs.Fat()), old(fs.Eff()), chain) && fs.Fat() == old(fs.Fat())
      ensures old(Healthy(fs)) ==> Healthy(fs)
    {
      hide Core, Contents, View, FatVolume.Valid, Kept, Healthy;
      CoreFacts();
      if sect != t {
        FlushBuffer();
        Fill(t);
      }
    }

    /** The direct path of f_read: `n` whole sectors of one cluster, with the dirty buffer
        laid over the sector it belongs to. */
    method ReadDirect(rbuff: array<byte>, at: nat, n: nat)
      requires Core() && At() && Off(fptr) == 0 && n > 0 && SectorInCluster(fs.g, fptr) + n <= fs.g.csize
      requires fptr + 512 * n <= objsize && at + 512 * n <= rbuff.Length && rbuff != buf && rbuff != fs.win
      modifies rbuff
      ensures rbuff[..] == Patch(old(rbuff[..]), at, Contents()[fptr..fptr + 512 * n])
      ensures ClusterIndex(fs.g, fptr + 512 * n - 1) == ClusterIndex(fs.g, fptr)
    {
      hide Core, At, Contents, View, FatVolume.Valid, Sectors, Geometry.ClusterSector, ReadSectors, ClusterIndex,
        Geometry.DataEnd, SectorInCluster, Sec, Off, Readable, Run;
      CoreFacts();
      var t := fs.ClusterToSector(clust) + SectorInCluster(fs.g, fptr);
      DirectPlace(t, n);
      DirectBytes(t, n);
      CopyOverlaid(rbuff, at, ReadSectors(fs.disk, t, n), dirty && t <= sect < t + n, 512 * (sect - t), buf[..]);
    }

    /** Copies `d`, then `b` over its part from `o` on if there is one to lay over. */
    static method CopyOverlaid(rbuff: array<byte>, at: nat, d: seq<byte>, over: bool, o: int, b: seq<byte>)
      requires at + |d| <= rbuff.Length && (over ==> 0 <= o && o + |b| <= |d|)
      modifies rbuff
      ensures rbuff[..] == Patch(old(rbuff[..]), at, if over then Patch(d, o, b) else d)
    {
      ghost var r0 := rbuff[..];
      CopyInto(rbuff, at, d);
      if over {
        CopyInto(rbuff, at + o, b);
        PatchTwice(r0, at, d, o, b);
      }
    }

    /** The bytes of a direct read. */
    lemma DirectBytes(t: nat, n: nat)
      requires Core() && Run(S(), Sec(fptr), t, n) && t + n <= |fs.disk| && 512 * Sec(fptr) == fptr
      requires fptr + 512 * n <= objsize
      ensures var d := ReadSectors(fs.disk, t, n);
        Contents()[fptr..fptr + 512 * n] ==
        if dirty && t <= sect < t + n then Patch(d, 512 * (sect - t), buf[..]) else d
    {
      hide FatOf, Flush, Geometry.DataEnd, Sectors, ChainOk, Geometry.ClusterSector, ReadSectors, Content, Sec;
      ReadRun(View(), S(), objsize, Sec(fptr), t, n);
      if dirty {
        var _, _ := DirtyPlace();
        ReadOverlay(fs.disk, t, n, sect, buf[..]);
      } else {
        CleanView();
      }
    }

    static lemma PatchTwice(r: seq<byte>, at: nat, d: seq<byte>, o: nat, b: seq<byte>)
      requires at + |d| <= |r| && o + |b| <= |d|
      ensures Patch(Patch(r, at, d), at + o, b) == Patch(r, at, Patch(d, o, b))
    {
    }

    /** The buffered path of f_read: up to `n` bytes of the sector of the position. */
    method ReadInSector(rbuff: array<byte>, at: nat, n: nat)
      requires Core() && At() && 0 < n <= 512 - Off(fptr) && (Off(fptr) != 0 ==> Positioned())
      requires fptr + n <= objsize && at + n <= rbuff.Length && rbuff != buf && rbuff != fs.win
      modifies rbuff, this`sect, this`dirty, buf, fs`disk
      ensures Core() && Sec(fptr) < |S()| && sect == S()[Sec(fptr)] && sect != 0 && Contents() == old(Contents())
      ensures rbuff[..] == Patch(old(rbuff[..]), at, Contents()[fptr..fptr + n])
      ensures Steady(old(fs.Fat()), old(fs.Eff()), chain) && fs.Fat() == old(fs.Fat())
      ensures old(Healthy(fs)) ==> Healthy(fs)
    {
      hide FatOf, Flush, Geometry.DataEnd, Sectors, ChainOk, Geometry.ClusterSector, Content, ClusterIndex,
        SectorInCluster, Sec, Off, Kept, Healthy, Readable, FatVolume.Valid;
      CoreFacts();
      SectorPlace();
      if Off(fptr) == 0 {
        LoadBuffer(fs.ClusterToSector(clust) + SectorInCluster(fs.g, fptr));
      }
      InBuffer(n);
      CopyInto(rbuff, at, buf[Off(fptr)..Off(fptr) + n]);
    }

    /** The sector of the position can be loaded. */
    lemma SectorPlace()
      requires Core() && At()
      ensures Sec(fptr) < |S()| && S()[Sec(fptr)] == fs.g.ClusterSector(clust) + SectorInCluster(fs.g, fptr)
      ensures fs.g.dataBase <= S()[Sec(fptr)] < |fs.disk| && S()[Sec(fptr)] > 0 && S()[Sec(fptr)] != fs.winsect
    {
      Located();
      hide FatOf, Flush, Sectors, ChainOk, Geometry.ClusterSector, SectorInCluster, ClusterIndex, Sec, Off;
      assert S()[Sec(fptr)] in S();
    }

    /** The buffer holds the file's bytes around the position. */
    lemma InBuffer(n: nat)
      requires Core() && Sec(fptr) < |S()| && sect == S()[Sec(fptr)] && sect != 0
      requires 0 < n <= 512 - Off(fptr) && fptr + n <= objsize
      ensures buf[Off(fptr)..Off(fptr) + n] == Contents()[fptr..fptr + n]
    {
      hide FatOf, Flush, Geometry.DataEnd, Sectors, ChainOk;
      var a, b := buf[Off(fptr)..Off(fptr) + n], Contents()[fptr..fptr + n];
      forall i | 0 <= i < n ensures a[i] == b[i] {
        assert (fptr + i) / 512 == Sec(fptr) && (fptr + i) % 512 == Off(fptr) + i;
      }
    }

    /** After a buffered read the position has moved on within its sector. */
    twostate lemma PositionAfterRead(n: nat)
      requires fs.g.csize > 0 && old(At()) && unchanged(this`chain, this`clust) && 0 < n <= 512 - Off(old(fptr))
      requires Sec(old(fptr)) < |S()| && sect == S()[Sec(old(fptr))] && sect != 0
      requires fptr == old(fptr) + n && fptr <= objsize
      ensures Positioned()
    {
      hide Sectors, ClusterIndex, Sec, Off;
      StoreFacts(old(fptr), n);
    }

    /** Moves bytes of the file at the position to `rbuff`: whole sectors directly, else
        through the buffer. */
    method FetchData(rbuff: array<byte>, at: nat, rest: nat) returns (n: nat)
      requires Core() && At() && (Off(fptr) != 0 ==> Positioned()) && rest > 0 && fptr + rest <= objsize
      requires at + rest <= rbuff.Length && rbuff != buf && rbuff != fs.win
      modifies rbuff, this`sect, this`dirty, this`fptr, buf, fs`disk
      ensures Core() && Positioned() && 0 < n <= rest && fptr == old(fptr) + n && Contents() == old(Contents())
      ensures rbuff[..] == Patch(old(rbuff[..]), at, Contents()[old(fptr)..old(fptr) + n])
      ensures Steady(old(fs.Fat()), old(fs.Eff()), chain) && fs.Fat() == old(fs.Fat())
      ensures old(Healthy(fs)) ==> Healthy(fs)
    {
      hide Core, Positioned, Contents, Kept, Healthy, Off, Sec, At, FatVolume.Valid, SectorInCluster, ClusterIndex,
        Sectors;
      CoreFacts();
      var cc := 0;
      if Off(fptr) == 0 {
        cc := DirectCount(rest);
      }
      if cc > 0 {
        n := 512 * cc;
        FetchRun(rbuff, at, cc);
      } else {
        n := 512 - Off(fptr);
        if n > rest {
          n := rest;
        }
        FetchPart(rbuff, at, n);
      }
    }

    /** Whole sectors go straight to the caller. */
    method FetchRun(rbuff: array<byte>, at: nat, cc: nat)
      requires Core() && At() && Off(fptr) == 0 && cc > 0 && SectorInCluster(fs.g, fptr) + cc <= fs.g.csize
      requires fptr + 512 * cc <= objsize && at + 512 * cc <= rbuff.Length && rbuff != buf && rbuff != fs.win
      modifies rbuff, this`fptr
      ensures Core() && Positioned() && fptr == old(fptr) + 512 * cc && Contents() == old(Contents())
      ensures rbuff[..] == Patch(old(rbuff[..]), at, Contents()[old(fptr)..fptr])
      ensures Steady(old(fs.Fat()), old(fs.Eff()), chain) && fs.Fat() == old(fs.Fat())
      ensures old(Healthy(fs)) ==> Healthy(fs)
    {
      hide Core, Positioned, Contents, Kept, Healthy, Off, Sec, At, FatVolume.Valid, SectorInCluster, ClusterIndex,
        Sectors, Patch;
      CoreFacts();
      ReadDirect(rbuff, at, cc);
      fptr := fptr + 512 * cc;
      PositionAfterDirect(cc);
    }

    /** Part of a sector goes through the buffer. */
    method FetchPart(rbuff: array<byte>, at: nat, n: nat)
      requires Core() && At() && 0 < n <= 512 - Off(fptr) && (Off(fptr) != 0 ==> Positioned())
      requires fptr + n <= objsize && at + n <= rbuff.Length && rbuff != buf && rbuff != fs.win
      modifies rbuff, this`sect, this`dirty, this`fptr, buf, fs`disk
      ensures Core() && Positioned() && fptr == old(fptr) + n && Contents() == old(Contents())
      ensures rbuff[..] == Patch(old(rbuff[..]), at, Contents()[old(fptr)..fptr])
      ensures Steady(old(fs.Fat()), old(fs.Eff()), chain) && fs.Fat() == old(fs.Fat())
      ensures old(Healthy(fs)) ==> Healthy(fs)
    {
      hide Core, Positioned, Contents, Kept, Healthy, Off, Sec, At, FatVolume.Valid, SectorInCluster, ClusterIndex,
        Sectors, Patch;
      CoreFacts();
      ReadInSector(rbuff, at, n);
      fptr := fptr + n;
      PositionAfterRead(n);
    }

    /** One turn of the loop of f_read. */
    method ReadStep(rbuff: array<byte>, at: nat, rest: nat) returns (n: nat)
      requires Valid() && err == Ok && rest > 0 && fptr + rest <= objsize
      requires at + rest <= rbuff.Length && rbuff != buf && rbuff != fs.win
      modifies rbuff, this`clust, this`sect, this`dirty, this`fptr, buf, fs, fs.win
      ensures Valid() && 0 < n <= rest && fptr == old(fptr) + n && Contents() == old(Contents())
      ensures rbuff[..] == Patch(old(rbuff[..]), at, Contents()[old(fptr)..old(fptr) + n])
      ensures Steady(old(fs.Fat()), old(fs.Eff()), chain) && fs.Fat() == old(fs.Fat())
      ensures old(Healthy(fs)) ==> Healthy(fs)
    {
      hide Core, Contents, Kept, Healthy, Off, Sec, At, FatVolume.Valid, SectorInCluster, ClusterIndex, Sectors;
      CoreFacts();
      if Off(fptr) == 0 && SectorInCluster(fs.g, fptr) == 0 {
        Follow();
      } else {
        StillAt();
      }
      CoreFacts();
      ghost var f1, e1 := fs.Fat(), fs.Eff();
      n := FetchData(rbuff, at, rest);
      CoreFacts();
      KeptCompose(fs.g, old(fs.Fat()), old(fs.Eff()), chain, f1, e1, chain, fs.Fat(), fs.Eff(), chain);
    }

    /** `r` is `r0` with its first `n` bytes taken from position `p` of `c`. */
    static ghost predicate Delivered(r0: seq<byte>, r: seq<byte>, c: seq<byte>, p: nat, n: nat) {
      p + n <= |c| && n <= |r0| && r == c[p..p + n] + r0[n..]
    }

    static lemma DeliveredMore(r0: seq<byte>, r: seq<byte>, r': seq<byte>, c: seq<byte>, p: nat, at: nat, n: nat)
      requires Delivered(r0, r, c, p, at) && p + at + n <= |c| && at + n <= |r0|
      requires r' == Patch(r, at, c[p + at..p + at + n])
      ensures Delivered(r0, r', c, p, at + n)
    {
    }

    static lemma DeliveredParts(r0: seq<byte>, r: seq<byte>, c: seq<byte>, p: nat, n: nat)
      requires p <= |c|
      ensures Delivered(r0, r0, c, p, 0)
      ensures Delivered(r0, r, c, p, n) ==> n <= |r| && r[..n] == c[p..p + n] && r[n..] == r0[n..]
    {
    }

    /** f_read: the bytes from the position on, clipped at the end of the file. */
    method Read(rbuff: array<byte>, btr: nat) returns (res: FResult, br: nat)
      requires Valid() && btr <= rbuff.Length && rbuff != buf && rbuff != fs.win
      modifies rbuff, this`clust, this`sect, this`dirty, this`fptr, buf, fs, fs.win
      ensures Valid() && Contents() == old(Contents()) && fs.Fat() == old(fs.Fat())
      ensures old(err) != Ok ==> res == old(err) && br == 0
      ensures old(err) == Ok && !readable ==> res == Denied && br == 0
      ensures old(err) == Ok && readable ==>
        res == Ok && old(fptr) <= objsize && br == (if btr > objsize - old(fptr) then objsize - old(fptr) else btr)
      ensures fptr == old(fptr) + br && (br > 0 ==> fptr <= objsize)
      ensures br <= rbuff.Length && rbuff[br..] == old(rbuff[br..])
      ensures br > 0 ==> rbuff[..br] == Contents()[old(fptr)..fptr]
      ensures Steady(old(fs.Fat()), old(fs.Eff()), chain)
      ensures old(Healthy(fs)) ==> Healthy(fs)
    {
      hide Core, Contents, Kept, Healthy, Positioned, FatVolume.Valid, Delivered;
      CoreFacts();
      br := 0;
      if err != Ok {
        return err, 0;
      }
      if !readable {
        return Denied, 0;
      }
      Bounds();
      var remain := objsize - fptr;
      var rest: nat := if btr > remain then remain else btr;
      br := ReadLoop(rbuff, rest);
      DeliveredParts(old(rbuff[..]), rbuff[..], Contents(), old(fptr), br);
      res := Ok;
    }

    /** In the loop of f_read, `n` bytes after it was entered with table `f0` and disk `e0`. */
    ghost predicate Reading(f0: Table, e0: Disk, c0: seq<byte>, p0: nat, n: nat)
      reads this, buf, fs`disk, fs`winsect, fs`wflag, fs.win
    {
      && Valid() && fs.Valid() && err == Ok && Contents() == c0 && fptr == p0 + n && fs.Fat() == f0
      && Steady(f0, e0, chain)
    }

    /** One turn of the loop. */
    method ReadTurn(rbuff: array<byte>, br: nat, rest: nat, ghost f0: Table, ghost e0: Disk, ghost r0: seq<byte>,
        ghost c0: seq<byte>, ghost p0: nat) returns (n: nat)
      requires Reading(f0, e0, c0, p0, br) && Delivered(r0, rbuff[..], c0, p0, br)
      requires rest > 0 && fptr + rest <= objsize && br + rest <= rbuff.Length == |r0| && rbuff != buf
        && rbuff != fs.win
      modifies rbuff, this`clust, this`sect, this`dirty, this`fptr, buf, fs, fs.win
      ensures 0 < n <= rest && fptr == old(fptr) + n
      ensures Reading(f0, e0, c0, p0, br + n) && Delivered(r0, rbuff[..], c0, p0, br + n)
      ensures old(Healthy(fs)) ==> Healthy(fs)
    {
      hide Core, Contents, Kept, Healthy, Positioned, FatVolume.Valid, Patch, Delivered, FatVolume.Eff, FatVolume.Fat;
      CoreFacts();
      Bounds();
      ghost var f1, e1, r1 := fs.Fat(), fs.Eff(), rbuff[..];
      n := ReadStep(rbuff, br, rest);
      DeliveredMore(r0, r1, rbuff[..], c0, p0, br, n);
      CoreFacts();
      KeptCompose(fs.g, f0, e0, chain, f1, e1, chain, fs.Fat(), fs.Eff(), chain);
    }

    /** The loop of f_read, for a number of bytes that the file has. */
    method ReadLoop(rbuff: array<byte>, all: nat) returns (br: nat)
      requires Valid() && err == Ok && all <= rbuff.Length && fptr + all <= objsize && rbuff != buf && rbuff != fs.win
      modifies rbuff, this`clust, this`sect, this`dirty, this`fptr, buf, fs, fs.win
      ensures br == all && fptr == old(fptr) + all && fptr <= objsize
      ensures Reading(old(fs.Fat()), old(fs.Eff()), old(Contents()), old(fptr), all)
      ensures Delivered(old(rbuff[..]), rbuff[..], old(Contents()), old(fptr), all)
      ensures old(Healthy(fs)) ==> Healthy(fs)
    {
      hide Core, Contents, Kept, Healthy, Positioned, FatVolume.Valid, Patch, Delivered, FatVolume.Eff, FatVolume.Fat;
      CoreFacts();
      Bounds();
      br := 0;
      var rest := all;
      ghost var f0, e0, r0, c0, p0 := fs.Fat(), fs.Eff(), rbuff[..], Contents(), fptr;
      DeliveredParts(r0, r0, c0, p0, 0);
      while rest > 0
        invariant br + rest == all <= rbuff.Length && fptr == p0 + br && p0 + all <= objsize
        invariant Reading(f0, e0, c0, p0, br) && Delivered(r0, rbuff[..], c0, p0, br)
        invariant old(Healthy(fs)) ==> Healthy(fs)
      {
        var n := ReadTurn(rbuff, br, rest, f0, e0, r0, c0, p0);
        rest := rest - n;
        br := br + n;
      }
    }

    // ----- f_lseek -----

    /** During a seek: the walk stands at the start of cluster number `m` of the chain. */
    ghost predicate Walking(m: nat)
      reads `fptr, `clust, `chain
    {
      m < |chain| && clust == chain[m] && fptr == ClusterStart(fs.g, m)
    }

    lemma FirstStart()
      ensures ClusterStart(fs.g, 0) == 0
    {
    }

    /** Where f_lseek starts to walk: the remembered cluster if the target lies in it or
        behind it, else the head of the chain, which is created if there is none. */
    method SeekStart(ofs: nat) returns (clst: nat, rest: nat, ghost m: nat)
      requires Valid() && err == Ok && 0 < ofs < 0x1_0000_0000 && (ofs <= objsize || writable)
      modifies this`clust, this`sclust, this`chain, this`fptr, fs, fs.win
      ensures Core() && Contents() == old(Contents()) && old(chain) <= chain
        && Steady(old(fs.Fat()), old(fs.Eff()), old(chain))
      ensures old(Healthy(fs)) ==> Healthy(fs) && clst != 1
      ensures clst > 1 ==> Walking(m) && clst == clust && fptr + rest == ofs && rest > 0
      ensures clst <= 1 ==> fptr == 0 && chain == old(chain) && objsize == 0
      ensures clst == 0 && old(Healthy(fs)) ==> FreeCount(fs.Fat()) == 0
    {
      hide Core, Contents, Kept, Healthy, FatVolume.Valid, ClusterIndex, Sectors, ClusterStart, FreeCount;
      CoreFacts();
      var bcs := fs.g.csize * 512;
      var ifptr := fptr;
      fptr := 0;
      ByCluster(fs.g, ofs - 1);
      if ifptr > 0 {
        ByCluster(fs.g, ifptr - 1);
      }
      StartOf(fs.g, ofs - 1);
      FirstStart();
      if ifptr > 0 && (ofs - 1) / bcs >= (ifptr - 1) / bcs {
        StartMono(fs.g, ClusterIndex(fs.g, ifptr - 1), ClusterIndex(fs.g, ofs - 1));
        fptr := (ifptr - 1) - (ifptr - 1) % bcs;
        rest := ofs - fptr;
        clst := clust;
        m := ClusterIndex(fs.g, ifptr - 1);
        InRangeChain(m);
      } else {
        clst := sclust;
        rest := ofs;
        m := 0;
        if clst == 0 {
          EmptyChain();
          clst := Stretch(0);
          if clst == 1 {
            return;
          }
        } else {
          HeadInRange();
        }
        clust := clst;
      }
    }

    lemma InRangeChain(m: nat)
      requires Core() && m < |chain|
      ensures chain[m] > 1
    {
      hide FatOf, Flush, Geometry.DataEnd, Sectors;
    }

    lemma EmptyChain()
      requires Core() && sclust == 0
      ensures chain == [] && objsize == 0
    {
      hide FatOf, Flush, Geometry.DataEnd;
    }

    lemma HeadInRange()
      requires Core() && sclust != 0
      ensures |chain| > 0 && sclust == chain[0] && sclust > 1
    {
      hide FatOf, Flush, Geometry.DataEnd, Sectors;
    }

    lemma ChainReaches(ofs: nat, m: nat)
      requires Core() && ofs <= objsize && ofs > ClusterStart(fs.g, m)
      ensures m < |chain|
    {
      hide FatOf, Flush, Geometry.DataEnd, Sectors, ClusterStart, ChainOk;
      SizeOf(fs.g, chain);
      if m >= |chain| {
        StartMono(fs.g, |chain|, m);
        assert false;
      }
    }

    /** The cluster following loop of f_lseek. In write mode it stretches the chain; `c` is
        0 when the disk is full, 1 on a damaged FAT. */
    method SeekWalk(ofs: nat, rest0: nat, ghost m0: nat) returns (c: nat, rest: nat, ghost m: nat)
      requires Core() && Walking(m0) && fptr + rest0 == ofs && rest0 > 0 && (ofs <= objsize || writable)
      modifies this`clust, this`sclust, this`chain, this`fptr, fs, fs.win
      ensures Core() && Contents() == old(Contents()) && old(chain) <= chain
        && Steady(old(fs.Fat()), old(fs.Eff()), old(chain))
      ensures old(Healthy(fs)) ==> Healthy(fs) && c != 1
      ensures c > 1 ==> Walking(m) && c == clust && fptr + rest == ofs && 0 < rest <= 512 * fs.g.csize
      ensures c == 0 ==> rest == 0 && m < |chain| && clust == chain[m] && fptr == ClusterStart(fs.g, m + 1) < ofs
      ensures c <= 1 ==> objsize < ofs
      ensures c == 0 && old(Healthy(fs)) ==> FreeCount(fs.Fat()) == 0
    {
      hide Core, Contents, Kept, Healthy, FatVolume.Valid, ClusterIndex, Sectors, ClusterStart, FreeCount;
      CoreFacts();
      InRangeChain(m0);
      c, rest, m := clust, rest0, m0;
      var bcs := fs.g.csize * 512;
      while rest > bcs
        invariant Core() && fs.Valid() && fs.g.csize > 0 && Walking(m) && c == clust && c > 1
        invariant fptr + rest == ofs && rest > 0 && old(chain) <= chain && Contents() == old(Contents())
        invariant Steady(old(fs.Fat()), old(fs.Eff()), old(chain))
        invariant old(Healthy(fs)) ==> Healthy(fs)
        decreases rest
      {
        StartStep(fs.g, m);
        rest := rest - bcs;
        fptr := fptr + bcs;
        CoreFacts();
        ghost var f1, e1, ch1 := fs.Fat(), fs.Eff(), chain;
        if writable {
          if ofs <= objsize {
            ChainReaches(ofs, m + 1);
          }
          c := Stretch(m + 1);
        } else {
          ChainReaches(ofs, m + 1);
          NextInChain(m + 1);
          InRangeChain(m + 1);
          c := Link(c);
          clust := c;
        }
        CoreFacts();
        KeptCompose(fs.g, old(fs.Fat()), old(fs.Eff()), old(chain), f1, e1, ch1, fs.Fat(), fs.Eff(), chain);
        if c == 0 {
          rest := 0;
          return;
        }
        if c == 1 {
          return;
        }
        m := m + 1;
      }
    }

    /** A seek past the end makes the file longer; what was there stays. */
    method Extend()
      requires Core() && fptr <= 512 * |S()| && fptr < 0x1_0000_0000
      modifies this`objsize, this`modified
      ensures Core() && objsize == Max(old(objsize), fptr)
      ensures Contents()[..old(objsize)] == old(Contents())
      ensures objsize == old(objsize) ==> Contents() == old(Contents())
      ensures objsize > old(objsize) ==> modified
    {
      hide FatOf, Flush, Geometry.DataEnd, Sectors, ChainOk;
      if fptr > objsize {
        ghost var n := objsize;
        objsize := fptr;
        modified := true;
        ContentPrefix(View(), S(), objsize, n);
      }
    }

    /** The cluster of the position f_lseek reaches. */
    lemma SeekIndex(m: nat, rest: nat)
      requires Core() && m < |chain| && rest <= 512 * fs.g.csize && fptr == ClusterStart(fs.g, m) + rest
      ensures rest % 512 == Off(fptr) && fptr <= 512 * |S()|
      ensures rest > 0 ==> ClusterIndex(fs.g, fptr - 1) == m
      ensures rest == 0 && m > 0 ==> ClusterIndex(fs.g, fptr - 1) == m - 1
      ensures Off(fptr) != 0 ==> ClusterIndex(fs.g, fptr) == m && Sec(fptr) == m * fs.g.csize + rest / 512
      ensures Off(fptr) != 0 ==> rest / 512 < fs.g.csize
    {
      hide FatOf, Flush, Geometry.DataEnd, Sectors, ChainOk, Geometry.ClusterSector, ClusterStart, ClusterIndex,
        Readable;
      StartStep(fs.g, m);
      SizeOf(fs.g, chain);
      StartMono(fs.g, m + 1, |chain|);
      SeekSplit(fs.g, fptr, m, rest);
      if rest > 0 {
        IndexOf(fs.g, fptr - 1, m);
      } else if m > 0 {
        StartStep(fs.g, m - 1);
        IndexOf(fs.g, fptr - 1, m - 1);
      }
      if Off(fptr) != 0 {
        Uneven(rest, fs.g.csize);
        IndexOf(fs.g, fptr, m);
      }
    }

    static lemma Uneven(rest: nat, c: nat)
      requires rest <= 512 * c && rest % 512 != 0
      ensures rest < 512 * c && rest / 512 < c
    {
    }

    static lemma SeekSplit(g: Geometry, p: nat, m: nat, rest: nat)
      requires p == ClusterStart(g, m) + rest
      ensures rest % 512 == Off(p) && Sec(p) == m * g.csize + rest / 512
    {
      RestSplit(p, g.csize * m, rest);
    }

    /** The sector f_lseek computes from its walk is the one of the new position. */
    lemma SeekSector(m: nat, rest: nat)
      requires Core() && m < |chain| && rest <= 512 * fs.g.csize && fptr == ClusterStart(fs.g, m) + rest
      ensures rest % 512 == Off(fptr) && fptr <= 512 * |S()|
      ensures rest > 0 ==> ClusterIndex(fs.g, fptr - 1) == m
      ensures rest == 0 && m > 0 ==> ClusterIndex(fs.g, fptr - 1) == m - 1
      ensures Off(fptr) != 0 ==>
        && Sec(fptr) < |S()| && S()[Sec(fptr)] == fs.g.ClusterSector(chain[m]) + rest / 512
        && fs.g.dataBase <= S()[Sec(fptr)] < |fs.disk| && S()[Sec(fptr)] > 0 && S()[Sec(fptr)] != fs.winsect
    {
      hide FatOf, Flush, Geometry.DataEnd, Sectors, ChainOk, Geometry.ClusterSector, ClusterStart, ClusterIndex;
      SeekIndex(m, rest);
      if Off(fptr) != 0 {
        IndexWithin(fs.g, fptr, |chain|);
        ValidClusters(m);
        SectorInside(fs.g, chain, Sec(fptr));
        DivStep(m, fs.g.csize, rest / 512);
        assert S()[Sec(fptr)] in S();
      }
    }

    lemma ValidClusters(m: nat)
      requires Core()
      ensures forall i :: 0 <= i < |chain| ==> fs.g.ValidCluster(chain[i])
    {
      hide FatOf, Flush, Geometry.DataEnd, Sectors;
    }

    static lemma RestSplit(p: nat, k: nat, rest: nat)
      requires p == 512 * k + rest
      ensures rest % 512 == Off(p) && Sec(p) == k + rest / 512
    {
    }

    /** The end of f_lseek: the position is set, the size follows, the sector is loaded. */
    method SeekFinish(nsect: nat)
      requires Core() && fptr <= 512 * |S()| && fptr < 0x1_0000_0000
      requires Off(fptr) != 0 ==> fs.g.dataBase <= nsect < |fs.disk| && nsect > 0 && nsect != fs.winsect
      requires Off(fptr) != 0 ==> Sec(fptr) < |S()| && nsect == S()[Sec(fptr)]
      requires fptr > 0 ==> ClusterIndex(fs.g, fptr - 1) < |chain| && clust == chain[ClusterIndex(fs.g, fptr - 1)]
      modifies this`objsize, this`modified, this`sect, this`dirty, buf, fs`disk
      ensures Core() && Positioned() && objsize == Max(old(objsize), fptr)
      ensures Contents()[..old(objsize)] == old(Contents())
      ensures objsize == old(objsize) ==> Contents() == old(Contents())
      ensures objsize > old(objsize) ==> modified
      ensures Steady(old(fs.Fat()), old(fs.Eff()), chain) && fs.Fat() == old(fs.Fat())
      ensures old(Healthy(fs)) ==> Healthy(fs)
    {
      hide Core, Contents, Kept, Healthy, FatVolume.Valid, Sectors, ClusterIndex, Sec, Off;
      CoreFacts();
      Extend();
      if Off(fptr) != 0 {
        LoadBuffer(nsect);
      }
    }

    /** f_lseek. The position becomes `ofs`, clipped at the end of a file that may not be
        written; a position past the end makes the file longer, and stops short of `ofs`
        only when no cluster is free. */
    method Seek(ofs0: nat) returns (res: FResult)
      requires Valid() && ofs0 < 0x1_0000_0000
      modifies this`clust, this`sclust, this`chain, this`fptr, this`objsize, this`modified, this`sect, this`dirty,
        this`err, buf, fs, fs.win
      ensures Valid() && old(chain) <= chain && old(objsize) <= objsize
      ensures old(err) != Ok ==> res == old(err) == err && fptr == old(fptr)
      ensures Contents()[..old(objsize)] == old(Contents())
      ensures objsize == old(objsize) ==> Contents() == old(Contents())
      ensures objsize > old(objsize) ==> modified
      ensures old(err) == Ok ==>
        var ofs := if ofs0 > old(objsize) && !writable then old(objsize) else ofs0;
        && (res == Ok ==> err == Ok && fptr <= ofs && objsize == Max(old(objsize), fptr))
        && (ofs <= old(objsize) ==> res == Ok && fptr == ofs)
        && (old(Healthy(fs)) ==> res == Ok && (fptr < ofs ==> FreeCount(fs.Fat()) == 0))
      ensures Steady(old(fs.Fat()), old(fs.Eff()), old(chain))
      ensures old(Healthy(fs)) ==> Healthy(fs)
    {
      hide Core, Positioned, Contents, Kept, Healthy, FatVolume.Valid, Sectors, ClusterIndex, ClusterStart, Sec, Off,
        FreeCount;
      CoreFacts();
      AllContents();
      if err != Ok {
        return err;
      }
      Bounds();
      var ofs := ofs0;
      if ofs > objsize && !writable {
        ofs := objsize;
      }
      res := SeekTo(ofs);
    }

    lemma AllContents()
      requires Core()
      ensures Contents()[..objsize] == Contents()
    {
    }

    method SeekTo(ofs: nat) returns (res: FResult)
      requires Valid() && err == Ok && ofs < 0x1_0000_0000 && (ofs <= objsize || writable)
      modifies this`clust, this`sclust, this`chain, this`fptr, this`objsize, this`modified, this`sect, this`dirty,
        this`err, buf, fs, fs.win
      ensures Valid() && old(chain) <= chain && old(objsize) <= objsize
      ensures Contents()[..old(objsize)] == old(Contents())
      ensures objsize == old(objsize) ==> Contents() == old(Contents())
      ensures objsize > old(objsize) ==> modified
      ensures res == Ok ==> err == Ok && fptr <= ofs && objsize == Max(old(objsize), fptr)
      ensures ofs <= old(objsize) ==> res == Ok && fptr == ofs
      ensures old(Healthy(fs)) ==> Healthy(fs) && res == Ok && (fptr < ofs ==> FreeCount(fs.Fat()) == 0)
      ensures Steady(old(fs.Fat()), old(fs.Eff()), old(chain))
    {
      hide Core, Positioned, Contents, Kept, Healthy, FatVolume.Valid, Sectors, ClusterIndex, ClusterStart, Sec, Off,
        FreeCount, Geometry.DataEnd, Geometry.ClusterSector;
      CoreFacts();
      AllContents();
      var nsect := 0;
      if ofs > 0 {
        var c, rest;
        ghost var m;
        c, rest, m := SeekWhole(ofs);
        if c == 1 {
          err := IntErr;
          return IntErr;
        }
        if c > 1 && rest % 512 != 0 {
          CoreFacts();
          nsect := fs.ClusterToSector(c) + rest / 512;
        }
      } else {
        fptr := 0;
        ZeroOff();
      }
      CoreFacts();
      ghost var f1, e1, ch1 := fs.Fat(), fs.Eff(), chain;
      SeekFinish(nsect);
      CoreFacts();
      KeptCompose(fs.g, old(fs.Fat()), old(fs.Eff()), old(chain), f1, e1, ch1, fs.Fat(), fs.Eff(), chain);
      res := Ok;
    }

    static lemma ZeroOff()
      ensures Off(0) == 0
    {
    }

    /** Start and walk of a seek to `ofs`, up to the new position. */
    method SeekWhole(ofs: nat) returns (c: nat, rest: nat, ghost m: nat)
      requires Valid() && err == Ok && 0 < ofs < 0x1_0000_0000 && (ofs <= objsize || writable)
      modifies this`clust, this`sclust, this`chain, this`fptr, fs, fs.win
      ensures Core() && Contents() == old(Contents()) && old(chain) <= chain
        && Steady(old(fs.Fat()), old(fs.Eff()), old(chain))
      ensures old(Healthy(fs)) ==> Healthy(fs) && c != 1 && (c == 0 ==> FreeCount(fs.Fat()) == 0)
      ensures c <= 1 ==> objsize < ofs
      ensures c == 1 || (fptr <= ofs && fptr <= 512 * |S()|)
      ensures c > 1 ==> fptr == ofs && rest % 512 == Off(fptr)
      ensures c > 1 && Off(fptr) != 0 ==>
        && Sec(fptr) < |S()| && S()[Sec(fptr)] == fs.g.ClusterSector(c) + rest / 512
        && fs.g.dataBase <= S()[Sec(fptr)] < |fs.disk| && S()[Sec(fptr)] > 0 && S()[Sec(fptr)] != fs.winsect
      ensures c == 0 ==> Off(fptr) == 0
      ensures c != 1 && fptr > 0 ==>
        ClusterIndex(fs.g, fptr - 1) < |chain| && clust == chain[ClusterIndex(fs.g, fptr - 1)]
    {
      hide Core, Contents, Kept, Healthy, FatVolume.Valid, Sectors, ClusterIndex, ClusterStart, Sec, Off, FreeCount;
      ZeroOff();
      CoreFacts();
      c, rest, m := SeekStart(ofs);
      CoreFacts();
      if c <= 1 {
        return;
      }
      ghost var f1, e1, ch1 := fs.Fat(), fs.Eff(), chain;
      c, rest, m := SeekWalk(ofs, rest, m);
      CoreFacts();
      KeptCompose(fs.g, old(fs.Fat()), old(fs.Eff()), old(chain), f1, e1, ch1, fs.Fat(), fs.Eff(), chain);
      if c == 1 {
        return;
      }
      if c == 0 {
        StartStep(fs.g, m);
        SeekSector(m, 512 * fs.g.csize);
        WholeClusters();
      }
      fptr := fptr + rest;
      if c > 1 {
        SeekSector(m, rest);
      }
    }

    lemma WholeClusters()
      ensures 512 * fs.g.csize % 512 == 0
    {
    }

    // ----- f_truncate -----

    /** Frees the clusters of the file behind its first `keep`. */
    method CutTail(ghost keep: nat)
      requires Core() && keep <= |chain| && |chain| > 0
      requires if fptr == 0 then keep == 0 else keep > 0 && clust == chain[keep - 1]
      modifies this`sclust, this`chain, fs, fs.win
      ensures fs.Valid() && fs.Quiet(old(fs.disk), old(fs.winsect))
      ensures chain == old(chain)[..keep] && ChainOk(fs.Fat(), sclust, chain)
      ensures OthersKept(fs.g, old(fs.Fat()), old(fs.Eff()), fs.Fat(), fs.Eff(), old(chain))
      ensures Exact(old(fs.Fat()), old(chain), fs.Fat(), chain)
      ensures old(Healthy(fs) && (fptr == 0 ==> IsHead(fs.Fat(), sclust))) ==> Healthy(fs)
    {
      hide Forest, IsChain, IsHead, FatOf, Flush, Geometry.DataEnd, Sectors, Mirrored, Content, Readable, OthersKept,
        FatVolume.Eff, FatVolume.Fat;
      if fptr == 0 {
        FreeWhole(fs, sclust, chain);
        sclust := 0;
      } else {
        FreeBehind(fs, sclust, chain, keep, clust);
      }
      chain := chain[..keep];
    }

    /** The write-back at the end of f_truncate: the dirty sector may have been freed. */
    method FlushAfterCut(ghost ch: seq<nat>)
      requires fs.Valid() && Shaped()
      requires dirty ==> fs.g.dataBase <= sect < |fs.disk| && sect != fs.winsect
      requires dirty ==> sect in Sectors(fs.g, ch) && forall i :: 0 <= i < |ch| ==> fs.g.ValidCluster(ch[i])
      modifies this`dirty, fs`disk
      ensures fs.Valid() && fs.Fat() == old(fs.Fat()) && !dirty
      ensures fs.disk == if old(dirty) then old(fs.disk)[sect := buf[..]] else old(fs.disk)
      ensures OthersKept(fs.g, fs.Fat(), old(fs.Eff()), fs.Fat(), fs.Eff(), ch)
      ensures old(Healthy(fs)) ==> Healthy(fs)
    {
      hide FatOf, Flush, Geometry.DataEnd, Sectors, Healthy, WriteSectors, Geometry.ClusterSector;
      ghost var f, e := fs.Fat(), fs.Eff();
      if dirty {
        ghost var k :| 0 <= k < |Sectors(fs.g, ch)| && Sectors(fs.g, ch)[k] == sect;
        ghost var a, x := Place(fs.g, ch, k);
        WriteOne(fs.disk, sect, buf[..]);
        DiskWrite(fs, sect, 1, buf[..]);
        OthersAfterWrite(fs.g, f, e, fs.Eff(), ch, a, x, 1, buf[..]);
        dirty := false;
      } else {
        OthersAfterFat(fs.g, f, e, f, e, ch);
      }
    }

    /** What a truncation leaves: the contents up to the position. */
    twostate lemma AfterTruncate(keep: nat)
      requires old(Core()) && fs.Valid() && Shaped() && !dirty && keep <= old(|chain|)
      requires unchanged(this`sect, buf) && chain == old(chain)[..keep] && ChainOk(fs.Fat(), sclust, chain)
      requires |fs.disk| == old(|fs.disk|)
      requires forall s :: 0 <= s < |fs.disk| && s != old(fs.winsect) && !fs.g.InFats(s) ==>
        fs.disk[s] == if old(dirty) && s == sect then buf[..] else old(fs.disk)[s]
      requires fs.winsect == old(fs.winsect) || fs.g.InFirstFat(fs.winsect)
      requires objsize <= old(objsize) && objsize <= ClusterStart(fs.g, keep)
      ensures Core() && Contents() == old(Contents())[..objsize]
    {
      hide FatOf, Flush, Geometry.DataEnd, Sectors, Geometry.ClusterSector, IsChain, ClusterStart, Content;
      SectorsInside(fs.g, old(fs.Fat()), old(sclust), old(chain));
      SectorsInside(fs.g, fs.Fat(), sclust, chain);
      SectorsPrefix(fs.g, old(chain), keep);
      SizeOf(fs.g, chain);
      assert forall k :: 0 <= k < |S()| ==> S()[k] == old(S())[k];
      assert Core();
      ContentPrefix(old(View()), old(S()), old(objsize), objsize);
      ContentSame(old(View()), old(S()), View(), S(), objsize);
    }

    /** The clusters a truncation keeps. */
    lemma KeepPlace() returns (keep: nat)
      requires Valid() && err == Ok && fptr < objsize
      ensures 0 < |chain| && keep <= |chain| && fptr <= ClusterStart(fs.g, keep)
      ensures if fptr == 0 then keep == 0 else keep > 0 && clust == chain[keep - 1]
      ensures forall i :: 0 <= i < |chain| ==> fs.g.ValidCluster(chain[i])
      ensures dirty ==> sect in S() && fs.g.dataBase <= sect < |fs.disk| && sect != fs.winsect
    {
      hide FatOf, Flush, Geometry.DataEnd, Sectors, ClusterStart, ClusterIndex, Geometry.ClusterSector;
      InChain();
      ValidClusters(0);
      if fptr == 0 {
        keep := 0;
      } else {
        keep := ClusterIndex(fs.g, fptr - 1) + 1;
        StartOf(fs.g, fptr - 1);
      }
      if dirty {
        var _, _ := DirtyPlace();
      }
    }

    /** f_truncate: the contents end at the position; the clusters behind it are freed. */
    method Truncate() returns (res: FResult)
      requires Valid()
      modifies this`sclust, this`chain, this`objsize, this`modified, this`dirty, fs, fs.win
      ensures Valid() && err == old(err) && fptr == old(fptr) && chain <= old(chain)
      ensures old(err) != Ok ==> res == old(err)
      ensures old(err) == Ok && !writable ==> res == Denied
      ensures res == Ok ==>
        fptr <= old(objsize) && Contents() == old(Contents())[..fptr] && (fptr < old(objsize) ==> modified)
      ensures res != Ok ==> Contents() == old(Contents())
      ensures old(err) == Ok && writable ==> res == Ok
      ensures Steady(old(fs.Fat()), old(fs.Eff()), old(chain))
      ensures old(Healthy(fs) && (sclust != 0 ==> IsHead(fs.Fat(), sclust))) ==> Healthy(fs)
    {
      hide Core, Contents, Kept, Healthy, FatVolume.Valid, Sectors, ClusterIndex, ClusterStart, Sec, Off, IsHead,
        Grown, OthersKept;
      CoreFacts();
      AllContents();
      if err != Ok {
        return err;
      }
      if !writable {
        return Denied;
      }
      Bounds();
      if fptr < objsize {
        Shorten();
        modified := true;
      }
      res := Ok;
    }

    method Shorten()
      requires Valid() && err == Ok && fptr < objsize
      modifies this`sclust, this`chain, this`objsize, this`dirty, fs, fs.win
      ensures Core() && objsize == fptr && Positioned() && Contents() == old(Contents())[..fptr] && chain <= old(chain)
      ensures Steady(old(fs.Fat()), old(fs.Eff()), old(chain))
      ensures old(Healthy(fs) && (sclust != 0 ==> IsHead(fs.Fat(), sclust))) ==> Healthy(fs)
    {
      hide Core, Contents, Healthy, FatVolume.Valid, Sectors, ClusterIndex, ClusterStart, Sec, Off, IsHead, OthersKept,
        Content, IsChain, FatVolume.Eff, FatVolume.Fat;
      CoreFacts();
      ghost var keep := KeepPlace();
      HeadThere();
      FatsFirst();
      CutTail(keep);
      objsize := fptr;
      ghost var f1, e1, d1 := fs.Fat(), fs.Eff(), fs.disk;
      FlushAfterCut(old(chain));
      AfterTruncate(keep);
      OthersChain(fs.g, old(fs.Fat()), old(fs.Eff()), f1, e1, fs.Eff(), old(chain), keep);
      PositionKept(keep);
    }

    lemma HeadThere()
      requires Core() && |chain| > 0
      ensures sclust != 0
    {
      hide FatOf, Flush, Geometry.DataEnd, Sectors;
    }

    /** A truncation leaves position, remembered cluster and buffer in step. */
    twostate lemma PositionKept(keep: nat)
      requires fs.g.csize > 0 && old(Positioned()) && unchanged(this`fptr, this`clust, this`sect) && objsize == fptr
      requires keep <= old(|chain|) && chain == old(chain)[..keep] && fptr <= ClusterStart(fs.g, keep)
      ensures Positioned()
    {
      hide Sectors, ClusterIndex, ClusterStart;
      if fptr > 0 {
        StartOf(fs.g, fptr - 1);
        if ClusterIndex(fs.g, fptr - 1) >= keep {
          StartMono(fs.g, keep, ClusterIndex(fs.g, fptr - 1));
          assert false;
        }
      }
      if Off(fptr) != 0 {
        SizeOf(fs.g, chain);
        SectorsPrefix(fs.g, old(chain), keep);
        UnevenBelow(fptr, |S()|);
        assert S()[Sec(fptr)] == old(S())[Sec(fptr)];
      }
    }

    static lemma UnevenBelow(p: nat, n: nat)
      requires p <= 512 * n && Off(p) != 0
      ensures Sec(p) < n
    {
    }
  }

  lemma {:induction false} OthersChain(g: Geometry, f0: Table, e0: Disk, f1: Table, e1: Disk, e2: Disk, ch: seq<nat>,
      keep: nat)
    requires OthersKept(g, f0, e0, f1, e1, ch) && OthersKept(g, f1, e1, f1, e2, ch) && keep <= |ch|
    requires Exact(f0, ch, f1, ch[..keep])
    ensures Kept(g, f0, e0, ch, f1, e2, ch[..keep])
  {
    forall c | InRange(f0, c) && f0[c] != 0 && c !in ch ensures ClusterSame(g, e0, e2, c) {
      assert InRange(f1, c) && ClusterSame(g, e0, e1, c) && ClusterSame(g, e1, e2, c);
    }
  }

  lemma ChainLink(f: Table, start: nat, chain: seq<nat>, k: nat)
    requires IsChain(f, start, chain) && 0 < k < |chain|
    ensures f[chain[k - 1]] == chain[k]
  {
  }

  lemma ChainEnd(f: Table, start: nat, chain: seq<nat>)
    requires IsChain(f, start, chain)
    ensures f[chain[|chain| - 1]] >= |f| && start in chain
  {
    assert chain[0] == start;
  }

  /** Removing a whole chain. */
  lemma {:induction false} CutAll(g: Geometry, f: Table, start: nat, chain: seq<nat>)
    requires g.Valid() && |f| == g.nFatEnt && IsChain(f, start, chain)
    ensures Removed(f, start, 0, EndMark(g.kind)) == (Cleared(f, chain), true)
    ensures InRange(f, start) && |Cleared(f, chain)| == |f|
    ensures Exact(f, chain, Cleared(f, chain), [])
    ensures Forest(f) && IsHead(f, start) ==> Forest(Cleared(f, chain))
  {
    hide Forest, FreeFrom, Geometry.Valid, IsChain;
    EndMarkIsEnd(g);
    ChainAllocated(f, start, chain);
    ChainEnd(f, start, chain);
    FreeChain(f, start, chain);
    if Forest(f) && IsHead(f, start) {
      RemoveForest(f, start, 0, EndMark(g.kind));
    }
  }

  /** Removing what follows the first `k` clusters of a chain. */
  lemma {:induction false} CutBehind(g: Geometry, f: Table, start: nat, chain: seq<nat>, k: nat)
    requires g.Valid() && |f| == g.nFatEnt && IsChain(f, start, chain) && 0 < k <= |chain|
    ensures k < |chain| ==>
      && InRange(f, chain[k]) && f[chain[k - 1]] == chain[k]
      && var (f', ok) := Removed(f, chain[k], chain[k - 1], EndMark(g.kind));
         && ok && IsChain(f', start, chain[..k])
         && (forall x :: InRange(f, x) && x !in chain ==> f'[x] == f[x])
         && Exact(f, chain, f', chain[..k])
         && (Forest(f) ==> Forest(f'))
    ensures k == |chain| ==> f[chain[k - 1]] >= |f| && chain[..k] == chain
  {
    hide Forest, FreeFrom, Geometry.Valid, IsChain;
    if k < |chain| {
      EndMarkIsEnd(g);
      CutChain(f, start, chain, k, EndMark(g.kind));
      ChainAllocated(f, start, chain);
      ChainLink(f, start, chain, k);
      if Forest(f) {
        RemoveForest(f, chain[k], chain[k - 1], EndMark(g.kind));
      }
    } else {
      ChainEnd(f, start, chain);
    }
  }
}
