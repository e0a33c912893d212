/** Whole runs on one open file: any mix of reads, writes, seeks and truncations, on a
    sound volume, and what they mean for the other files. */
module FileSession {
  import opened Basics
  import opened Bytes
  import opened Layout
  import opened FatTable
  import opened Volume
  import opened Clusters
  import opened FileData
  import opened FileObject

  datatype FileOp = ReadOp(n: nat) | WriteOp(d: seq<byte>) | SeekOp(ofs: nat) | TruncateOp {
    /** Positions and counts are 32-bit numbers. */
    predicate Sized() {
      match this
      case ReadOp(n) => true
      case WriteOp(d) => |d| < 0x1_0000_0000
      case SeekOp(ofs) => ofs < 0x1_0000_0000
      case TruncateOp => true
    }
  }

  /** The abstract value of an open file: its bytes and the position. */
  datatype Snap = Snap(data: seq<byte>, pos: nat)

  /** What the caller sees of one operation: the bytes read, and the number of bytes written. */
  datatype Seen = Seen(out: seq<byte>, bw: nat)

  /** No cluster is free. */
  ghost predicate Full(f: Table) {
    |f| >= 3 && FreeCount(f) == 0
  }

  /** `k` bytes of `d` were written; all that the 4 GB limit leaves, unless the volume is full. */
  ghost predicate Wrote(a: Snap, b: Snap, d: seq<byte>, k: nat, f: Table) {
    && k <= |d| && a.pos <= |a.data| && b == Snap(Splice(a.data, a.pos, d[..k]), a.pos + k)
    && (k < |d| ==> Full(f) || a.pos + |d| >= 0x1_0000_0000)
  }

  /** The byte sequence with a position that the file refines; `f` is the FAT after the step. */
  ghost predicate Behaves(op: FileOp, readable: bool, writable: bool, a: Snap, b: Snap, s: Seen, f: Table) {
    match op
    case ReadOp(n) =>
      if readable then
        && a.pos <= |a.data|
        && s.out == a.data[a.pos..a.pos + Least(n, |a.data| - a.pos)] && b == Snap(a.data, a.pos + |s.out|)
      else s.out == [] && b == a
    case WriteOp(d) => if writable then Wrote(a, b, d, s.bw, f) else b == a && s.bw == 0
    case SeekOp(ofs0) =>
      var ofs := if ofs0 > |a.data| && !writable then |a.data| else ofs0;
      && b.pos <= ofs && (b.pos < ofs ==> Full(f) && ofs > |a.data|)
      && |b.data| == Max(|a.data|, b.pos) && b.data[..|a.data|] == a.data
    case TruncateOp => if writable then a.pos <= |a.data| && b == Snap(a.data[..a.pos], a.pos) else b == a
  }

  /** The start cluster is that of a whole chain: nothing links to it. */
  ghost predicate AtHead(f: Table, start: nat, chain: seq<nat>) {
    if start == 0 then chain == [] else IsChain(f, start, chain) && IsHead(f, start)
  }

  /** A file whose chain is changed only by clusters that were free and clusters that are
      freed still owns a whole chain. */
  lemma {:induction false} HeadKept(f: Table, start: nat, ch: seq<nat>, f': Table, start': nat, ch': seq<nat>)
    requires Forest(f) && AtHead(f, start, ch) && Exact(f, ch, f', ch') && Grown(f, ch, ch')
    requires ChainOk(f', start', ch') && (start != 0 && start' != 0 ==> start' == start)
    ensures AtHead(f', start', ch')
  {
    if start' != 0 {
      ChainAllocated(f', start', ch');
      assert start' == ch'[0] && start' in ch';
      assert start == 0 ==> f[start'] == 0;
      forall d | InRange(f', d) ensures f'[d] != start' {
        if d in ch' {
          var i :| 0 <= i < |ch'| && ch'[i] == d;
          if i < |ch'| - 1 {
            assert f'[ch'[i]] == ch'[i + 1];
            ChainDistinct(f', start', ch', 0, i + 1);
          }
        } else if d !in ch {
          assert InRange(f, d) && f'[d] == f[d];
          if start == 0 && f[d] == start' {
            ForestLinks(f, d);
          }
        }
      }
    }
  }

  /** Clusters of another file are none of the clusters that change. */
  lemma {:induction false} OthersApart(g: Geometry, f: Table, e: Disk, start: nat, ch: seq<nat>,
      f': Table, e': Disk, ch': seq<nat>, h: nat, other: seq<nat>)
    requires |f| == g.nFatEnt && Forest(f) && AtHead(f, start, ch) && Kept(g, f, e, ch, f', e', ch')
    requires IsHead(f, h) && h != start && IsChain(f, h, other)
    ensures IsChain(f', h, other)
    ensures forall i :: 0 <= i < |other| ==> g.ValidCluster(other[i]) && ClusterSame(g, e, e', other[i])
  {
    hide ClusterSame, Forest, Grown, Exact;
    ChainAllocated(f, h, other);
    forall j | 0 <= j < |other| ensures other[j] !in ch {
      if other[j] in ch {
        var i :| 0 <= i < |ch| && ch[i] == other[j];
        HeadChainsDisjoint(f, start, ch, h, other, i, j);
      }
    }
  }

  /** Another file is untouched: its chain, what it starts with and all its bytes. */
  lemma {:induction false} OtherFileUntouched(g: Geometry, f: Table, e: Disk, start: nat, ch: seq<nat>,
      f': Table, e': Disk, ch': seq<nat>, h: nat, other: seq<nat>, size: nat)
    requires g.Valid() && |f| == g.nFatEnt && Forest(f) && AtHead(f, start, ch) && Kept(g, f, e, ch, f', e', ch')
    requires IsHead(f, h) && h != start && IsChain(f, h, other) && g.DataEnd() <= |e|
    requires Readable(e, Sectors(g, other), size)
    ensures IsChain(f', h, other) && Readable(e', Sectors(g, other), size)
    ensures Content(e', Sectors(g, other), size) == Content(e, Sectors(g, other), size)
  {
    hide Geometry.ClusterSector, Geometry.DataEnd, Geometry.Valid, Forest, IsChain, IsHead, AtHead, Grown, Exact,
      Sectors;
    OthersApart(g, f, e, start, ch, f', e', ch', h, other);
    Bounded(g);
    forall k | 0 <= k < |Sectors(g, other)| ensures e'[Sectors(g, other)[k]] == e[Sectors(g, other)[k]] {
      SectorInside(g, other, k);
      Part(k, g.csize);
      assert ClusterSame(g, e, e', other[k / g.csize]);
    }
    ContentSame(e, Sectors(g, other), e', Sectors(g, other), size);
  }

  lemma Bounded(g: Geometry)
    requires g.Valid()
    ensures g.csize > 0
  {
  }

  lemma Part(k: nat, c: nat)
    requires c > 0
    ensures k % c < c
  {
  }

  /** The file is open without an error on a sound volume, and owns a whole chain. */
  ghost predicate Sound(file: File)
    reads file, file.buf, file.fs, file.fs.win
  {
    file.Valid() && file.err == Ok && Healthy(file.fs) && AtHead(file.fs.Fat(), file.sclust, file.chain)
  }

  ghost function Value(file: File): Snap
    requires file.Core()
    reads file, file.buf, file.fs, file.fs.win
  {
    Snap(file.Contents(), file.fptr)
  }

  lemma HasEntries(fs: FatVolume)
    requires fs.Valid()
    ensures |fs.Fat()| >= 3
  {
  }

  method PerformRead(file: File, n: nat) returns (ghost s: Seen)
    requires Sound(file)
    modifies file, file.buf, file.fs, file.fs.win
    ensures Sound(file) && Behaves(ReadOp(n), file.readable, file.writable, old(Value(file)), Value(file), s,
      file.fs.Fat())
    ensures file.Steady(old(file.fs.Fat()), old(file.fs.Eff()), old(file.chain))
  {
    hide File.Core, File.Contents, File.Positioned, FatVolume.Valid, Healthy, Kept, AtHead, Forest, IsChain;
    file.CoreFacts();
    file.Bounds();
    var rbuff := new byte[n](_ => 0);
    var res, br := file.Read(rbuff, n);
    file.CoreFacts();
    file.Bounds();
    s := Seen(rbuff[..br], 0);
    assert rbuff[..0] == [];
  }

  method PerformWrite(file: File, d: seq<byte>) returns (ghost s: Seen)
    requires Sound(file) && |d| < 0x1_0000_0000
    modifies file, file.buf, file.fs, file.fs.win
    ensures Sound(file) && Behaves(WriteOp(d), file.readable, file.writable, old(Value(file)), Value(file), s,
      file.fs.Fat())
    ensures file.Steady(old(file.fs.Fat()), old(file.fs.Eff()), old(file.chain))
  {
    hide File.Core, File.Contents, File.Positioned, FatVolume.Valid, Kept, AtHead, Forest, IsChain, Splice, FreeCount,
      Mirrored;
    file.CoreFacts();
    file.Bounds();
    ghost var a, start, f, ch := Value(file), file.sclust, file.fs.Fat(), file.chain;
    var res, bw := file.Write(d);
    file.CoreFacts();
    Headed(file, f, old(file.fs.Eff()), start, ch);
    HasEntries(file.fs);
    s := Seen([], bw);
    if file.writable {
      assert Wrote(a, Value(file), d, bw, file.fs.Fat());
    }
  }

  method PerformSeek(file: File, ofs: nat) returns (ghost s: Seen)
    requires Sound(file) && ofs < 0x1_0000_0000
    modifies file, file.buf, file.fs, file.fs.win
    ensures Sound(file) && Behaves(SeekOp(ofs), file.readable, file.writable, old(Value(file)), Value(file), s,
      file.fs.Fat())
    ensures file.Steady(old(file.fs.Fat()), old(file.fs.Eff()), old(file.chain))
  {
    hide File.Core, File.Contents, File.Positioned, FatVolume.Valid, Kept, AtHead, Forest, IsChain, FreeCount, Mirrored;
    file.CoreFacts();
    file.Bounds();
    ghost var start, f, ch := file.sclust, file.fs.Fat(), file.chain;
    var res := file.Seek(ofs);
    file.CoreFacts();
    file.Bounds();
    Headed(file, f, old(file.fs.Eff()), start, ch);
    HasEntries(file.fs);
    s := Seen([], 0);
  }

  method PerformTruncate(file: File) returns (ghost s: Seen)
    requires Sound(file)
    modifies file, file.buf, file.fs, file.fs.win
    ensures Sound(file) && Behaves(TruncateOp, file.readable, file.writable, old(Value(file)), Value(file), s,
      file.fs.Fat())
    ensures file.Steady(old(file.fs.Fat()), old(file.fs.Eff()), old(file.chain))
  {
    hide File.Core, File.Contents, File.Positioned, FatVolume.Valid, Kept, Forest, IsChain, FreeCount, Mirrored;
    file.CoreFacts();
    file.Bounds();
    ghost var start, f, ch := file.sclust, file.fs.Fat(), file.chain;
    var res := file.Truncate();
    file.CoreFacts();
    Headed(file, f, old(file.fs.Eff()), start, ch);
    s := Seen([], 0);
  }

  /** What an operation leaves of the head of the chain. */
  lemma Headed(file: File, f: Table, e: Disk, start: nat, ch: seq<nat>)
    requires file.Core() && file.Steady(f, e, ch) && Forest(f) && AtHead(f, start, ch)
    requires ch <= file.chain || file.chain <= ch
    ensures AtHead(file.fs.Fat(), file.sclust, file.chain)
  {
    hide Geometry.DataEnd, Sectors, FatOf, Flush, Forest, OthersKept, Readable;
    HeadKept(f, start, ch, file.fs.Fat(), file.sclust, file.chain);
  }

  /** One operation. */
  method Perform(file: File, op: FileOp) returns (ghost s: Seen)
    requires Sound(file) && op.Sized()
    modifies file, file.buf, file.fs, file.fs.win
    ensures Sound(file) && Behaves(op, file.readable, file.writable, old(Value(file)), Value(file), s, file.fs.Fat())
    ensures file.Steady(old(file.fs.Fat()), old(file.fs.Eff()), old(file.chain))
  {
    hide File.Valid, File.Core, File.Contents, Kept, FatVolume.Valid, Healthy, AtHead, Behaves;
    match op {
      case ReadOp(n) => {
        s := PerformRead(file, n);
      }
      case WriteOp(d) => {
        s := PerformWrite(file, d);
      }
      case SeekOp(ofs) => {
        s := PerformSeek(file, ofs);
      }
      case TruncateOp => {
        s := PerformTruncate(file);
      }
    }
  }

  /** What was seen of a run: each step behaves as that of a byte sequence with a position,
      on the volume as it then is. */
  ghost predicate Follows(ops: seq<FileOp>, readable: bool, writable: bool, snaps: seq<Snap>, seen: seq<Seen>,
      fats: seq<Table>) {
    && |snaps| == |fats| == |seen| + 1 && |seen| <= |ops|
    && forall i :: 0 <= i < |seen| ==> Behaves(ops[i], readable, writable, snaps[i], snaps[i + 1], seen[i], fats[i + 1])
  }

  /** A run of any operations: the file behaves as a byte sequence with a position throughout,
      the volume stays sound, and clusters move between the file and the free ones only. */
  method Run(file: File, ops: seq<FileOp>) returns (ghost snaps: seq<Snap>, ghost seen: seq<Seen>,
      ghost fats: seq<Table>)
    requires Sound(file) && forall i :: 0 <= i < |ops| ==> ops[i].Sized()
    modifies file, file.buf, file.fs, file.fs.win
    ensures Sound(file) && |seen| == |ops| && Follows(ops, file.readable, file.writable, snaps, seen, fats)
    ensures snaps[0] == old(Value(file)) && snaps[|ops|] == Value(file)
    ensures fats[0] == old(file.fs.Fat()) && fats[|ops|] == file.fs.Fat() && forall f :: f in fats ==> Forest(f)
    ensures file.Steady(old(file.fs.Fat()), old(file.fs.Eff()), old(file.chain))
  {
    hide File.Core, File.Contents, File.Positioned, Kept, FatVolume.Valid, Healthy, AtHead, Behaves, Forest;
    file.CoreFacts();
    SoundForest(file);
    ghost var f0, e0, ch0 := file.fs.Fat(), file.fs.Eff(), file.chain;
    snaps, seen, fats := [Value(file)], [], [f0];
    var i := 0;
    while i < |ops|
      invariant 0 <= i <= |ops| && Sound(file) && |seen| == i
        && Follows(ops, file.readable, file.writable, snaps, seen, fats)
      invariant snaps[0] == old(Value(file)) && snaps[i] == Value(file)
      invariant file.fs.Valid() && file.Steady(f0, e0, ch0)
      invariant fats[0] == f0 && fats[i] == file.fs.Fat() && forall f :: f in fats ==> Forest(f)
    {
      file.CoreFacts();
      ghost var f1, e1, ch1 := file.fs.Fat(), file.fs.Eff(), file.chain;
      ghost var s := Perform(file, ops[i]);
      file.CoreFacts();
      SoundForest(file);
      KeptCompose(file.fs.g, f0, e0, ch0, f1, e1, ch1, file.fs.Fat(), file.fs.Eff(), file.chain);
      snaps, seen, fats := snaps + [Value(file)], seen + [s], fats + [file.fs.Fat()];
      i := i + 1;
    }
  }

  lemma SoundForest(file: File)
    requires Sound(file)
    ensures file.fs.Valid() && Forest(file.fs.Fat())
  {
  }
}
