/** The bytes of a file as they lie on the disk: the sectors of its cluster chain in
    order, and what reading and writing some of them does to the whole. */
module FileData {
  import opened Basics
  import opened Bytes
  import opened Layout
  import opened FatTable
  import opened Volume

  lemma DivBound(k: nat, c: nat, n: nat)
    requires c > 0 && k < n * c
    ensures k / c < n
  {
    assert k == c * (k / c) + k % c;
    if k / c >= n {
      MulMono(c, n, k / c);
      assert false;
    }
  }

  lemma DivStep(q: nat, c: nat, r: nat)
    requires r < c
    ensures (q * c + r) / c == q && (q * c + r) % c == r
  {
    var k := q * c + r;
    var q', r' := k / c, k % c;
    assert k == c * q' + r';
    MulSucc(c, q);
    MulSucc(c, q');
    if q' > q {
      MulMono(c, q + 1, q');
      assert false;
    }
    if q' < q {
      MulMono(c, q' + 1, q);
      assert false;
    }
  }

  /** The sectors of a cluster chain, in file order. */
  function Sectors(g: Geometry, chain: seq<nat>): (s: seq<nat>)
    requires g.csize > 0
    ensures |s| == |chain| * g.csize
  {
    seq(|chain| * g.csize, k requires 0 <= k < |chain| * g.csize =>
      DivBound(k, g.csize, |chain|);
      g.ClusterSector(chain[k / g.csize]) + k % g.csize)
  }

  ghost predicate Distinct(s: seq<nat>) {
    forall i, j :: 0 <= i < j < |s| ==> s[i] != s[j]
  }

  lemma {:induction false} SectorsDistinct(g: Geometry, f: Table, h: nat, chain: seq<nat>)
    requires g.csize > 0 && |f| == g.nFatEnt && IsChain(f, h, chain)
    ensures Distinct(Sectors(g, chain))
  {
    var s := Sectors(g, chain);
    forall i, j | 0 <= i < j < |s| ensures s[i] != s[j] {
      SectorsApart(g, f, h, chain, i, j);
    }
  }

  lemma {:induction false} SectorsApart(g: Geometry, f: Table, h: nat, chain: seq<nat>, i: nat, j: nat)
    requires g.csize > 0 && |f| == g.nFatEnt && IsChain(f, h, chain)
    requires i < j < |chain| * g.csize
    ensures Sectors(g, chain)[i] != Sectors(g, chain)[j]
  {
    var a, x := Place(g, chain, i);
    var b, y := Place(g, chain, j);
    ApartAt(g, f, h, chain, a, x, b, y);
  }

  /** Cluster index and sector offset of the `k`-th sector of a file. */
  lemma {:induction false} Place(g: Geometry, chain: seq<nat>, k: nat) returns (a: nat, x: nat)
    requires g.csize > 0 && k < |chain| * g.csize
    ensures a < |chain| && x < g.csize && k == a * g.csize + x
    ensures Sectors(g, chain)[k] == g.ClusterSector(chain[a]) + x
  {
    DivBound(k, g.csize, |chain|);
    a, x := k / g.csize, k % g.csize;
    SectorFormula(g, chain, k);
  }

  lemma {:induction false} ApartAt(g: Geometry, f: Table, h: nat, chain: seq<nat>, a: nat, x: nat, b: nat, y: nat)
    requires |f| == g.nFatEnt && IsChain(f, h, chain) && a < |chain| && b < |chain|
    requires x < g.csize && y < g.csize && (a != b || x != y)
    ensures g.ClusterSector(chain[a]) + x != g.ClusterSector(chain[b]) + y
  {
    if a != b {
      ChainDistinct(f, h, chain, if a < b then a else b, if a < b then b else a);
      PlacesApart(g, chain[a], x, chain[b], y);
    }
  }

  lemma SectorFormula(g: Geometry, chain: seq<nat>, k: nat)
    requires g.csize > 0 && k < |chain| * g.csize && k / g.csize < |chain|
    ensures Sectors(g, chain)[k] == g.ClusterSector(chain[k / g.csize]) + k % g.csize
  {
  }

  lemma {:induction false} PlacesApart(g: Geometry, c: nat, x: nat, d: nat, y: nat)
    requires g.ValidCluster(c) && g.ValidCluster(d) && c != d && x < g.csize && y < g.csize
    ensures g.ClusterSector(c) + x != g.ClusterSector(d) + y
  {
    if c < d {
      ClustersApart(g, c, d);
    } else {
      ClustersApart(g, d, c);
    }
  }

  /** Sectors of a chain lie in its clusters, inside the data area. */
  lemma {:induction false} SectorInside(g: Geometry, chain: seq<nat>, k: nat)
    requires g.csize > 0 && k < |chain| * g.csize
    requires forall i :: 0 <= i < |chain| ==> g.ValidCluster(chain[i])
    ensures k / g.csize < |chain|
    ensures Sectors(g, chain)[k] == g.ClusterSector(chain[k / g.csize]) + k % g.csize
    ensures g.dataBase <= Sectors(g, chain)[k] < g.DataEnd()
  {
    DivBound(k, g.csize, |chain|);
    ClusterInside(g, chain[k / g.csize]);
  }

  /** The sectors of a part of a chain come first. */
  lemma {:induction false} SectorsPrefix(g: Geometry, chain: seq<nat>, n: nat)
    requires g.csize > 0 && n <= |chain|
    ensures n * g.csize <= |chain| * g.csize
    ensures Sectors(g, chain[..n]) == Sectors(g, chain)[..n * g.csize]
  {
    MulMono(g.csize, n, |chain|);
    forall k | 0 <= k < n * g.csize ensures Sectors(g, chain[..n])[k] == Sectors(g, chain)[k] {
      DivBound(k, g.csize, n);
    }
  }

  // ----- contents -----

  ghost predicate Readable(v: Disk, s: seq<nat>, size: nat) {
    size <= 512 * |s| && forall k :: 0 <= k < |s| ==> s[k] < |v|
  }

  /** The first `size` bytes of the sectors `s`. */
  function Content(v: Disk, s: seq<nat>, size: nat): (r: seq<byte>)
    requires Readable(v, s, size)
    ensures |r| == size
  {
    seq(size, i requires 0 <= i < size => v[s[i / 512]][i % 512])
  }

  /** Overwriting from position `p` on: bytes past the end extend the sequence. */
  function Splice(s: seq<byte>, p: nat, d: seq<byte>): (r: seq<byte>)
    requires p <= |s|
    ensures |r| == if p + |d| > |s| then p + |d| else |s|
  {
    s[..p] + d + (if p + |d| < |s| then s[p + |d|..] else [])
  }

  lemma {:induction false} SpliceAgain(s: seq<byte>, p: nat, d: seq<byte>, e: seq<byte>)
    requires p <= |s|
    ensures Splice(Splice(s, p, d), p + |d|, e) == Splice(s, p, d + e)
  {
  }

  /** The disk after the `n` sectors of `d` were written from sector `t` on. */
  function WriteSectors(v: Disk, t: nat, n: nat, d: seq<byte>): (r: Disk)
    requires |d| == 512 * n && t + n <= |v|
    ensures |r| == |v|
  {
    seq(|v|, i requires 0 <= i < |v| =>
      if t <= i < t + n then d[512 * (i - t)..512 * (i - t) + 512] else v[i])
  }

  lemma WriteOne(v: Disk, t: nat, w: Sector)
    requires t < |v|
    ensures WriteSectors(v, t, 1, w) == v[t := w]
  {
    assert forall i :: 0 <= i < |v| ==> WriteSectors(v, t, 1, w)[i] == v[t := w][i];
  }

  function ReadSectors(v: Disk, t: nat, n: nat): (r: seq<byte>)
    requires t + n <= |v|
    ensures |r| == 512 * n
  {
    seq(512 * n, i requires 0 <= i < 512 * n => v[t + i / 512][i % 512])
  }

  /** Reading around a cached sector: the cached copy replaces the one read. */
  lemma {:induction false} ReadOverlay(v: Disk, t: nat, n: nat, x: nat, b: Sector)
    requires t + n <= |v| && x < |v|
    ensures ReadSectors(v[x := b], t, n) ==
            if t <= x < t + n then Patch(ReadSectors(v, t, n), 512 * (x - t), b) else ReadSectors(v, t, n)
  {
    var r, s := ReadSectors(v[x := b], t, n), ReadSectors(v, t, n);
    forall i | 0 <= i < 512 * n
      ensures r[i] == if t <= x < t + n && 512 * (x - t) <= i < 512 * (x - t) + 512 then b[i - 512 * (x - t)] else s[i]
    {
    }
  }

  /** `n` sectors of the file from the `k`-th on lie side by side from disk sector `t` on. */
  ghost predicate Run(s: seq<nat>, k: nat, t: nat, n: nat) {
    k + n <= |s| && forall j :: k <= j < k + n ==> s[j] == t + (j - k)
  }

  /** Sectors of one cluster lie side by side. */
  lemma {:induction false} ClusterRun(g: Geometry, chain: seq<nat>, k: nat, n: nat)
    requires g.csize > 0 && k < |chain| * g.csize && k % g.csize + n <= g.csize
    ensures k + n <= |chain| * g.csize && k / g.csize < |chain|
    ensures Run(Sectors(g, chain), k, g.ClusterSector(chain[k / g.csize]) + k % g.csize, n)
  {
    var c := g.csize;
    var q := k / c;
    DivBound(k, c, |chain|);
    assert k == c * q + k % c;
    MulMono(c, q + 1, |chain|);
    MulSucc(c, q);
    forall j | k <= j < k + n ensures Sectors(g, chain)[j] == g.ClusterSector(chain[q]) + k % c + (j - k) {
      DivStep(q, c, k % c + (j - k));
    }
  }

  lemma {:induction false} ReadRun(v: Disk, s: seq<nat>, size: nat, k: nat, t: nat, n: nat)
    requires Readable(v, s, size) && Run(s, k, t, n) && t + n <= |v| && 512 * (k + n) <= size
    ensures ReadSectors(v, t, n) == Content(v, s, size)[512 * k..512 * (k + n)]
  {
    var a, b := ReadSectors(v, t, n), Content(v, s, size)[512 * k..512 * (k + n)];
    forall i | 0 <= i < 512 * n ensures a[i] == b[i] {
      assert (512 * k + i) / 512 == k + i / 512 && (512 * k + i) % 512 == i % 512;
      assert s[k + i / 512] == t + i / 512;
    }
  }

  lemma {:induction false} WriteRun(v: Disk, s: seq<nat>, size: nat, k: nat, t: nat, n: nat, d: seq<byte>)
    requires |d| == 512 * n && Readable(v, s, size) && Distinct(s) && Run(s, k, t, n)
    requires t + n <= |v| && 512 * k <= size
    ensures Readable(WriteSectors(v, t, n, d), s, Max(size, 512 * k + |d|))
    ensures Content(WriteSectors(v, t, n, d), s, Max(size, 512 * k + |d|)) == Splice(Content(v, s, size), 512 * k, d)
  {
    var w := WriteSectors(v, t, n, d);
    var a, b := Content(w, s, Max(size, 512 * k + |d|)), Splice(Content(v, s, size), 512 * k, d);
    forall i | 0 <= i < |a| ensures a[i] == b[i] {
      var j := i / 512;
      if k <= j < k + n {
        assert s[j] == t + (j - k);
        assert i - 512 * k == 512 * (j - k) + i % 512;
      } else {
        var m := if t <= s[j] < t + n then k + (s[j] - t) else k;
        assert n > 0 ==> s[m] == t + (m - k) && s[m] != s[j];
      }
    }
  }

  /** Changing one sector of the file: `x` are the new bytes at offset `o`; other bytes of
      the sector matter only below the old size. */
  lemma {:induction false} WritePart(v: Disk, s: seq<nat>, size: nat, k: nat, o: nat, x: seq<byte>, w: Sector)
    requires Readable(v, s, size) && Distinct(s) && k < |s| && o + |x| <= 512 && 512 * k + o <= size
    requires w[o..o + |x|] == x
    requires forall j :: 0 <= j < 512 && !(o <= j < o + |x|) && 512 * k + j < size ==> w[j] == v[s[k]][j]
    ensures Readable(v[s[k] := w], s, Max(size, 512 * k + o + |x|))
    ensures Content(v[s[k] := w], s, Max(size, 512 * k + o + |x|)) == Splice(Content(v, s, size), 512 * k + o, x)
  {
    var a := Content(v[s[k] := w], s, Max(size, 512 * k + o + |x|));
    var b := Splice(Content(v, s, size), 512 * k + o, x);
    forall i | 0 <= i < |a| ensures a[i] == b[i] {
      var j := i / 512;
      if j == k {
        assert i % 512 == i - 512 * k;
        assert o <= i % 512 < o + |x| ==> w[i % 512] == w[o..o + |x|][i % 512 - o];
      } else {
        assert s[j] != s[k];
      }
    }
  }

  lemma {:induction false} ContentSame(v: Disk, s: seq<nat>, v': Disk, s': seq<nat>, size: nat)
    requires Readable(v, s, size) && Readable(v', s', size)
    requires forall k :: 0 <= 512 * k < size ==> k < |s| && k < |s'| && s'[k] == s[k] && v'[s'[k]] == v[s[k]]
    ensures Content(v', s', size) == Content(v, s, size)
  {
    forall i | 0 <= i < size ensures Content(v', s', size)[i] == Content(v, s, size)[i] {
      assert 0 <= 512 * (i / 512) < size;
    }
  }

  lemma {:induction false} ContentPrefix(v: Disk, s: seq<nat>, size: nat, n: nat)
    requires Readable(v, s, size) && n <= size
    ensures Content(v, s, n) == Content(v, s, size)[..n]
  {
  }

  // ----- file positions -----

  /** Number of the cluster, within its file, that holds file position `p`. */
  function ClusterIndex(g: Geometry, p: nat): nat
    requires g.csize > 0
  {
    Sec(p) / g.csize
  }

  /** Sector offset within that cluster: the source masks with csize - 1, a power of two less one. */
  function SectorInCluster(g: Geometry, p: nat): (r: nat)
    requires g.csize > 0
    ensures r < g.csize
  {
    Sec(p) % g.csize
  }

  lemma IndexRun(g: Geometry, p: nat, n: nat)
    requires g.csize > 0 && Off(p) == 0 && n > 0 && SectorInCluster(g, p) + n <= g.csize
    ensures ClusterIndex(g, p + 512 * n - 1) == ClusterIndex(g, p)
  {
    var k := p / 512;
    assert (p + 512 * n - 1) / 512 == k + n - 1;
    assert k == g.csize * (k / g.csize) + k % g.csize;
    DivStep(k / g.csize, g.csize, k % g.csize + n - 1);
  }

  lemma IndexInside(g: Geometry, p: nat)
    requires g.csize > 0 && Off(p) == 0 && SectorInCluster(g, p) != 0
    ensures p > 0 && ClusterIndex(g, p - 1) == ClusterIndex(g, p)
  {
    var k := Sec(p);
    assert p == 512 * k && k > 0;
    SecBefore(p);
    StepBack(k, g.csize);
  }

  lemma SecBefore(p: nat)
    requires Off(p) == 0 && p > 0
    ensures Sec(p - 1) == Sec(p) - 1
  {
  }

  lemma StepBack(k: nat, c: nat)
    requires c > 0 && k % c != 0 && k > 0
    ensures (k - 1) / c == k / c
  {
    var q, r := k / c, k % c;
    assert k == q * c + r;
    DivStep(q, c, r - 1);
  }

  lemma IndexZero(g: Geometry)
    requires g.csize > 0
    ensures ClusterIndex(g, 0) == 0
  {
  }

  lemma IndexBoundary(g: Geometry, p: nat)
    requires g.csize > 0 && p > 0 && Off(p) == 0 && SectorInCluster(g, p) == 0
    ensures ClusterIndex(g, p) == ClusterIndex(g, p - 1) + 1
    ensures ClusterIndex(g, p) * g.csize == Sec(p)
  {
    var k, c := Sec(p), g.csize;
    SecBefore(p);
    var q := k / c;
    assert k == q * c;
    MulSucc(c, q - 1);
    DivStep(q - 1, c, c - 1);
  }

  lemma IndexSame(g: Geometry, p: nat, q: nat)
    requires g.csize > 0 && Sec(p) == Sec(q)
    ensures ClusterIndex(g, p) == ClusterIndex(g, q)
  {
  }

  lemma IndexBound(g: Geometry, p: nat, n: nat)
    requires g.csize > 0 && Sec(p) < n * g.csize
    ensures ClusterIndex(g, p) < n
  {
    DivBound(p / 512, g.csize, n);
  }

  lemma IndexWithin(g: Geometry, p: nat, n: nat)
    requires g.csize > 0 && ClusterIndex(g, p) < n
    ensures Sec(p) < n * g.csize
  {
    var k := p / 512;
    assert k == g.csize * (k / g.csize) + k % g.csize;
    MulMono(g.csize, k / g.csize + 1, n);
    MulSucc(g.csize, k / g.csize);
  }

  // ----- cluster-wise positions -----

  /** The file position at which cluster number `m` starts. */
  function ClusterStart(g: Geometry, m: nat): nat {
    512 * (g.csize * m)
  }

  lemma StartStep(g: Geometry, m: nat)
    ensures ClusterStart(g, m + 1) == ClusterStart(g, m) + 512 * g.csize
  {
    MulSucc(g.csize, m);
  }

  lemma StartMono(g: Geometry, m: nat, n: nat)
    requires m <= n
    ensures ClusterStart(g, m) <= ClusterStart(g, n)
  {
    MulMono(g.csize, m, n);
  }

  lemma StartOf(g: Geometry, p: nat)
    requires g.csize > 0
    ensures ClusterStart(g, ClusterIndex(g, p)) <= p < ClusterStart(g, ClusterIndex(g, p) + 1)
  {
    var k := Sec(p);
    var q, r := k / g.csize, k % g.csize;
    assert k == g.csize * q + r;
    MulSucc(g.csize, q);
  }

  lemma IndexOf(g: Geometry, p: nat, m: nat)
    requires g.csize > 0 && ClusterStart(g, m) <= p < ClusterStart(g, m + 1)
    ensures ClusterIndex(g, p) == m
  {
    StartOf(g, p);
    var q := ClusterIndex(g, p);
    if q < m {
      StartMono(g, q + 1, m);
      assert false;
    }
    if q > m {
      StartMono(g, m + 1, q);
      assert false;
    }
  }

  /** The source divides by the cluster size in bytes, and masks with it less one. */
  lemma ByCluster(g: Geometry, p: nat)
    requires g.csize > 0
    ensures p / (512 * g.csize) == ClusterIndex(g, p)
    ensures p - p % (512 * g.csize) == ClusterStart(g, ClusterIndex(g, p))
  {
    StartOf(g, p);
    var q := ClusterIndex(g, p);
    StartStep(g, q);
    var b := 512 * g.csize;
    var r := p - ClusterStart(g, q);
    Assoc(g.csize, q);
    assert p == q * b + r;
    DivStep(q, b, r);
  }

  lemma Assoc(c: nat, q: nat)
    ensures 512 * (c * q) == q * (512 * c)
  {
  }

  lemma SizeOf(g: Geometry, chain: seq<nat>)
    requires g.csize > 0
    ensures 512 * |Sectors(g, chain)| == ClusterStart(g, |chain|)
  {
  }
}
