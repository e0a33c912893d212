/** Where the parts of a mounted FAT volume lie: the fields of FATFS that mounting sets. */
module Layout {
  import opened Bytes

  datatype Kind = Fat12 | Fat16 | Fat32

  const MAX_FAT12: nat := 0xFF5
  const MAX_FAT16: nat := 0xFFF5
  const MAX_FAT32: nat := 0x0FFFFFF5

  /** Largest number of clusters a volume of the kind may have. */
  function MaxClusters(k: Kind): nat {
    match k
    case Fat12 => MAX_FAT12
    case Fat16 => MAX_FAT16
    case Fat32 => MAX_FAT32
  }

  predicate PowerOfTwo(x: nat) {
    x == 1 || (x > 1 && x % 2 == 0 && PowerOfTwo(x / 2))
  }

  /** A FAT entry of the kind starts every `Stride` nibbles and uses the first `Width` of them. */
  function Stride(k: Kind): nat {
    match k case Fat12 => 3 case Fat16 => 4 case Fat32 => 8
  }

  function Width(k: Kind): nat {
    match k case Fat12 => 3 case Fat16 => 4 case Fat32 => 7
  }

  datatype Geometry = Geometry(
    kind: Kind,
    nFats: nat,
    csize: nat,
    nRootDir: nat,
    nFatEnt: nat,
    fsize: nat,
    volBase: nat,
    fatBase: nat,
    dirBase: nat,
    dataBase: nat)
  {
    /** The relations among the fields that mounting a volume establishes. */
    predicate Valid() {
      && 0 < csize <= 128 && PowerOfTwo(csize)
      && (nFats == 1 || nFats == 2)
      && 3 <= nFatEnt <= MaxClusters(kind) + 2
      && (kind == Fat12 ==> 3 * nFatEnt <= 1024 * fsize)
      && (kind == Fat16 ==> 4 * nFatEnt <= 1024 * fsize)
      && (kind == Fat32 ==> 8 * nFatEnt <= 1024 * fsize)
      && volBase < fatBase
      && (kind == Fat32 ==> nRootDir == 0 && FatEnd() <= dataBase)
      && (kind != Fat32 ==> nRootDir > 0 && nRootDir % 16 == 0
                            && dirBase == FatEnd() && dirBase + nRootDir / 16 == dataBase)
    }

    function FatEnd(): nat {
      fatBase + (if nFats == 2 then 2 * fsize else fsize)
    }

    /** First sector after the data area. */
    function DataEnd(): nat
      requires nFatEnt >= 2
    {
      dataBase + csize * (nFatEnt - 2)
    }

    predicate InFirstFat(s: nat) {
      fatBase <= s < fatBase + fsize
    }

    predicate InSecondFat(s: nat) {
      nFats == 2 && fatBase + fsize <= s < fatBase + 2 * fsize
    }

    predicate InFats(s: nat) {
      fatBase <= s < FatEnd()
    }

    predicate ValidCluster(c: nat) {
      2 <= c < nFatEnt
    }

    /** The first sector of a cluster, 0 for a number that is none. */
    function ClusterSector(c: nat): nat {
      if !ValidCluster(c) then 0 else dataBase + csize * (c - 2)
    }

    /** The first sector of a cluster as clst2sect computes it, in 32 bits. */
    function ClusterToSector(c: nat): nat {
      if !ValidCluster(c) then 0 else W(dataBase + csize * (c - 2))
    }

    /** Sector number `x` of a cluster, counted on in 32 bits. */
    function SectorOf(c: nat, x: nat): nat {
      W(ClusterToSector(c) + x)
    }

    /** Counted in 32 bits, the sectors of every cluster lie in the data area. */
    ghost predicate Addressed()
      requires nFatEnt >= 2
    {
      forall c: nat, x: nat :: ValidCluster(c) && x < csize ==> dataBase <= SectorOf(c, x) < DataEnd()
    }
  }

  lemma MulMono(a: nat, x: nat, y: nat)
    requires x <= y
    ensures a * x <= a * y
  {
  }

  lemma MulSucc(a: nat, x: nat)
    ensures a * (x + 1) == a * x + a
  {
  }

  /** All sectors of a cluster lie in the data area. */
  lemma {:induction false} ClusterInside(g: Geometry, c: nat)
    requires g.ValidCluster(c)
    ensures g.dataBase <= g.ClusterSector(c) && g.ClusterSector(c) + g.csize <= g.DataEnd()
  {
    MulMono(g.csize, (c - 2) + 1, g.nFatEnt - 2);
    MulSucc(g.csize, c - 2);
  }

  /** No two clusters share a sector. */
  lemma {:induction false} ClustersApart(g: Geometry, c: nat, d: nat)
    requires g.ValidCluster(c) && g.ValidCluster(d) && c < d
    ensures g.ClusterSector(c) + g.csize <= g.ClusterSector(d)
  {
    MulMono(g.csize, (c - 2) + 1, d - 2);
    MulSucc(g.csize, c - 2);
  }

  /** The 32-bit sector of every cluster is right, and all its sectors lie in the data area,
      exactly when the data area ends within 32 bits. */
  lemma {:induction false} AddressedExactly(g: Geometry)
    requires g.nFatEnt > 2 && g.csize > 0 && 0 < g.dataBase < 0x1_0000_0000
    ensures g.Addressed() <==> g.DataEnd() <= 0x1_0000_0000
    ensures g.DataEnd() <= 0x1_0000_0000 ==> forall c :: g.ClusterToSector(c) == g.ClusterSector(c)
  {
    if g.DataEnd() <= 0x1_0000_0000 {
      forall c: nat, x: nat | g.ValidCluster(c) && x < g.csize
        ensures g.ClusterToSector(c) == g.ClusterSector(c) && g.dataBase <= g.SectorOf(c, x) < g.DataEnd()
      {
        ClusterInside(g, c);
        NoWrap(g.ClusterSector(c) + x);
        NoWrap(g.ClusterSector(c));
      }
      forall c ensures g.ClusterToSector(c) == g.ClusterSector(c) {
        if g.ValidCluster(c) {
          ClusterInside(g, c);
          NoWrap(g.ClusterSector(c));
        }
      }
    } else {
      var c, x := WhereWraps(g);
      WrapSum(g.ClusterSector(c), x);
      assert g.SectorOf(c, x) == 0;
    }
  }

  /** The cluster and sector whose number is the first beyond 32 bits. */
  lemma WhereWraps(g: Geometry) returns (c: nat, x: nat)
    requires g.nFatEnt > 2 && g.csize > 0 && g.dataBase < 0x1_0000_0000 < g.DataEnd()
    ensures g.ValidCluster(c) && x < g.csize && g.ClusterSector(c) + x == 0x1_0000_0000
  {
    var k := 0x1_0000_0000 - g.dataBase;
    c, x := k / g.csize + 2, k % g.csize;
    assert k == g.csize * (c - 2) + x;
    if c >= g.nFatEnt {
      MulMono(g.csize, g.nFatEnt - 2, c - 2);
      assert false;
    }
  }

  lemma NoWrap(x: nat)
    requires x < 0x1_0000_0000
    ensures W(x) == x
  {
  }

  lemma WrapSum(a: nat, b: nat)
    ensures W(W(a) + b) == W(a + b)
  {
    var q, r := a / 0x1_0000_0000, W(a);
    assert a + b == 0x1_0000_0000 * q + (r + b);
  }
}
