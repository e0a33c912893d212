/** The FAT as a table of links: chains, the forest they form, and the effect of
    stretching and removing chains on it. */
module FatTable {

  type Table = seq<nat>

  predicate InRange(f: Table, c: int) {
    2 <= c < |f|
  }

  /** `s` is the cluster chain that starts at `c`: every link leads to the next
      cluster and the last entry is an end mark. */
  ghost predicate IsChain(f: Table, c: nat, s: seq<nat>) {
    && |s| > 0
    && s[0] == c
    && (forall i :: 0 <= i < |s| ==> InRange(f, s[i]))
    && (forall i :: 0 <= i < |s| - 1 ==> f[s[i]] == s[i + 1])
    && f[s[|s| - 1]] >= |f|
  }

  /** No cluster occurs twice in a chain. */
  lemma {:induction false} ChainDistinct(f: Table, c: nat, s: seq<nat>, i: nat, j: nat)
    requires IsChain(f, c, s) && i < j < |s|
    ensures s[i] != s[j]
    decreases |s| - j
  {
    if j == |s| - 1 {
      assert f[s[i]] == s[i + 1] < |f|;
    } else {
      ChainDistinct(f, c, s, i + 1, j + 1);
    }
  }

  lemma {:induction false} ChainTail(f: Table, c: nat, s: seq<nat>, i: nat)
    requires IsChain(f, c, s) && i < |s|
    ensures IsChain(f, s[i], s[i..])
  {
    forall k | 0 <= k < |s[i..]| - 1 ensures f[s[i..][k]] == s[i..][k + 1] {
      assert f[s[i + k]] == s[i + k + 1];
    }
  }

  lemma {:induction false} ChainPredecessor(f: Table, c: nat, s: seq<nat>, k: nat)
    requires IsChain(f, c, s) && 0 < k < |s|
    ensures InRange(f, s[k - 1]) && f[s[k - 1]] == s[k]
  {
  }

  /** All clusters of a chain are allocated. */
  lemma {:induction false} ChainAllocated(f: Table, c: nat, s: seq<nat>)
    requires IsChain(f, c, s)
    ensures forall x :: x in s ==> InRange(f, x) && f[x] >= 2
    ensures |s| == 1 <==> f[c] >= |f|
    ensures |s| > 1 ==> f[c] == s[1]
  {
    forall x | x in s ensures InRange(f, x) && f[x] >= 2 {
      var i :| 0 <= i < |s| && s[i] == x;
      assert i == |s| - 1 || f[s[i]] == s[i + 1];
    }
    assert |s| == 1 || f[s[0]] == s[1];
  }

  /** A start cluster has at most one chain. */
  lemma {:induction false} ChainUnique(f: Table, c: nat, s: seq<nat>, t: seq<nat>)
    requires IsChain(f, c, s) && IsChain(f, c, t)
    ensures s == t
    decreases |s|
  {
    ChainAllocated(f, c, s);
    ChainAllocated(f, c, t);
    if |s| > 1 {
      ChainTail(f, c, s, 1);
      ChainTail(f, c, t, 1);
      ChainUnique(f, s[1], s[1..], t[1..]);
      assert s == [s[0]] + s[1..] && t == [t[0]] + t[1..];
    }
  }

  ghost predicate HasChain(f: Table, c: nat) {
    exists s :: IsChain(f, c, s)
  }

  /** Every allocated cluster starts a chain of allocated clusters that ends in an end mark. */
  ghost predicate Rooted(f: Table) {
    forall c :: InRange(f, c) && f[c] != 0 ==> HasChain(f, c)
  }

  /** No cluster has two predecessors. */
  ghost predicate Injective(f: Table) {
    forall c, d {:trigger InRange(f, c), InRange(f, d)} ::
      InRange(f, c) && InRange(f, d) && c != d && f[c] == f[d] ==> !InRange(f, f[c])
  }

  /** The FAT is a forest of disjoint acyclic chains. */
  ghost predicate Forest(f: Table) {
    Rooted(f) && Injective(f)
  }

  /** In a forest, links lead only to allocated clusters. */
  lemma {:induction false} ForestLinks(f: Table, c: nat)
    requires Forest(f) && InRange(f, c) && f[c] != 0
    ensures f[c] >= |f| || (InRange(f, f[c]) && f[f[c]] != 0)
  {
    var s :| IsChain(f, c, s);
    ChainAllocated(f, c, s);
  }

  /** No entry of the table holds the reserved value 1. */
  ghost predicate NoOnes(f: Table) {
    forall c :: InRange(f, c) ==> f[c] != 1
  }

  lemma {:induction false} ForestNoOnes(f: Table)
    requires Forest(f)
    ensures NoOnes(f)
  {
    forall c | InRange(f, c) ensures f[c] != 1 {
      if f[c] == 1 {
        ForestLinks(f, c);
        assert false;
      }
    }
  }

  /** Two chains of a forest that share a cluster are one the tail of the other. */
  lemma {:induction false} ChainsNest(f: Table, c: nat, s: seq<nat>, d: nat, t: seq<nat>, i: nat, j: nat)
    requires Forest(f) && IsChain(f, c, s) && IsChain(f, d, t)
    requires i < |s| && j < |t| && s[i] == t[j] && i <= j
    ensures j - i < |t| && s == t[j - i..]
    decreases i
  {
    if i == 0 {
      ChainTail(f, d, t, j);
      ChainUnique(f, c, s, t[j..]);
    } else {
      assert f[s[i - 1]] == s[i] && f[t[j - 1]] == t[j];
      assert InRange(f, s[i - 1]) && InRange(f, t[j - 1]);
      ChainsNest(f, c, s, d, t, i - 1, j - 1);
    }
  }

  /** A chain meets the chain of a cluster nothing links to only as its tail. */
  lemma {:induction false} MeetHead(f: Table, c: nat, s: seq<nat>, d: nat, t: seq<nat>, i: nat, j: nat)
    requires Forest(f) && IsChain(f, c, s) && IsChain(f, d, t)
    requires forall e :: InRange(f, e) ==> f[e] != c
    requires i < |s| && j < |t| && s[i] == t[j]
    ensures d in s
  {
    if i < j {
      ChainsNest(f, c, s, d, t, i, j);
      ChainPredecessor(f, d, t, j - i);
      assert false;
    }
    ChainsNest(f, d, t, c, s, j, i);
  }

  ghost predicate IsHead(f: Table, c: nat) {
    InRange(f, c) && f[c] != 0 && forall d :: InRange(f, d) ==> f[d] != c
  }

  /** Chains with different heads have no cluster in common. */
  lemma {:induction false} HeadChainsDisjoint(f: Table, c: nat, s: seq<nat>, d: nat, t: seq<nat>, i: nat, j: nat)
    requires Forest(f) && IsHead(f, c) && IsHead(f, d) && c != d
    requires IsChain(f, c, s) && IsChain(f, d, t)
    requires i < |s| && j < |t|
    ensures s[i] != t[j]
  {
    if s[i] == t[j] {
      MeetHead(f, c, s, d, t, i, j);
      var k :| 0 <= k < |s| && s[k] == d;
      ChainPredecessor(f, c, s, k);
      assert false;
    }
  }

  // ----- stretching -----

  /** The FAT after a free cluster `x` was marked as an end and, unless `c` is 0,
      linked behind `c`. */
  function Stretched(f: Table, c: nat, x: nat, eoc: nat): (f': Table)
    requires x < |f| && c < |f|
  {
    if c == 0 then f[x := eoc] else f[x := eoc][c := x]
  }

  /** A chain that does not contain the stretched cluster is unaffected. */
  lemma {:induction false} StretchKeepsOthers(f: Table, c: nat, x: nat, eoc: nat, h: nat, s: seq<nat>)
    requires InRange(f, x) && f[x] == 0 && (c == 0 || InRange(f, c)) && eoc >= |f|
    requires IsChain(f, h, s) && c !in s
    ensures IsChain(Stretched(f, c, x, eoc), h, s)
  {
    ChainAllocated(f, h, s);
    var f' := Stretched(f, c, x, eoc);
    forall i | 0 <= i < |s| ensures f'[s[i]] == f[s[i]] {
      assert s[i] in s;
    }
  }

  /** The chain through the stretched cluster becomes itself plus the new cluster. */
  lemma {:induction false} StretchExtends(f: Table, c: nat, x: nat, eoc: nat, h: nat, s: seq<nat>)
    requires InRange(f, x) && f[x] == 0 && InRange(f, c) && f[c] >= |f| && eoc >= |f|
    requires IsChain(f, h, s) && c in s
    ensures s[|s| - 1] == c && x !in s
    ensures IsChain(Stretched(f, c, x, eoc), h, s + [x])
  {
    var f' := Stretched(f, c, x, eoc);
    ChainAllocated(f, h, s);
    var k :| 0 <= k < |s| && s[k] == c;
    ChainTail(f, h, s, k);
    ChainAllocated(f, c, s[k..]);
    forall i | 0 <= i < |s| ensures s[i] != x && (i < |s| - 1 ==> s[i] != c) {
      assert s[i] in s;
      if i < |s| - 1 {
        ChainDistinct(f, h, s, i, |s| - 1);
      }
    }
  }

  /** Linking a free cluster behind an end of a chain, or starting a new chain with it,
      keeps the forest. */
  lemma {:induction false} StretchForest(f: Table, c: nat, x: nat, eoc: nat)
    requires Forest(f) && InRange(f, x) && f[x] == 0 && eoc >= |f|
    requires c == 0 || (InRange(f, c) && f[c] >= |f|)
    ensures Forest(Stretched(f, c, x, eoc))
  {
    var f' := Stretched(f, c, x, eoc);
    forall h | InRange(f', h) && f'[h] != 0 ensures HasChain(f', h) {
      if h == x {
        assert IsChain(f', x, [x]);
      } else {
        var s :| IsChain(f, h, s);
        if c in s {
          StretchExtends(f, c, x, eoc, h, s);
        } else {
          StretchKeepsOthers(f, c, x, eoc, h, s);
        }
      }
    }
    StretchInjective(f, c, x, eoc);
  }

  lemma {:induction false} StretchInjective(f: Table, c: nat, x: nat, eoc: nat)
    requires Forest(f) && InRange(f, x) && f[x] == 0 && eoc >= |f|
    requires c == 0 || (InRange(f, c) && f[c] >= |f|)
    ensures Injective(Stretched(f, c, x, eoc))
  {
    var f' := Stretched(f, c, x, eoc);
    forall a: int | InRange(f, a) ensures f[a] != x {
      if f[a] == x {
        ForestLinks(f, a);
        assert false;
      }
    }
    hide Rooted;
    forall a, b | InRange(f', a) && InRange(f', b) && a != b && f'[a] == f'[b] ensures !InRange(f', f'[a]) {
      assert InRange(f, a) && InRange(f, b);
    }
  }

  // ----- removing -----

  function NonZero(f: Table): nat {
    if f == [] then 0 else (if f[0] != 0 then 1 else 0) + NonZero(f[1..])
  }

  lemma {:induction false} NonZeroUpdate(f: Table, c: nat, v: nat)
    requires c < |f|
    ensures NonZero(f[c := v]) == NonZero(f) - (if f[c] != 0 then 1 else 0) + (if v != 0 then 1 else 0)
  {
    if c == 0 {
      assert f[c := v][1..] == f[1..];
    } else {
      NonZeroUpdate(f[1..], c - 1, v);
      assert f[c := v][1..] == f[1..][c - 1 := v];
    }
  }

  /** What remove_chain leaves of the FAT when it frees from `c` on, and whether it
      ran to the end without meeting the value 1. Terminates on a cyclic FAT too,
      because every turn clears one more entry. */
  function FreeFrom(f: Table, c: nat): (r: (Table, bool))
    requires InRange(f, c)
    ensures |r.0| == |f|
    decreases NonZero(f)
  {
    if f[c] == 0 then (f, true)
    else if f[c] == 1 then (f, false)
    else
      NonZeroUpdate(f, c, 0);
      var f1 := f[c := 0];
      if f[c] < |f| then FreeFrom(f1, f[c]) else (f1, true)
  }

  /** The FAT with the entries of the clusters in `s` cleared. */
  function Cleared(f: Table, s: seq<nat>): (r: Table)
    ensures |r| == |f|
  {
    seq(|f|, i requires 0 <= i < |f| => if i in s then 0 else f[i])
  }

  /** Removing from a cluster of an intact chain frees exactly the rest of that chain. */
  lemma {:induction false} FreeChain(f: Table, c: nat, s: seq<nat>)
    requires IsChain(f, c, s)
    ensures FreeFrom(f, c) == (Cleared(f, s), true)
    decreases |s|
  {
    var f1 := f[c := 0];
    assert s == [c] + s[1..];
    if |s| == 1 {
      assert Cleared(f, s) == f1;
    } else {
      assert f[s[0]] == s[1];
      forall i | 1 <= i < |s| ensures s[i] != c {
        ChainDistinct(f, c, s, 0, i);
      }
      ChainTail(f, c, s, 1);
      assert IsChain(f1, s[1], s[1..]);
      FreeChain(f1, s[1], s[1..]);
      assert Cleared(f1, s[1..]) == Cleared(f, s);
    }
  }

  /** Cutting a chain behind `p`: everything after it is freed, `p` becomes the end. */
  lemma {:induction false} CutChain(f: Table, h: nat, s: seq<nat>, k: nat, eoc: nat)
    requires IsChain(f, h, s) && 0 < k < |s| && eoc >= |f|
    ensures FreeFrom(f[s[k - 1] := eoc], s[k]) == (Cleared(f, s[k..])[s[k - 1] := eoc], true)
    ensures IsChain(Cleared(f, s[k..])[s[k - 1] := eoc], h, s[..k])
  {
    var f0 := f[s[k - 1] := eoc];
    ChainTail(f, h, s, k);
    forall i, j | 0 <= i < k <= j < |s| ensures s[i] != s[j] {
      ChainDistinct(f, h, s, i, j);
    }
    forall i | 0 <= i < k - 1 ensures s[i] != s[k - 1] {
      ChainDistinct(f, h, s, i, k - 1);
    }
    assert IsChain(f0, s[k], s[k..]) by {
      forall i | 0 <= i < |s[k..]| ensures s[k..][i] != s[k - 1] {
        assert s[k..][i] == s[k + i];
      }
    }
    FreeChain(f0, s[k], s[k..]);
    var f' := Cleared(f, s[k..])[s[k - 1] := eoc];
    forall i | 0 <= i < k ensures s[i] !in s[k..] {
      assert forall j :: 0 <= j < |s| - k ==> s[k..][j] == s[k + j];
    }
    assert Cleared(f0, s[k..]) == f';
    forall i | 0 <= i < k - 1 ensures f'[s[i]] == s[i + 1] {
      assert f[s[i]] == s[i + 1];
    }
  }

  /** A chain that shares no cluster with the freed ones survives. */
  lemma {:induction false} ClearKeepsOthers(f: Table, s: seq<nat>, h: nat, t: seq<nat>)
    requires IsChain(f, h, t) && forall i :: 0 <= i < |t| ==> t[i] !in s
    ensures IsChain(Cleared(f, s), h, t)
  {
  }

  /** Freeing a whole chain that nothing links to keeps the forest. */
  lemma {:induction false} ClearForest(f: Table, c: nat, s: seq<nat>)
    requires Forest(f) && IsChain(f, c, s)
    requires forall d :: InRange(f, d) ==> f[d] != c
    ensures Forest(Cleared(f, s))
  {
    var f' := Cleared(f, s);
    forall h | InRange(f', h) && f'[h] != 0 ensures HasChain(f', h) {
      var t :| IsChain(f, h, t);
      forall j | 0 <= j < |t| ensures t[j] !in s {
        if t[j] in s {
          var i :| 0 <= i < |s| && s[i] == t[j];
          MeetHead(f, c, s, h, t, i, j);
          assert false;
        }
      }
      ClearKeepsOthers(f, s, h, t);
    }
    forall a: int | InRange(f', a) ensures InRange(f, a) && (f'[a] == 0 || f'[a] == f[a]) {
    }
  }

  /** Turning the predecessor of `c` into an end keeps the forest and leaves nothing
      linked to `c`. */
  lemma {:induction false} DetachForest(f: Table, p: nat, eoc: nat)
    requires Forest(f) && InRange(f, p) && InRange(f, f[p]) && eoc >= |f|
    ensures Forest(f[p := eoc]) && Removable(f[p := eoc], f[p], 0)
  {
    var f' := f[p := eoc];
    forall h | InRange(f', h) && f'[h] != 0 ensures HasChain(f', h) {
      var s :| IsChain(f, h, s);
      DetachOne(f, p, eoc, h, s);
    }
    ForestLinks(f, p);
    DetachUnlinks(f, p, f');
  }

  lemma {:induction false} DetachUnlinks(f: Table, p: nat, f': Table)
    requires Injective(f) && InRange(f, p) && InRange(f, f[p])
    requires |f'| == |f| && f'[p] >= |f| && forall i :: 0 <= i < |f| && i != p ==> f'[i] == f[i]
    ensures Injective(f')
    ensures forall d :: InRange(f', d) ==> f'[d] != f[p]
  {
    forall a: int | InRange(f', a) ensures f'[a] != f[p] {
      assert InRange(f, a) && InRange(f, p);
    }
    forall a: int | InRange(f', a) ensures InRange(f, a) && (a == p || f'[a] == f[a]) {
    }
  }

  lemma {:induction false} DetachOne(f: Table, p: nat, eoc: nat, h: nat, s: seq<nat>)
    requires IsChain(f, h, s) && InRange(f, p) && eoc >= |f|
    ensures HasChain(f[p := eoc], h)
  {
    var f' := f[p := eoc];
    if p in s {
      var k :| 0 <= k < |s| && s[k] == p;
      forall i | 0 <= i < k ensures f'[s[i]] == s[i + 1] {
        ChainDistinct(f, h, s, i, k);
        assert f[s[i]] == s[i + 1];
      }
      assert IsChain(f', h, s[..k + 1]);
    } else {
      assert IsChain(f', h, s);
    }
  }

  /** A chain is removed from a head (`p` is 0) or behind a predecessor `p`. */
  ghost predicate Removable(f: Table, c: nat, p: nat) {
    && InRange(f, c) && f[c] != 0
    && (p == 0 ==> forall d :: InRange(f, d) ==> f[d] != c)
    && (p != 0 ==> InRange(f, p) && f[p] == c)
  }

  /** What remove_chain leaves of the FAT. */
  function Removed(f: Table, c: nat, p: nat, eoc: nat): (r: (Table, bool))
    requires InRange(f, c) && p < |f|
    ensures |r.0| == |f|
  {
    FreeFrom(if p == 0 then f else f[p := eoc], c)
  }

  lemma {:induction false} RemoveUnlinked(f: Table, c: nat)
    requires Forest(f) && Removable(f, c, 0)
    ensures FreeFrom(f, c).1 && Forest(FreeFrom(f, c).0)
  {
    var s :| IsChain(f, c, s);
    FreeChain(f, c, s);
    ClearForest(f, c, s);
  }

  /** remove_chain on a head or behind a predecessor succeeds and keeps the forest. */
  lemma {:induction false} RemoveForest(f: Table, c: nat, p: nat, eoc: nat)
    requires Forest(f) && Removable(f, c, p) && eoc >= |f|
    ensures Removed(f, c, p, eoc).1 && Forest(Removed(f, c, p, eoc).0)
  {
    if p == 0 {
      RemoveUnlinked(f, c);
    } else {
      DetachForest(f, p, eoc);
      RemoveUnlinked(f[p := eoc], c);
    }
  }

  // ----- counting free clusters -----

  function Zeros(f: Table, i: nat): nat
    requires i <= |f|
    decreases |f| - i
  {
    if i == |f| then 0 else (if f[i] == 0 then 1 else 0) + Zeros(f, i + 1)
  }

  /** The true number of free clusters: entries 0 and 1 are no clusters. */
  function FreeCount(f: Table): nat
    requires |f| >= 2
  {
    Zeros(f, 2)
  }

  lemma {:induction false} ZerosBound(f: Table, i: nat)
    requires i <= |f|
    ensures Zeros(f, i) <= |f| - i
    ensures Zeros(f, i) == 0 <==> forall c :: i <= c < |f| ==> f[c] != 0
    ensures (exists c :: i <= c < |f| && f[c] != 0) ==> Zeros(f, i) < |f| - i
    decreases |f| - i
  {
    if i < |f| {
      ZerosBound(f, i + 1);
    }
  }

  lemma {:induction false} ZerosUpdate(f: Table, i: nat, c: nat, v: nat)
    requires i <= |f| && c < |f|
    ensures Zeros(f[c := v], i) ==
            Zeros(f, i) + (if c < i then 0 else (if v == 0 then 1 else 0) - (if f[c] == 0 then 1 else 0))
    decreases |f| - i
  {
    if i < |f| {
      ZerosUpdate(f, i + 1, c, v);
    }
  }

  // ----- runs -----

  /** One call of create_chain or remove_chain made with a legitimate argument. */
  datatype Op = Create(c: nat, x: nat) | Remove(c: nat, p: nat)

  ghost predicate Allowed(f: Table, op: Op) {
    match op
    case Create(c, x) => InRange(f, x) && f[x] == 0 && (c == 0 || (InRange(f, c) && f[c] >= |f|))
    case Remove(c, p) => Removable(f, c, p)
  }

  ghost function Apply(f: Table, op: Op, eoc: nat): (f': Table)
    requires Allowed(f, op)
    ensures |f'| == |f|
  {
    match op
    case Create(c, x) => Stretched(f, c, x, eoc)
    case Remove(c, p) => Removed(f, c, p, eoc).0
  }

  ghost predicate IsRun(fs: seq<Table>, ops: seq<Op>, eoc: nat) {
    && |fs| == |ops| + 1
    && forall i :: 0 <= i < |ops| ==> Allowed(fs[i], ops[i]) && fs[i + 1] == Apply(fs[i], ops[i], eoc)
  }

  /** Every run of create_chain and remove_chain calls keeps the FAT a forest. */
  lemma {:induction false} RunKeepsForest(fs: seq<Table>, ops: seq<Op>, eoc: nat, n: nat)
    requires IsRun(fs, ops, eoc) && n < |fs|
    requires Forest(fs[0]) && eoc >= |fs[0]|
    ensures Forest(fs[n]) && |fs[n]| == |fs[0]|
  {
    if n > 0 {
      RunKeepsForest(fs, ops, eoc, n - 1);
      match ops[n - 1] {
        case Create(c, x) => StretchForest(fs[n - 1], c, x, eoc);
        case Remove(c, p) => RemoveForest(fs[n - 1], c, p, eoc);
      }
    }
  }
}
