/** The kernel heap: chunks with four-byte headers in one stretch of memory, first fit,
    split on allocation, merge with what follows on release, growth by pages. */
module KernelHeap {
  import opened Basics
  import opened Bytes

  const PAGE: nat := 4096
  const MINSIZE: nat := 16
  const HEADER: nat := 4
  const USED: nat := 0x8000_0000
  /** Distance between the ends of the address range for the kernel heap. */
  const LIMIT: nat := 0x4000_0000 - 0x0200_0000

  /** Stretch of memory that one page table maps. */
  const SLOT: nat := 0x40_0000

  /** A chunk: where its header lies, counted from the start of the heap, its size with the
      header, and whether it is in use. */
  datatype Chunk = Chunk(addr: nat, size: nat, used: bool) {
    function End(): nat {
      addr + size
    }
  }

  /** The chunks fill the heap without gap or overlap, and none is too small. */
  ghost predicate Tiles(cs: seq<Chunk>, end: nat) {
    && |cs| > 0 && cs[0].addr == 0 && cs[|cs| - 1].End() == end
    && (forall i :: 0 <= i < |cs| ==> cs[i].size >= MINSIZE)
    && forall i :: 0 <= i < |cs| - 1 ==> cs[i].End() == cs[i + 1].addr
  }

  lemma {:induction false} TilesOrder(cs: seq<Chunk>, end: nat, i: nat, j: nat)
    requires Tiles(cs, end) && i < j < |cs|
    ensures cs[i].End() <= cs[j].addr
    decreases j - i
  {
    if i + 1 < j {
      TilesOrder(cs, end, i + 1, j);
    }
  }

  lemma {:induction false} TilesWithin(cs: seq<Chunk>, end: nat, i: nat)
    requires Tiles(cs, end) && i < |cs|
    ensures cs[i].End() <= end && (cs[i].End() == end <==> i == |cs| - 1)
  {
    if i < |cs| - 1 {
      TilesOrder(cs, end, i, |cs| - 1);
    }
  }

  /** The word in the memory at the head of a chunk. */
  function Word(c: Chunk): nat {
    c.size + if c.used then USED else 0
  }

  ghost predicate Headed(m: seq<byte>, c: Chunk) {
    c.addr + HEADER <= |m| && c.size < USED && LoadDword(m, c.addr) == Word(c)
  }

  /** Walking the headers in memory from the start meets exactly these chunks. */
  ghost predicate Describes(m: seq<byte>, cs: seq<Chunk>, end: nat) {
    Tiles(cs, end) && end <= |m| && forall i :: 0 <= i < |cs| ==> Headed(m, cs[i])
  }

  predicate Fits(c: Chunk, need: nat) {
    !c.used && c.size >= need
  }

  /** Index of the chunk with the lowest address that fits, the number of chunks if none does. */
  function FirstFit(cs: seq<Chunk>, need: nat): (i: nat)
    ensures i <= |cs| && (i < |cs| ==> Fits(cs[i], need)) && forall j :: 0 <= j < i ==> !Fits(cs[j], need)
  {
    if cs == [] then 0 else if Fits(cs[0], need) then 0 else 1 + FirstFit(cs[1..], need)
  }

  /** The chunk cut for a request, and what is left of it. */
  function Cut(c: Chunk, need: nat): seq<Chunk>
    requires need <= c.size
  {
    if c.size - need < MINSIZE then [c.(used := true)]
    else [Chunk(c.addr, need, true), Chunk(c.addr + need, c.size - need, false)]
  }

  function Allocated(cs: seq<Chunk>, i: nat, need: nat): seq<Chunk>
    requires i < |cs| && Fits(cs[i], need)
  {
    cs[..i] + Cut(cs[i], need) + cs[i + 1..]
  }

  /** Index of the first chunk from `i` on that is in use. */
  function NextUsed(cs: seq<Chunk>, i: nat): (j: nat)
    requires i <= |cs|
    ensures i <= j <= |cs| && (j < |cs| ==> cs[j].used) && forall k :: i <= k < j ==> !cs[k].used
    decreases |cs| - i
  {
    if i == |cs| || cs[i].used then i else NextUsed(cs, i + 1)
  }

  /** The sizes of chunks together. */
  function Total(cs: seq<Chunk>): nat {
    if cs == [] then 0 else Total(cs[..|cs| - 1]) + cs[|cs| - 1].size
  }

  lemma {:induction false} TotalSpan(cs: seq<Chunk>, end: nat, i: nat, j: nat)
    requires Tiles(cs, end) && i < j <= |cs|
    ensures Total(cs[i..j]) == cs[j - 1].End() - cs[i].addr
    decreases j
  {
    var s := cs[i..j];
    assert s[..|s| - 1] == cs[i..j - 1] && s[|s| - 1] == cs[j - 1];
    if i < j - 1 {
      TotalSpan(cs, end, i, j - 1);
    } else {
      assert s[..0] == [];
    }
  }

  /** The chunks once number `i` is released and has swallowed the free ones behind it. */
  function Freed(cs: seq<Chunk>, i: nat): seq<Chunk>
    requires i < |cs|
  {
    var j := NextUsed(cs, i + 1);
    cs[..i] + [Chunk(cs[i].addr, Total(cs[i..j]), false)] + cs[j..]
  }

  lemma {:induction false} HeaderBack(m: seq<byte>, p: nat, v: nat)
    requires p + 4 <= |m| && v < 0x1_0000_0000
    ensures LoadDword(Patch(m, p, DwordBytes(v)), p) == v
  {
    var d := Patch(m, p, DwordBytes(v));
    assert d[p] == v % 256 && d[p + 1] == v / 256 % 256 && d[p + 2] == v / 65536 % 256
      && d[p + 3] == v / 16777216 % 256;
    assert v == v % 256 + 256 * (v / 256);
    assert v / 256 == v / 256 % 256 + 256 * (v / 65536);
    assert v / 65536 == v / 65536 % 256 + 256 * (v / 16777216);
  }

  lemma HeaderKept(m: seq<byte>, p: nat, v: nat, c: Chunk)
    requires p + 4 <= |m| && Headed(m, c) && (c.addr + HEADER <= p || p + 4 <= c.addr)
    ensures Headed(Patch(m, p, DwordBytes(v)), c)
  {
  }

  /** A whole heap after a growth by one chunk. */
  lemma {:induction false} TilesGrown(cs: seq<Chunk>, end: nat, n: nat)
    requires Tiles(cs, end) && n >= MINSIZE
    ensures Tiles(cs + [Chunk(end, n, false)], end + n)
  {
    var cs' := cs + [Chunk(end, n, false)];
    forall i | 0 <= i < |cs'| - 1 ensures cs'[i].End() == cs'[i + 1].addr {
      assert i < |cs| - 1 ==> cs[i].End() == cs[i + 1].addr;
    }
  }

  lemma {:induction false} TilesAllocated(cs: seq<Chunk>, end: nat, i: nat, need: nat)
    requires Tiles(cs, end) && i < |cs| && Fits(cs[i], need) && need >= MINSIZE
    ensures Tiles(Allocated(cs, i, need), end)
  {
    var c, cs' := Cut(cs[i], need), Allocated(cs, i, need);
    assert |cs'| == |cs| - 1 + |c|;
    forall k | 0 <= k < |cs'| ensures cs'[k].size >= MINSIZE {
      assert k >= i + |c| ==> cs'[k] == cs[k - |c| + 1];
    }
    forall k | 0 <= k < |cs'| - 1 ensures cs'[k].End() == cs'[k + 1].addr {
      if k + 1 < i {
        assert cs'[k] == cs[k] && cs'[k + 1] == cs[k + 1];
      } else if k + 1 == i {
        assert cs'[k] == cs[k] && cs'[k + 1].addr == cs[i].addr;
      } else if k >= i + |c| - 1 {
        assert cs'[k + 1] == cs[k + 1 - |c| + 1];
        assert cs'[k].End() == cs[k - |c| + 1].End();
      }
    }
    assert cs'[|cs'| - 1].End() == end;
  }

  lemma {:induction false} TilesFreed(cs: seq<Chunk>, end: nat, i: nat)
    requires Tiles(cs, end) && i < |cs|
    ensures Tiles(Freed(cs, i), end)
  {
    var j, cs' := NextUsed(cs, i + 1), Freed(cs, i);
    hide Total, NextUsed;
    TotalSpan(cs, end, i, j);
    if i < j - 1 {
      TilesOrder(cs, end, i, j - 1);
    }
    forall k | 0 <= k < |cs'| ensures cs'[k].size >= MINSIZE {
      assert k > i ==> cs'[k] == cs[k - i - 1 + j];
    }
    forall k | 0 <= k < |cs'| - 1 ensures cs'[k].End() == cs'[k + 1].addr {
      if k + 1 <= i {
        assert cs'[k] == cs[k] && cs'[k + 1].addr == cs[k + 1].addr;
      } else {
        assert cs'[k + 1] == cs[k - i + j];
        assert cs'[k].End() == cs[k - i + j - 1].End();
      }
    }
    assert cs'[|cs'| - 1].End() == end;
  }

  /** After a release the chunk that follows is in use, or there is none. */
  lemma {:induction false} FreedIsMerged(cs: seq<Chunk>, i: nat)
    requires i < |cs|
    ensures i < |Freed(cs, i)| && !Freed(cs, i)[i].used
    ensures i + 1 < |Freed(cs, i)| ==> Freed(cs, i)[i + 1].used
  {
  }

  /** Releasing what was just allocated restores the heap exactly when the chunk it came
      from had no free chunk behind it. */
  lemma {:induction false} FreeUndoesAlloc(cs: seq<Chunk>, end: nat, i: nat, need: nat)
    requires Tiles(cs, end) && i < |cs| && Fits(cs[i], need) && need >= MINSIZE
    ensures i < |Allocated(cs, i, need)|
    ensures Freed(Allocated(cs, i, need), i) == cs <==> (i + 1 < |cs| ==> cs[i + 1].used)
  {
    hide Total, NextUsed, Tiles, Cut;
    CutParts(cs, i, need);
    if i + 1 < |cs| && !cs[i + 1].used {
      var a, n := Allocated(cs, i, need), |Cut(cs[i], need)|;
      assert a[i + n] == cs[i + 1];
      assert NextUsed(a, i + 1) > i + n;
      assert |Freed(a, i)| < |cs|;
    } else {
      UndoneExactly(cs, end, i, need);
    }
  }

  lemma CutParts(cs: seq<Chunk>, i: nat, need: nat)
    requires i < |cs| && Fits(cs[i], need)
    ensures var a, n := Allocated(cs, i, need), |Cut(cs[i], need)|;
      && 1 <= n <= 2 && |a| == |cs| - 1 + n && a[i + n..] == cs[i + 1..] && a[..i] == cs[..i]
      && a[i].addr == cs[i].addr && a[i + n - 1].End() == cs[i].End() && (n == 2 ==> !a[i + 1].used)
  {
    var a, c := Allocated(cs, i, need), Cut(cs[i], need);
    assert a[i] == c[0] && a[i + |c| - 1] == c[|c| - 1];
  }

  lemma {:induction false} UndoneExactly(cs: seq<Chunk>, end: nat, i: nat, need: nat)
    requires Tiles(cs, end) && i < |cs| && Fits(cs[i], need) && need >= MINSIZE && (i + 1 < |cs| ==> cs[i + 1].used)
    ensures i < |Allocated(cs, i, need)| && Freed(Allocated(cs, i, need), i) == cs
  {
    hide Total, NextUsed, Tiles, Allocated;
    var a, n := Allocated(cs, i, need), |Cut(cs[i], need)|;
    CutParts(cs, i, need);
    TilesAllocated(cs, end, i, need);
    assert i + 1 < |cs| ==> a[i + n] == a[i + n..][0] == cs[i + 1];
    assert NextUsed(a, i + 1) == i + n;
    TotalSpan(a, end, i, i + n);
    assert Freed(a, i) == cs[..i] + [cs[i]] + cs[i + 1..];
    assert cs == cs[..i] + [cs[i]] + cs[i + 1..];
  }

  /** Every chunk in use, but for the one with header `but`, is still there with the same payload. */
  ghost predicate LiveKept(m: seq<byte>, cs: seq<Chunk>, m': seq<byte>, cs': seq<Chunk>, but: int) {
    && |m'| == |m|
    && forall i :: 0 <= i < |cs| && cs[i].used && cs[i].addr != but ==>
         cs[i] in cs' && forall k :: cs[i].addr + HEADER <= k < cs[i].End() && k < |m| ==> m'[k] == m[k]
  }

  /** The memory after the headers of the chunks `c` were written. */
  function WithHeaders(m: seq<byte>, c: seq<Chunk>): (m': seq<byte>)
    requires forall i :: 0 <= i < |c| ==> c[i].addr + HEADER <= |m|
    ensures |m'| == |m|
  {
    if c == [] then m else Patch(WithHeaders(m, c[..|c| - 1]), c[|c| - 1].addr, DwordBytes(Word(c[|c| - 1])))
  }

  /** Writing the headers of the cut chunk makes the memory describe the new chunks. */
  lemma {:induction false} DescribesAllocated(m: seq<byte>, cs: seq<Chunk>, end: nat, i: nat, need: nat)
    requires Describes(m, cs, end) && i < |cs| && Fits(cs[i], need) && need >= MINSIZE
    ensures forall k :: 0 <= k < |Cut(cs[i], need)| ==> Cut(cs[i], need)[k].addr + HEADER <= |m|
    ensures var m' := WithHeaders(m, Cut(cs[i], need)); Describes(m', Allocated(cs, i, need), end)
    ensures var m' := WithHeaders(m, Cut(cs[i], need)); LiveKept(m, cs, m', Allocated(cs, i, need), -1)
  {
    hide DwordBytes, LoadDword, Cut, Allocated, WithHeaders, Tiles;
    var c, a := Cut(cs[i], need), Allocated(cs, i, need);
    TilesAllocated(cs, end, i, need);
    TilesWithin(cs, end, i);
    CutFits(cs[i], need, |m|);
    var m' := WithHeaders(m, c);
    CutHeaders(m, cs[i], need);
    AllocatedAt(cs, i, need);
    Others(cs, end, i);
    forall k | 0 <= k < |a| ensures Headed(m', a[k]) {
      if i <= k < i + |c| {
        assert a[k] == c[k - i];
      }
    }
  }

  lemma CutFits(c: Chunk, need: nat, n: nat)
    requires Fits(c, need) && need >= MINSIZE && c.End() <= n
    ensures forall k :: 0 <= k < |Cut(c, need)| ==> Cut(c, need)[k].addr + HEADER <= n
  {
  }

  /** Where the chunks are after an allocation. */
  lemma AllocatedAt(cs: seq<Chunk>, i: nat, need: nat)
    requires i < |cs| && Fits(cs[i], need)
    ensures var a, c := Allocated(cs, i, need), Cut(cs[i], need);
      && |a| == |cs| - 1 + |c| && 1 <= |c| <= 2
      && (forall k :: 0 <= k < i ==> a[k] == cs[k])
      && (forall k :: i <= k < i + |c| ==> a[k] == c[k - i])
      && (forall k :: i + |c| <= k < |a| ==> a[k] == cs[k - |c| + 1])
      && (forall k :: 0 <= k < |cs| && k != i ==> cs[k] in a)
  {
    var a, c := Allocated(cs, i, need), Cut(cs[i], need);
    forall k | 0 <= k < |cs| && k != i ensures cs[k] in a {
      assert a[if k < i then k else k - 1 + |c|] == cs[k];
    }
  }

  /** The other chunks lie wholly before or behind one. */
  lemma {:induction false} Others(cs: seq<Chunk>, end: nat, i: nat)
    requires Tiles(cs, end) && i < |cs|
    ensures forall k :: 0 <= k < |cs| ==> cs[k].size >= MINSIZE && cs[k].End() <= end
    ensures forall k :: 0 <= k < |cs| && k != i ==> cs[k].End() <= cs[i].addr || cs[i].End() <= cs[k].addr
  {
    forall k | 0 <= k < |cs|
      ensures cs[k].End() <= end && (k != i ==> cs[k].End() <= cs[i].addr || cs[i].End() <= cs[k].addr)
    {
      TilesWithin(cs, end, k);
      if k < i {
        TilesOrder(cs, end, k, i);
      } else if i < k {
        TilesOrder(cs, end, i, k);
      }
    }
  }

  /** What the cut writes: its own headers, inside the chunk that is cut. */
  lemma {:induction false} CutHeaders(m: seq<byte>, c: Chunk, need: nat)
    requires Headed(m, c) && c.End() <= |m| && Fits(c, need) && need >= MINSIZE
    ensures var d, m' := Cut(c, need), WithHeaders(m, Cut(c, need));
      && (forall k :: 0 <= k < |d| ==> Headed(m', d[k]))
      && (forall x :: 0 <= x < |m| && !(c.addr <= x < c.End()) ==> m'[x] == m[x])
      && (forall e: Chunk :: Headed(m, e) && (e.addr + HEADER <= c.addr || c.End() <= e.addr) ==> Headed(m', e))
  {
    hide DwordBytes, LoadDword;
    var d := Cut(c, need);
    assert d[..|d| - 1] == if |d| == 2 then [d[0]] else [];
    assert [d[0]][..0] == [];
    var m1 := Patch(m, d[0].addr, DwordBytes(Word(d[0])));
    HeaderBack(m, d[0].addr, Word(d[0]));
    forall e: Chunk | Headed(m, e) && (e.addr + HEADER <= c.addr || c.End() <= e.addr) ensures Headed(m1, e) {
      HeaderKept(m, d[0].addr, Word(d[0]), e);
    }
    if |d| == 1 {
      assert WithHeaders(m, []) == m;
      assert WithHeaders(m, d) == m1;
    } else {
      assert WithHeaders(m, [d[0]]) == m1;
      var m2 := Patch(m1, d[1].addr, DwordBytes(Word(d[1])));
      assert WithHeaders(m, d) == m2;
      HeaderBack(m1, d[1].addr, Word(d[1]));
      HeaderKept(m1, d[1].addr, Word(d[1]), d[0]);
      forall e: Chunk | Headed(m, e) && (e.addr + HEADER <= c.addr || c.End() <= e.addr) ensures Headed(m2, e) {
        HeaderKept(m1, d[1].addr, Word(d[1]), e);
      }
    }
  }

  /** Growing the heap: the old chunks and one new, free one. */
  lemma {:induction false} DescribesGrown(m: seq<byte>, cs: seq<Chunk>, end: nat, n: nat)
    requires Describes(m, cs, end) && MINSIZE <= n < USED && end + n <= |m|
    ensures Describes(Patch(m, end, DwordBytes(n)), cs + [Chunk(end, n, false)], end + n)
    ensures LiveKept(m, cs, Patch(m, end, DwordBytes(n)), cs + [Chunk(end, n, false)], -1)
  {
    hide DwordBytes, LoadDword;
    var m', cs' := Patch(m, end, DwordBytes(n)), cs + [Chunk(end, n, false)];
    TilesGrown(cs, end, n);
    HeaderBack(m, end, n);
    forall i | 0 <= i < |cs| ensures Headed(m', cs[i]) && cs[i] in cs' {
      TilesWithin(cs, end, i);
      HeaderKept(m, end, n, cs[i]);
      assert cs'[i] == cs[i];
    }
    forall i | 0 <= i < |cs| && cs[i].used
      ensures forall k :: cs[i].addr + HEADER <= k < cs[i].End() && k < |m| ==> m'[k] == m[k]
    {
      TilesWithin(cs, end, i);
    }
  }

  /** Releasing a chunk rewrites its header only. */
  lemma {:induction false} DescribesFreed(m: seq<byte>, cs: seq<Chunk>, end: nat, i: nat)
    requires Describes(m, cs, end) && i < |cs| && end < USED
    ensures var c := Freed(cs, i)[i]; c.addr == cs[i].addr && c.addr + HEADER <= |m|
    ensures var m' := Patch(m, cs[i].addr, DwordBytes(Word(Freed(cs, i)[i])));
      Describes(m', Freed(cs, i), end) && LiveKept(m, cs, m', Freed(cs, i), cs[i].addr)
  {
    hide DwordBytes, LoadDword, Total, Freed, Tiles;
    var cs' := Freed(cs, i);
    TilesFreed(cs, end, i);
    FreedAt(cs, i);
    TilesWithin(cs', end, i);
    Others(cs, end, i);
    var m' := Patch(m, cs[i].addr, DwordBytes(Word(cs'[i])));
    HeaderBack(m, cs[i].addr, Word(cs'[i]));
    forall k | 0 <= k < |cs| && k != i ensures Headed(m', cs[k]) {
      HeaderKept(m, cs[i].addr, Word(cs'[i]), cs[k]);
    }
  }

  /** Where the chunks are after a release. */
  lemma FreedAt(cs: seq<Chunk>, i: nat)
    requires i < |cs|
    ensures var a, j := Freed(cs, i), NextUsed(cs, i + 1);
      && |a| == i + 1 + |cs| - j && a[i] == Chunk(cs[i].addr, Total(cs[i..j]), false)
      && (forall k :: 0 <= k < i ==> a[k] == cs[k])
      && (forall k :: i < k < |a| ==> a[k] == cs[k - i - 1 + j])
      && (forall k :: 0 <= k < |cs| && k != i && cs[k].used ==> cs[k] in a)
  {
    var a, j := Freed(cs, i), NextUsed(cs, i + 1);
    forall k | 0 <= k < |cs| && k != i && cs[k].used ensures cs[k] in a {
      assert a[if k < i then k else k - j + i + 1] == cs[k];
    }
  }

  // ----- frames for the growth -----

  /** Page tables needed for the first `b` bytes of the heap. */
  function Tables(b: nat): nat {
    (b + SLOT - 1) / SLOT
  }

  /** Frames taken for `n` pages behind the break: the pages, and a page table wherever one
      begins that is not there yet. */
  function Taken(brk: nat, n: nat): (r: nat) {
    n + Tables(brk + PAGE * n) - Tables(brk)
  }

  lemma TakenStep(brk: nat, n: nat)
    requires brk % 4096 == 0
    ensures Taken(brk, 0) == 0
    ensures Taken(brk, n + 1) == Taken(brk, n) + (if (brk + 4096 * n) % 0x40_0000 == 0 then 2 else 1)
  {
    hide Tables;
    var q := brk / PAGE + n;
    assert brk + PAGE * n == PAGE * q;
    TablesOf(q);
    TablesOf(q + 1);
    SlotStart(q);
    NextSlot(q);
  }

  /** Page tables for `q` pages. */
  lemma TablesOf(q: nat)
    ensures Tables(PAGE * q) == (q + 1023) / 1024
  {
    var a, r := (q + 1023) / 1024, (q + 1023) % 1024;
    assert PAGE * q + SLOT - 1 == SLOT * a + (PAGE * r + PAGE - 1);
  }

  lemma SlotStart(q: nat)
    ensures PAGE * q % SLOT == 0 <==> q % 1024 == 0
  {
    var a, r := q / 1024, q % 1024;
    assert PAGE * q == SLOT * a + PAGE * r;
  }

  lemma NextSlot(q: nat)
    ensures (q + 1 + 1023) / 1024 == (q + 1023) / 1024 + if q % 1024 == 0 then 1 else 0
  {
  }

  /** The heap ends at 1 GiB, 992 MiB behind its start. */
  lemma GrowLimit(brk: nat, n: nat, low: nat, high: nat)
    requires n > 0 && CanGrow(brk, n, low, high)
    ensures brk + 4096 * n <= 992 * 0x10_0000
  {
  }

  /** The first allocation on a fresh heap: a header of four bytes, at least sixteen bytes in all,
      and what is left of the page. */
  lemma FirstAllocation(size: nat)
    requires 0 < size <= 4076
    ensures Allocated([Chunk(0, 4096, false)], 0, Max(size + HEADER, MINSIZE)) ==
      if size < 12 then [Chunk(0, 16, true), Chunk(16, 4080, false)]
      else [Chunk(0, size + 4, true), Chunk(size + 4, 4092 - size, false)]
    ensures Word(Chunk(0, size + 4, true)) == 0x8000_0000 + size + 4
  {
  }

  lemma {:induction false} TakenMore(brk: nat, i: nat, n: nat)
    requires i <= n
    ensures Taken(brk, i) <= Taken(brk, n)
  {
  }

  /** `n` more pages fit the address range, and there are frames for them: those of pages must
      lie below 2 GiB, and the lowest free frames, of which `low` lie there, are taken first. */
  predicate CanGrow(brk: nat, n: nat, low: nat, high: nat)
    requires n > 0
  {
    brk + PAGE * n <= LIMIT && Taken(brk, n - 1) < low && Taken(brk, n) <= low + high
  }

  /** Frames below 2 GiB that are left when `k` frames are taken. */
  function LowLeft(low: nat, k: nat): nat {
    if k <= low then low - k else 0
  }

  class Heap {
    const mem: array<byte>
    var brk: nat
    /** Free frames whose address, as a signed number, is not negative, and the others. */
    var low: nat
    var high: nat
    ghost var chunks: seq<Chunk>

    /** The memory up to the break is tiled by the chunks that its headers describe. */
    ghost predicate Valid()
      reads this, mem
    {
      mem.Length == LIMIT && brk <= LIMIT && brk % PAGE == 0 && Describes(mem[..], chunks, brk)
    }

    function SizeAt(p: nat): nat
      requires p + HEADER <= mem.Length
      reads mem
    {
      LoadDword(mem[..], p) % USED
    }

    function UsedAt(p: nat): bool
      requires p + HEADER <= mem.Length
      reads mem
    {
      LoadDword(mem[..], p) >= USED
    }

    /** An unused stretch of memory, and the number of free page frames. */
    constructor (mem: array<byte>, low: nat, high: nat)
      ensures this.mem == mem && this.low == low && this.high == high && brk == 0
    {
      this.mem, this.low, this.high, brk, chunks := mem, low, high, 0, [];
    }

    /** vmm_acquire_page_frame_4k: the lowest free frame is taken; whether there was one, and
        whether its address reads as negative. */
    method Acquire() returns (ok: bool, negative: bool)
      modifies `low, `high
      ensures ok <==> old(low) + old(high) > 0
      ensures ok ==> (negative <==> old(low) == 0) && low + high == old(low) + old(high) - 1
      ensures low == LowLeft(old(low), 1) && (!ok ==> high == old(high))
    {
      ok, negative := true, false;
      if low > 0 {
        low := low - 1;
      } else if high > 0 {
        high, negative := high - 1, true;
      } else {
        ok := false;
      }
    }

    /** vmm_add_page_to_pd for the page at the break: a page table is made if there is none. */
    method AddPage() returns (ok: bool)
      modifies `low, `high
      ensures ok <==> brk % SLOT != 0 || old(low) + old(high) > 0
      ensures ok ==>
        var k := if brk % SLOT == 0 then 1 else 0;
        low + high == old(low) + old(high) - k && low == LowLeft(old(low), k)
    {
      ok := true;
      if brk % SLOT == 0 {
        var one, _ := Acquire();
        ok := one;
      }
    }

    /** ksbrk_page: `n` more pages as one free chunk. A result of false stands for the error
        return if the address range runs out, and for the panic if the frames do. */
    method Grow(n: nat) returns (ok: bool)
      requires mem.Length == LIMIT && brk <= LIMIT && brk % PAGE == 0 && n > 0 && PAGE * n < USED
      modifies `brk, `low, `high, mem
      ensures ok <==> CanGrow(old(brk), n, old(low), old(high))
      ensures ok ==>
        && brk == old(brk) + PAGE * n && low == LowLeft(old(low), Taken(old(brk), n))
        && low + high == old(low) + old(high) - Taken(old(brk), n)
      ensures ok ==> mem[..] == Patch(old(mem[..]), old(brk), DwordBytes(PAGE * n))
      ensures old(brk) + PAGE * n > LIMIT ==> brk == old(brk) && low == old(low) && high == old(high)
    {
      hide Taken, DwordBytes;
      if brk + PAGE * n > LIMIT {
        return false;
      }
      var chunk := brk;
      var i := 0;
      TakenStep(chunk, 0);
      while i < n
        invariant 0 <= i <= n && brk == old(brk) + PAGE * i && mem[..] == old(mem[..])
        invariant low == LowLeft(old(low), Taken(chunk, i)) && low + high == old(low) + old(high) - Taken(chunk, i)
        invariant i > 0 ==> Taken(chunk, i - 1) < old(low)
      {
        TakenStep(chunk, i);
        TakenMore(chunk, i, n - 1);
        TakenMore(chunk, i + 1, n);
        var one, negative := Acquire();
        if !one || negative {
          return false;
        }
        var table := AddPage();
        if !table {
          return false;
        }
        brk := brk + PAGE;
        i := i + 1;
      }
      StoreDword(mem, chunk, PAGE * n);
      ok := true;
    }

    /** initialize_kernel_heap: one free chunk of a page, which takes a frame and a page table. */
    method Initialize() returns (ok: bool)
      requires mem.Length == LIMIT && brk == 0
      modifies this, mem
      ensures ok <==> old(low) > 0 && old(low) + old(high) >= 2
      ensures ok ==>
        Valid() && chunks == [Chunk(0, PAGE, false)] && brk == PAGE && low + high == old(low) + old(high) - 2
    {
      hide DwordBytes, LoadDword;
      TakenStep(0, 0);
      ok := Grow(1);
      if ok {
        HeaderBack(old(mem[..]), 0, PAGE);
        chunks := [Chunk(0, PAGE, false)];
      }
    }

    /** What the header of a chunk says. */
    lemma HeaderOf(i: nat)
      requires Valid() && i < |chunks|
      ensures chunks[i].End() <= brk && chunks[i].addr + HEADER <= mem.Length
      ensures SizeAt(chunks[i].addr) == chunks[i].size && UsedAt(chunks[i].addr) == chunks[i].used
      ensures chunks[i].End() == brk <==> i == |chunks| - 1
      ensures i < |chunks| - 1 ==> chunks[i].End() == chunks[i + 1].addr
    {
      hide LoadDword;
      TilesWithin(chunks, brk, i);
      assert Headed(mem[..], chunks[i]);
    }

    /** The heap grows by one free chunk that is large enough. */
    method Extend(need: nat) returns (halted: bool)
      requires Valid() && MINSIZE <= need && need + PAGE < USED
      modifies this, mem
      ensures halted <==> !CanGrow(old(brk), need / PAGE + 1, old(low), old(high))
      ensures !halted ==>
        && Valid() && LiveKept(old(mem[..]), old(chunks), mem[..], chunks, -1)
        && chunks == old(chunks) + [Chunk(old(brk), PAGE * (need / PAGE + 1), false)]
        && brk == old(brk) + PAGE * (need / PAGE + 1)
        && low + high == old(low) + old(high) - Taken(old(brk), need / PAGE + 1)
        && PAGE * (need / PAGE + 1) >= need
    {
      hide LoadDword, DwordBytes, Taken, Tables, Describes, LiveKept;
      PagesEnough(need);
      DescribesGrownIf(mem[..], chunks, brk, PAGE * (need / PAGE + 1));
      ghost var p := brk;
      WholePages(brk, need / PAGE + 1);
      var ok := Grow(need / PAGE + 1);
      halted := !ok;
      if ok {
        chunks := chunks + [Chunk(p, PAGE * (need / PAGE + 1), false)];
      }
    }

    /** Looks for the first chunk that fits, and grows the heap if there is none. */
    method FindChunk(need: nat) returns (halted: bool, p: nat, ghost i: nat)
      requires Valid() && MINSIZE <= need && need + PAGE < USED
      modifies this, mem
      ensures i == FirstFit(old(chunks), need)
      ensures halted <==> i == old(|chunks|) && !CanGrow(old(brk), need / PAGE + 1, old(low), old(high))
      ensures !halted ==> Valid() && i < |chunks| && Fits(chunks[i], need) && p == chunks[i].addr
      ensures !halted ==> LiveKept(old(mem[..]), old(chunks), mem[..], chunks, -1)
      ensures !halted && i < old(|chunks|) ==>
        chunks == old(chunks) && brk == old(brk) && mem[..] == old(mem[..]) && low == old(low) && high == old(high)
      ensures !halted && i == old(|chunks|) ==>
        && chunks == old(chunks) + [Chunk(old(brk), PAGE * (need / PAGE + 1), false)]
        && brk == old(brk) + PAGE * (need / PAGE + 1)
        && low + high == old(low) + old(high) - Taken(old(brk), need / PAGE + 1)
    {
      hide CanGrow, Taken, LoadDword, DwordBytes, FirstFit;
      halted, p, i := false, 0, 0;
      HeaderOf(0);
      while UsedAt(p) || SizeAt(p) < need
        invariant i < |chunks| && p == chunks[i].addr && p + HEADER <= mem.Length
        invariant Valid() && chunks == old(chunks) && brk == old(brk) && mem[..] == old(mem[..]) && low == old(low)
          && high == old(high)
        invariant UsedAt(p) == chunks[i].used && SizeAt(p) == chunks[i].size
        invariant forall j :: 0 <= j < i ==> !Fits(chunks[j], need)
        decreases |chunks| - i
      {
        HeaderOf(i);
        p := p + SizeAt(p);
        if p == brk {
          NoFit(chunks, need);
          halted := Extend(need);
          i := i + 1;
          return;
        }
        i := i + 1;
        HeaderOf(i);
      }
      IsFirst(chunks, need, i);
      LiveSame(mem[..], chunks);
    }

    /** kmalloc: `halted` stands for the panic when the kernel is out of memory. */
    method Kmalloc(size: nat) returns (halted: bool, ptr: nat)
      requires Valid() && size + HEADER + PAGE < USED
      modifies this, mem
      ensures size == 0 ==> !halted && ptr == 0 && chunks == old(chunks) && mem[..] == old(mem[..])
      ensures var need := Max(size + HEADER, MINSIZE);
        var i := FirstFit(old(chunks), need);
        var n := need / PAGE + 1;
        && (halted <==> size > 0 && i == old(|chunks|) && !CanGrow(old(brk), n, old(low), old(high)))
        && (!halted && size > 0 ==>
              var grown := if i < old(|chunks|) then old(chunks) else old(chunks) + [Chunk(old(brk), PAGE * n, false)];
              && Fits(grown[i], need) && chunks == Allocated(grown, i, need) && ptr == grown[i].addr + HEADER
              && brk == (if i < old(|chunks|) then old(brk) else old(brk) + PAGE * n))
      ensures !halted ==> Valid() && LiveKept(old(mem[..]), old(chunks), mem[..], chunks, -1)
    {
      hide LoadDword, DwordBytes, FirstFit, Describes, LiveKept, Allocated;
      halted, ptr := false, 0;
      LiveSame(mem[..], chunks);
      if size == 0 {
        return;
      }
      var need := size + HEADER;
      if need < MINSIZE {
        need := MINSIZE;
      }
      var p;
      ghost var i;
      halted, p, i := FindChunk(need);
      if halted {
        return;
      }
      ghost var m1, cs1 := mem[..], chunks;
      DescribesAllocated(m1, cs1, brk, i, need);
      SplitChunk(p, need, i);
      LiveTrans(old(mem[..]), old(chunks), m1, cs1, mem[..], chunks);
      ptr := p + HEADER;
    }

    /** Marks a chunk as used, and cuts off what is not needed. */
    method SplitChunk(p: nat, need: nat, ghost i: nat)
      requires Valid() && MINSIZE <= need && i < |chunks| && Fits(chunks[i], need) && p == chunks[i].addr
      modifies `chunks, mem
      ensures forall k :: 0 <= k < |Cut(old(chunks[i]), need)| ==>
        Cut(old(chunks[i]), need)[k].addr + HEADER <= mem.Length
      ensures mem[..] == WithHeaders(old(mem[..]), Cut(old(chunks[i]), need))
        && chunks == Allocated(old(chunks), i, need)
    {
      hide LoadDword, DwordBytes, Allocated, Cut, WithHeaders, Describes, Patch;
      HeaderOf(i);
      ghost var c := chunks[i];
      Ends(i);
      CutFits(c, need, mem.Length);
      CutWords(mem[..], c, need);
      var size := SizeAt(p);
      if size - need < MINSIZE {
        StoreDword(mem, p, size + USED);
      } else {
        StoreDword(mem, p, need + USED);
        StoreDword(mem, p + need, size - need);
      }
      chunks := Allocated(chunks, i, need);
    }

    lemma Ends(i: nat)
      requires Valid() && i < |chunks|
      ensures chunks[i].End() <= mem.Length
    {
      hide LoadDword;
      TilesWithin(chunks, brk, i);
    }

    /** kfree of the chunk number `i`, or of nothing. */
    method Kfree(ptr: nat, ghost i: nat)
      requires Valid() && (ptr == 0 || (i < |chunks| && chunks[i].used && ptr == chunks[i].addr + HEADER))
      modifies `chunks, mem
      ensures ptr == 0 ==> chunks == old(chunks) && mem[..] == old(mem[..])
      ensures ptr != 0 ==> chunks == Freed(old(chunks), i)
      ensures Valid() && LiveKept(old(mem[..]), old(chunks), mem[..], chunks, if ptr == 0 then -1 else ptr - HEADER)
    {
      hide LoadDword, DwordBytes, Freed, Describes, LiveKept, Tiles;
      LiveSame(mem[..], chunks);
      if ptr == 0 {
        return;
      }
      HeaderOf(i);
      DescribesFreed(mem[..], chunks, brk, i);
      FreedAt(chunks, i);
      var p := ptr - HEADER;
      var size := SizeAt(p);
      Merge(p, size, i);
      chunks := Freed(chunks, i);
    }

    /** Writes the header of a released chunk, and adds the free chunks behind it. */
    method Merge(p: nat, size0: nat, ghost i: nat)
      requires Valid() && i < |chunks| && p == chunks[i].addr && size0 == chunks[i].size
      modifies mem
      ensures p + HEADER <= mem.Length
      ensures mem[..] == Patch(old(mem[..]), p, DwordBytes(Total(chunks[i..NextUsed(chunks, i + 1)])))
    {
      hide LoadDword, DwordBytes, Total, NextUsed, Tiles;
      ghost var m, cs := mem[..], chunks;
      HeaderOf(i);
      var size := size0;
      StoreDword(mem, p, size);
      ghost var j := i + 1;
      Behind(m, cs, brk, i, j, size);
      while p + size < brk && !UsedAt(p + size)
        invariant i < j <= |cs| && size == Total(cs[i..j]) && p + size <= brk && (p + size == brk <==> j == |cs|)
        invariant mem[..] == Patch(m, p, DwordBytes(size))
        invariant j < |cs| ==> p + size == cs[j].addr && cs[j].addr + HEADER <= mem.Length
        invariant j < |cs| ==> UsedAt(cs[j].addr) == cs[j].used && SizeAt(cs[j].addr) == cs[j].size
        invariant forall k :: i + 1 <= k < j ==> !cs[k].used
        decreases brk - size
      {
        Behind(m, cs, brk, i, j + 1, size + cs[j].size);
        size := size + SizeAt(p + size);
        StoreDword(mem, p, size);
        j := j + 1;
        assert mem[..] == Patch(m, p, DwordBytes(size));
      }
      NextUsedIs(cs, i + 1, j);
    }
  }

  /** The chunks from `i` to `j` - 1 lie side by side; the header behind them is not touched
      by writing that of `i`. */
  lemma {:induction false} Behind(m: seq<byte>, cs: seq<Chunk>, end: nat, i: nat, j: nat, size: nat)
    requires Describes(m, cs, end) && i < j <= |cs| && cs[i].addr + HEADER <= |m|
    requires size == if j == i + 1 then cs[i].size else Total(cs[i..j - 1]) + cs[j - 1].size
    ensures size == Total(cs[i..j]) && cs[i].addr + size <= end && (cs[i].addr + size == end <==> j == |cs|)
    ensures j < |cs| ==> cs[j].size >= MINSIZE && cs[i].addr + size == cs[j].addr && cs[j].addr + HEADER <= |m|
    ensures j < |cs| ==>
      var v := LoadDword(Patch(m, cs[i].addr, DwordBytes(size)), cs[j].addr);
      v % USED == cs[j].size && (v >= USED <==> cs[j].used)
  {
    hide LoadDword, DwordBytes, Total;
    TotalSpan(cs, end, i, j);
    if j > i + 1 {
      TotalSpan(cs, end, i, j - 1);
    }
    TilesWithin(cs, end, j - 1);
    if j < |cs| {
      assert cs[j - 1].End() == cs[j].addr;
      TilesOrder(cs, end, i, j);
      TilesWithin(cs, end, j);
      assert Headed(m, cs[j]);
      HeaderKept(m, cs[i].addr, size, cs[j]);
    }
  }

  lemma {:induction false} NextUsedIs(cs: seq<Chunk>, i: nat, j: nat)
    requires i <= j <= |cs| && (j < |cs| ==> cs[j].used) && forall k :: i <= k < j ==> !cs[k].used
    ensures NextUsed(cs, i) == j
  {
  }

  lemma WithTwo(m: seq<byte>, c: seq<Chunk>)
    requires 1 <= |c| <= 2 && forall i :: 0 <= i < |c| ==> c[i].addr + HEADER <= |m|
    ensures |c| == 1 ==> WithHeaders(m, c) == Patch(m, c[0].addr, DwordBytes(Word(c[0])))
    ensures |c| == 2 ==>
      WithHeaders(m, c) == Patch(Patch(m, c[0].addr, DwordBytes(Word(c[0]))), c[1].addr, DwordBytes(Word(c[1])))
  {
    hide DwordBytes;
    assert [c[0]][..0] == [];
    assert WithHeaders(m, [c[0]]) == Patch(m, c[0].addr, DwordBytes(Word(c[0])));
    if |c| == 2 {
      assert c[..1] == [c[0]];
    } else {
      assert c == [c[0]];
    }
  }

  /** The headers of the cut, as words in memory. */
  lemma CutWords(m: seq<byte>, c: Chunk, need: nat)
    requires Fits(c, need) && need >= MINSIZE && c.End() <= |m|
    ensures forall k :: 0 <= k < |Cut(c, need)| ==> Cut(c, need)[k].addr + HEADER <= |m|
    ensures c.addr + HEADER <= |m| && (c.size - need >= MINSIZE ==> c.addr + need + HEADER <= |m|)
    ensures WithHeaders(m, Cut(c, need)) ==
      if c.size - need < MINSIZE then Patch(m, c.addr, DwordBytes(c.size + USED))
      else Patch(Patch(m, c.addr, DwordBytes(need + USED)), c.addr + need, DwordBytes(c.size - need))
  {
    hide DwordBytes, WithHeaders, Patch;
    CutFits(c, need, |m|);
    WithTwo(m, Cut(c, need));
  }

  lemma {:induction false} NoFit(cs: seq<Chunk>, need: nat)
    ensures (forall j :: 0 <= j < |cs| ==> !Fits(cs[j], need)) ==> FirstFit(cs, need) == |cs|
  {
  }

  lemma IsFirst(cs: seq<Chunk>, need: nat, i: nat)
    requires i < |cs| && Fits(cs[i], need) && forall j :: 0 <= j < i ==> !Fits(cs[j], need)
    ensures FirstFit(cs, need) == i
  {
  }

  lemma PagesEnough(need: nat)
    ensures PAGE * (need / PAGE + 1) > need
    ensures PAGE * (need / PAGE + 1) <= need + PAGE
  {
  }

  lemma WholePages(brk: nat, n: nat)
    requires brk % PAGE == 0
    ensures (brk + PAGE * n) % PAGE == 0
  {
    assert brk + PAGE * n == PAGE * (brk / PAGE + n);
  }

  lemma DescribesGrownIf(m: seq<byte>, cs: seq<Chunk>, end: nat, n: nat)
    requires Describes(m, cs, end) && MINSIZE <= n < USED
    ensures end + n <= |m| ==>
      && Describes(Patch(m, end, DwordBytes(n)), cs + [Chunk(end, n, false)], end + n)
      && LiveKept(m, cs, Patch(m, end, DwordBytes(n)), cs + [Chunk(end, n, false)], -1)
  {
    if end + n <= |m| {
      DescribesGrown(m, cs, end, n);
    }
  }

  lemma LiveSame(m: seq<byte>, cs: seq<Chunk>)
    ensures LiveKept(m, cs, m, cs, -1)
  {
  }

  lemma {:induction false} LiveTrans(m0: seq<byte>, cs0: seq<Chunk>, m1: seq<byte>, cs1: seq<Chunk>, m2: seq<byte>,
      cs2: seq<Chunk>)
    requires LiveKept(m0, cs0, m1, cs1, -1) && LiveKept(m1, cs1, m2, cs2, -1)
    ensures LiveKept(m0, cs0, m2, cs2, -1)
  {
    forall i | 0 <= i < |cs0| && cs0[i].used
      ensures cs0[i] in cs2 && forall k :: cs0[i].addr + HEADER <= k < cs0[i].End() && k < |m0| ==> m2[k] == m0[k]
    {
      var j :| 0 <= j < |cs1| && cs1[j] == cs0[i];
    }
  }
}
