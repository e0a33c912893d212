/** Whole runs of the memory system: processes come and go, map, share and unmap memory and
    move their breaks, and the kernel takes and gives back frames of its own. */
module MemoryRun {
  import opened Bitmaps
  import opened FrameLog
  import opened Vmm

  datatype Op =
    | NewOp
    | MmapOp(s: nat, from: nat, n: nat)
    | ShareOp(s: nat, from: nat, frames: seq<nat>)
    | UnmapOp(s: nat, v: nat, n: nat)
    | SbrkOp(s: nat, count: int)
    | DestroyOp(s: nat)
    | TakeOp
    | GiveOp(frame: nat)
  {
    /** Memory is unmapped in the user range only. */
    predicate Legal() {
      this.UnmapOp? ==> USER_FIRST <= v && v + n <= USER_END
    }
  }

  // ----- frames taken and given back by the kernel -----

  /** Frames of the kernel: in use, held by no place, each once. */
  ghost predicate Mine(m: Memory, frames: seq<nat>)
    requires Shapes(m.spaces)
    reads m, m.frames.data
  {
    && (forall i :: 0 <= i < |frames| ==> Spare(m.spaces, m.Used(), frames[i]))
    && forall i, j :: 0 <= i < j < |frames| ==> frames[i] != frames[j]
  }

  /** From bitmap `u0` exactly these frames were taken. */
  ghost predicate Taken(u0: seq<bool>, u: seq<bool>, frames: seq<nat>) {
    && |u| == |u0| && (forall i :: 0 <= i < |frames| ==> frames[i] < |u0| && !u0[frames[i]])
    && forall f :: 0 <= f < |u| ==> (u[f] <==> u0[f] || f in frames)
  }

  /** `n` calls of vmm_acquire_page_frame_4k. */
  method TakeFrames(m: Memory, n: nat) returns (halted: bool, frames: seq<nat>)
    requires m.Sound()
    modifies m`log, m.frames.data
    ensures old(m.log) <= m.log
    ensures !halted ==> m.Sound() && |frames| == n && Mine(m, frames) && Taken(old(m.Used()), m.Used(), frames)
  {
    hide Memory.Logged, Held, Good, Shapes, Shape;
    halted, frames := false, [];
    SoundGood(m);
    while |frames| < n
      invariant |frames| <= n && m.Sound() && Shapes(m.spaces) && Mine(m, frames)
      invariant Taken(old(m.Used()), m.Used(), frames) && old(m.log) <= m.log
      decreases n - |frames|
    {
      ghost var u := m.Used();
      SoundGood(m);
      var p := m.Acquire();
      if p < 0 {
        return true, [];
      }
      AcquiredSpare(m.spaces, u, m.Used(), p);
      frames := frames + [p];
    }
  }

  lemma SoundGood(m: Memory)
    requires m.Sound()
    ensures m.Logged() && Good(m.spaces, m.Used()) && Shapes(m.spaces)
  {
  }

  /** A frame that is held by nobody is given back. */
  lemma {:induction false} SpareGiven(spaces: seq<Space>, used: seq<bool>, f: nat)
    requires Good(spaces, used) && Spare(spaces, used, f)
    ensures Good(spaces, used[f := false]) && SparesKept(spaces, used, spaces, used[f := false], [f])
  {
  }

  /** The frames are given back, one by one. */
  method GiveFrames(m: Memory, frames: seq<nat>)
    requires m.Sound() && Mine(m, frames)
    modifies m`log, m.frames.data
    ensures m.Sound() && old(m.log) <= m.log && |m.Used()| == |old(m.Used())|
    ensures forall f :: 0 <= f < |m.Used()| ==> (m.Used()[f] <==> old(m.Used())[f] && f !in frames)
  {
    hide Memory.Logged, Held, Good, Shapes, Shape;
    SoundGood(m);
    var i := 0;
    while i < |frames|
      invariant 0 <= i <= |frames| && m.Sound() && Shapes(m.spaces) && Mine(m, frames[i..]) && old(m.log) <= m.log
      invariant |m.Used()| == |old(m.Used())|
      invariant forall f :: 0 <= f < |m.Used()| ==> (m.Used()[f] <==> old(m.Used())[f] && f !in frames[..i])
    {
      SoundGood(m);
      assert frames[i..][0] == frames[i] && frames[i..][1..] == frames[i + 1..];
      SpareGiven(m.spaces, m.Used(), frames[i]);
      RestMine(m, frames[i..]);
      m.Release(frames[i]);
      assert frames[..i + 1] == frames[..i] + [frames[i]];
      i := i + 1;
    }
    assert frames[..i] == frames;
  }

  lemma RestMine(m: Memory, frames: seq<nat>)
    requires Shapes(m.spaces) && Mine(m, frames) && |frames| > 0
    requires SparesKept(m.spaces, m.Used(), m.spaces, m.Used()[frames[0] := false], [frames[0]])
    ensures forall i :: 1 <= i < |frames| ==>
      frames[i] != frames[0] && Spare(m.spaces, m.Used()[frames[0] := false], frames[i])
  {
    hide Spare;
  }

  /** syscall_mmap of memory that belongs to no file: frames are taken and mapped as owned. If
      there is no room for them, they are given back and nothing has changed. */
  method Mmap(m: Memory, s: nat, from: nat, n: nat) returns (halted: bool, found: bool, v: nat)
    requires m.Sound() && s < |m.spaces| && Mirror(m.spaces[s])
    modifies m`spaces, m`log, m.frames.data
    ensures old(m.log) <= m.log
    ensures !halted ==> m.Sound() && s < |m.spaces| && Mirror(m.spaces[s])
    ensures !halted && !found ==> m.spaces == old(m.spaces) && m.Used() == old(m.Used())
    ensures found ==> from <= v && FreeRun(old(m.spaces[s].vmap), v, n)
    ensures !halted && found ==>
      && MappingOnly(old(m.spaces), m.spaces, s, v, v + n)
      && m.spaces[s].brkBegin == old(m.spaces[s].brkBegin) && m.spaces[s].brkNext == old(m.spaces[s].brkNext)
      && (forall w :: v <= w < v + n ==> w < PAGES && Entry(m.spaces[s], w).Page? && Entry(m.spaces[s], w).owned)
      && SparesKept(old(m.spaces), old(m.Used()), m.spaces, m.Used(), [])
      && (Tidy(old(m.spaces[s])) ==> Tidy(m.spaces[s]))
      && Grew(old(m.spaces), old(m.Used()), m.spaces, m.Used())
  {
    hide Made, Tidy, Memory.Logged, Held, Good, Shapes, Shape, Entry, Mirror, Fill;
    ghost var s0, u0 := m.spaces, m.Used();
    SoundGood(m);
    found, v := false, 0;
    var frames;
    halted, frames := TakeFrames(m, n);
    if halted {
      return;
    }
    SoundGood(m);
    ghost var u1 := m.Used();
    halted, found, v := m.MapMemory(s, from, frames, true);
    if halted {
      return;
    }
    SoundGood(m);
    if found {
      SparesTaken(s0, u0, u1, frames, m.spaces, m.Used());
      RunIsUser(s0[s], v, n);
      RunEnds(v, n);
      if Tidy(s0[s]) {
        MadeTidy(s0, u1, m.spaces, s, v, v + n);
      }
      GrewIs(s0, u0, u1, m.spaces, m.Used(), s, v, frames);
    } else {
      GiveFrames(m, frames);
      assert m.Used() == u0;
    }
  }

  lemma RunEnds(v: nat, n: nat)
    requires n > 0 && forall w :: v <= w < v + n ==> InUser(w)
    ensures USER_FIRST <= v && v + n <= USER_END
  {
    assert InUser(v) && InUser(v + n - 1);
  }

  /** Frames are newly in use only because something holds them now, and what was held still is. */
  ghost predicate Grew(s0: seq<Space>, u0: seq<bool>, s1: seq<Space>, u1: seq<bool>) {
    && Shapes(s0) && Shapes(s1) && |u1| == |u0| && (forall f :: 0 <= f < |u0| && u0[f] ==> u1[f])
    && (forall f: nat :: f < |u0| && u1[f] && !u0[f] ==> Kept(s1, f))
    && (forall p :: Held(s0, p) >= 0 ==> Held(s1, p) == Held(s0, p))
    && forall p :: Held(s1, p) == Held(s0, p) || (0 <= Held(s1, p) < |u0| && !u0[Held(s1, p)])
  }

  /** Something holds frame `f`. */
  ghost predicate Kept(spaces: seq<Space>, f: nat)
    requires Shapes(spaces)
  {
    exists p :: Held(spaces, p) == f
  }

  lemma {:induction false} GrewIs(s0: seq<Space>, u0: seq<bool>, u1: seq<bool>, s2: seq<Space>, u2: seq<bool>, s: nat,
      v: nat, frames: seq<nat>)
    requires Shapes(s0) && s < |s0| && Taken(u0, u1, frames) && MappingOnly(s0, s2, s, v, v + |frames|)
      && v + |frames| <= PAGES
    requires forall w :: v <= w < v + |frames| ==> Entry(s0[s], w).Free? && Entry(s2[s], w) == Page(frames[w - v], true)
    requires TablesTaken(s0, u1, s2, u2) && Made(s0, u1, s2, s, v, v + |frames|, true)
    ensures Grew(s0, u0, s2, u2)
  {
    hide Entry;
    forall f: nat | f < |u0| && u2[f] && !u0[f] ensures Kept(s2, f) {
      if u1[f] {
        var k :| 0 <= k < |frames| && frames[k] == f;
        assert Entry(s2[s], v + k) == Page(frames[k], true);
        assert Held(s2, Leaf(s, v + k)) == f;
      } else {
        assert TableAt(s2, f);
      }
    }
    forall p | Held(s0, p) >= 0 ensures Held(s2, p) == Held(s0, p) {
    }
    forall p ensures Held(s2, p) == Held(s0, p) || (0 <= Held(s2, p) < |u0| && !u0[Held(s2, p)]) {
      if p.s == s {
        match p
        case Table(_, j) =>
          if j < PER_TABLE {
            assert s2[s].pd[j] == s0[s].pd[j] || MadeAt(s0, u1, s2, s, j, true);
          }
        case Leaf(_, w) =>
          if v <= w < v + |frames| {
            assert Entry(s2[s], w) == Page(frames[w - v], true);
          }
      }
    }
  }

  /** Frames that were free before are none that were held by nobody. */
  lemma {:induction false} SparesTaken(s0: seq<Space>, u0: seq<bool>, u1: seq<bool>, frames: seq<nat>, s2: seq<Space>,
      u2: seq<bool>)
    requires Taken(u0, u1, frames) && SparesKept(s0, u1, s2, u2, frames)
    ensures SparesKept(s0, u0, s2, u2, [])
  {
    forall f: nat | Spare(s0, u0, f) ensures Spare(s2, u2, f) {
      assert Spare(s0, u1, f) && f !in frames;
    }
  }

  // ----- what comes back -----

  /** Mapping frames as owned where the directory has no tables yet, and unmapping them again,
      leaves directory and bitmap of frames as they were, but for the frames themselves, which
      are free then: the page tables made for them have gone too. */
  lemma {:induction false} UnmapRestores(s0: seq<Space>, u0: seq<bool>, s1: seq<Space>, u1: seq<bool>, s2: seq<Space>,
      u2: seq<bool>, s: nat, v: nat, parr: seq<nat>)
    requires s < |s0| && v + |parr| <= PAGES && Good(s0, u0) && MappingOnly(s0, s1, s, v, v + |parr|)
    requires forall w :: v <= w < v + |parr| ==>
      s0[s].pd[w / PER_TABLE].Free? && Entry(s1[s], w) == Page(parr[w - v], true)
    requires TablesTaken(s0, u0, s1, u1) && Made(s0, u0, s1, s, v, v + |parr|, true)
    requires MappingOnly(s1, s2, s, v, v + |parr|) && Gives(s1, u1, s2, u2) && Dropped(s1, s2, s, v, v + |parr|)
    requires forall w :: v <= w < v + |parr| ==> Entry(s2[s], w).Free? && Busy(s2[s], w / PER_TABLE)
    ensures s2[s].pd == s0[s].pd && |u2| == |u0|
    ensures forall f: nat :: f < |u0| ==> (u2[f] <==> u0[f] && f !in parr)
  {
    hide Entry, Good, Gives, TablesTaken, Busy, Made, Dropped, Own, Held, At;
    TablesGone(s0, u0, s1, s2, s, v, parr);
    SizesSame(s0, u0, s1, u1, s2, u2);
    forall f: nat | f < |u0| ensures u2[f] <==> u0[f] && f !in parr {
      if f in parr {
        FrameBack(s1, u1, s2, u2, s, v, parr, f);
      } else if u0[f] {
        FrameStays(s0, u0, s1, u1, s2, u2, s, v, parr, f);
      } else {
        TableBack(s0, u0, s1, u1, s2, u2, s, v, parr, f);
      }
    }
  }

  lemma SizesSame(s0: seq<Space>, u0: seq<bool>, s1: seq<Space>, u1: seq<bool>, s2: seq<Space>, u2: seq<bool>)
    requires TablesTaken(s0, u0, s1, u1) && Gives(s1, u1, s2, u2)
    ensures |u2| == |u1| == |u0|
  {
  }

  /** The directory is as it was. */
  lemma {:induction false} TablesGone(s0: seq<Space>, u0: seq<bool>, s1: seq<Space>, s2: seq<Space>, s: nat, v: nat,
      parr: seq<nat>)
    requires s < |s0| && v + |parr| <= PAGES && MappingOnly(s0, s1, s, v, v + |parr|)
    requires forall w :: v <= w < v + |parr| ==> s0[s].pd[w / PER_TABLE].Free?
    requires Made(s0, u0, s1, s, v, v + |parr|, true)
    requires MappingOnly(s1, s2, s, v, v + |parr|) && Dropped(s1, s2, s, v, v + |parr|)
    requires forall w :: v <= w < v + |parr| ==> Entry(s2[s], w).Free? && Busy(s2[s], w / PER_TABLE)
    ensures s2[s].pd == s0[s].pd
  {
    forall i: nat | i < PER_TABLE ensures s2[s].pd[i] == s0[s].pd[i] {
      if Touches(i, v, v + |parr|) {
        var w := if v <= PER_TABLE * i then PER_TABLE * i else v;
        TouchedBy(i, v, v + |parr|, w);
        assert s0[s].pd[w / PER_TABLE].Free? && Busy(s2[s], w / PER_TABLE);
        if s2[s].pd[i].Page? {
          assert MadeAt(s0, u0, s1, s, i, true);
          var j :| 0 <= j < PER_TABLE && s2[s].tables[i][j].Page?;
          PageThere(s2[s], i, j);
          PageThere(s0[s], i, j);
        }
      }
    }
  }

  lemma TouchedBy(i: nat, lo: nat, hi: nat, w: nat)
    requires Touches(i, lo, hi) && w == if lo <= PER_TABLE * i then PER_TABLE * i else lo
    ensures lo <= w < hi && w / PER_TABLE == i
  {
  }

  lemma PageThere(sp: Space, i: nat, j: nat)
    requires Shape(sp) && i < PER_TABLE && j < PER_TABLE
    ensures PER_TABLE * i + j < PAGES
    ensures Entry(sp, PER_TABLE * i + j) == if sp.pd[i].Free? then Free else sp.tables[i][j]
  {
    Index(PER_TABLE * i + j);
    assert (PER_TABLE * i + j) / PER_TABLE == i && (PER_TABLE * i + j) % PER_TABLE == j;
  }

  /** A mapped frame is released. */
  lemma {:induction false} FrameBack(s1: seq<Space>, u1: seq<bool>, s2: seq<Space>, u2: seq<bool>, s: nat, v: nat,
      parr: seq<nat>, f: nat)
    requires s < |s1| == |s2| && v + |parr| <= PAGES && Gives(s1, u1, s2, u2) && f in parr && f < |u1|
    requires forall w :: v <= w < v + |parr| ==> Entry(s1[s], w) == Page(parr[w - v], true) && Entry(s2[s], w).Free?
    ensures !u2[f]
  {
    hide Entry;
    var k :| 0 <= k < |parr| && parr[k] == f;
    assert Entry(s1[s], v + k) == Page(parr[k], true) && Entry(s2[s], v + k).Free?;
    assert LetGo(s1, s2, Leaf(s, v + k), f);
  }

  /** A frame that was in use before and is none of these stays in use. */
  lemma {:induction false} FrameStays(s0: seq<Space>, u0: seq<bool>, s1: seq<Space>, u1: seq<bool>, s2: seq<Space>,
      u2: seq<bool>, s: nat, v: nat, parr: seq<nat>, f: nat)
    requires s < |s0| && v + |parr| <= PAGES && MappingOnly(s0, s1, s, v, v + |parr|)
    requires forall w :: v <= w < v + |parr| ==> Entry(s1[s], w) == Page(parr[w - v], true)
    requires TablesTaken(s0, u0, s1, u1) && Made(s0, u0, s1, s, v, v + |parr|, true)
    requires MappingOnly(s1, s2, s, v, v + |parr|) && Gives(s1, u1, s2, u2) && Dropped(s1, s2, s, v, v + |parr|)
    requires s2[s].pd == s0[s].pd && f < |u0| && u0[f] && f !in parr
    ensures f < |u2| && u2[f]
  {
    hide Entry;
    forall p ensures !LetGo(s1, s2, p, f) {
      if p.s == s {
        match p
        case Table(_, i) =>
          if i < PER_TABLE {
            assert s1[s].pd[i] == s0[s].pd[i] || MadeAt(s0, u0, s1, s, i, true);
          }
        case Leaf(_, w) =>
          if v <= w < v + |parr| {
            assert Entry(s1[s], w) == Page(parr[w - v], true);
          }
      }
    }
  }

  /** A frame that was taken for a page table is released. */
  lemma {:induction false} TableBack(s0: seq<Space>, u0: seq<bool>, s1: seq<Space>, u1: seq<bool>, s2: seq<Space>,
      u2: seq<bool>, s: nat, v: nat, parr: seq<nat>, f: nat)
    requires s < |s0| && Good(s0, u0) && MappingOnly(s0, s1, s, v, v + |parr|)
    requires TablesTaken(s0, u0, s1, u1) && Made(s0, u0, s1, s, v, v + |parr|, true)
    requires MappingOnly(s1, s2, s, v, v + |parr|) && Gives(s1, u1, s2, u2) && s2[s].pd == s0[s].pd
    requires f < |u0| && !u0[f]
    ensures f < |u2| && !u2[f]
  {
    hide Entry;
    if u1[f] {
      var p: Place :| p.Table? && Held(s1, p) == f;
      assert Held(s0, p) != f;
      assert s1[s].pd[p.i] == s0[s].pd[p.i] || MadeAt(s0, u0, s1, s, p.i, true);
      assert LetGo(s1, s2, p, f);
    }
  }

  /** There are no page tables yet for the pages from `lo` to `hi` - 1. */
  ghost predicate Bare(sp: Space, lo: nat, hi: nat) {
    |sp.pd| == PER_TABLE && forall w :: lo <= w < hi && w / PER_TABLE < PER_TABLE ==> sp.pd[w / PER_TABLE].Free?
  }

  /** vmm_map_memory and vmm_unmap_memory of the same range: bitmap and directory are back. */
  method MapAndUnmap(m: Memory, s: nat, from: nat, parr: seq<nat>) returns (halted: bool, found: bool, v: nat)
    requires m.Sound() && s < |m.spaces| && Mirror(m.spaces[s]) && m.Mappable(parr, 0, true)
    modifies m`spaces, m`log, m.frames.data
    ensures !halted && found ==>
      && m.Sound() && v + |parr| <= PAGES && s < |m.spaces| && m.spaces[s].vmap == old(m.spaces[s].vmap)
      && |m.Used()| == |old(m.Used())|
    ensures !halted && found && Bare(old(m.spaces[s]), v, v + |parr|) ==>
      && m.spaces[s].pd == old(m.spaces[s].pd)
      && forall f: nat :: f < |old(m.Used())| ==> (m.Used()[f] <==> old(m.Used())[f] && f !in parr)
  {
    hide Memory.Logged, Entry, Good, Gives, TablesTaken, Made, Dropped, Busy, Spare, Mirror;
    SoundGood(m);
    ghost var s0, u0 := m.spaces, m.Used();
    halted, found, v := m.MapMemory(s, from, parr, true);
    if halted || !found {
      return;
    }
    SoundGood(m);
    RunIsUser(s0[s], v, |parr|);
    RunEnds(v, |parr|);
    ghost var s1, u1 := m.spaces, m.Used();
    var _ := m.UnmapMemory(s, v, |parr|);
    BitsBack(s0[s].vmap, s1[s].vmap, m.spaces[s].vmap, v, |parr|);
    SizesSame(s0, u0, s1, u1, m.spaces, m.Used());
    if Bare(s0[s], v, v + |parr|) {
      UnmapRestores(s0, u0, s1, u1, m.spaces, m.Used(), s, v, parr);
    }
  }

  lemma BitsBack(m0: seq<bool>, m1: seq<bool>, m2: seq<bool>, v: nat, n: nat)
    requires m1 == Fill(m0, v, v + n, true) && m2 == Fill(m1, v, v + n, false) && FreeRun(m0, v, n)
    ensures m2 == m0
    ensures forall w :: v <= w < v + n ==> w < |m1| && m1[w]
  {
  }

  /** Process `s` holds frame `f`. */
  ghost predicate Holds(spaces: seq<Space>, s: nat, f: nat)
    requires Shapes(spaces)
  {
    exists p: Place :: p.s == s && Held(spaces, p) == f
  }

  /** Destroying the directory of a process whose page tables are all owned releases exactly the
      frames that the process held, and leaves it none. */
  lemma {:induction false} DestroyReleases(s0: seq<Space>, u0: seq<bool>, s2: seq<Space>, u2: seq<bool>, s: nat)
    requires s < |s0| == |s2| && Good(s0, u0) && Gives(s0, u0, s2, u2) && Tidy(s0[s])
    requires forall r :: 0 <= r < |s0| && r != s ==> s2[r] == s0[r]
    requires forall i :: 0 <= i < PER_TABLE ==> s2[s].pd[i] == if TABLE_FIRST <= i < TABLE_END then Free
      else s0[s].pd[i]
    ensures forall f: nat :: !Holds(s2, s, f)
    ensures forall f: nat :: f < |u0| ==> (u2[f] <==> u0[f] && !Holds(s0, s, f))
  {
    hide Gives, Good;
    SameSize(s0, u0, s2, u2);
    DestroyedFree(s0, s2, s);
    forall f: nat | f < |u0| ensures u2[f] <==> u0[f] && !Holds(s0, s, f) {
      DestroyedFrame(s0, u0, s2, u2, s, f);
    }
  }

  lemma SameSize(s0: seq<Space>, u0: seq<bool>, s2: seq<Space>, u2: seq<bool>)
    requires Gives(s0, u0, s2, u2)
    ensures |u2| == |u0| && Shapes(s0) && Shapes(s2)
  {
  }

  lemma {:induction false} DestroyedFree(s0: seq<Space>, s2: seq<Space>, s: nat)
    requires s < |s0| == |s2| && Shapes(s0) && Shapes(s2) && Tidy(s0[s])
    requires forall i :: 0 <= i < PER_TABLE ==> s2[s].pd[i] == if TABLE_FIRST <= i < TABLE_END then Free
      else s0[s].pd[i]
    ensures forall i :: 0 <= i < PER_TABLE ==> s2[s].pd[i].Free?
    ensures forall p: Place :: p.s == s ==> At(s2, p).Free? && Held(s2, p) == -1
  {
    forall p: Place | p.s == s ensures At(s2, p).Free? && Held(s2, p) == -1 {
      if p.Leaf? && p.v < PAGES {
        Index(p.v);
      }
    }
  }

  lemma {:induction false} DestroyedFrame(s0: seq<Space>, u0: seq<bool>, s2: seq<Space>, u2: seq<bool>, s: nat, f: nat)
    requires s < |s0| == |s2| && Good(s0, u0) && Gives(s0, u0, s2, u2) && Tidy(s0[s]) && f < |u0|
    requires forall r :: 0 <= r < |s0| && r != s ==> s2[r] == s0[r]
    requires forall p: Place :: p.s == s ==> At(s2, p).Free? && Held(s2, p) == -1
    ensures f < |u2| && (u2[f] <==> u0[f] && !Holds(s0, s, f))
  {
    hide Entry;
    if u0[f] && !u2[f] {
      var p :| LetGo(s0, s2, p, f);
      assert p.s == s && Held(s0, p) == f;
    }
    if Holds(s0, s, f) {
      var p: Place :| p.s == s && Held(s0, p) == f;
      assert LetGo(s0, s2, p, f);
    }
  }

  // ----- accounts -----

  /** Every frame in use was in use at the start, or was taken by the kernel, or is held; the
      frames in use at the start are neither. */
  ghost predicate Accounted(spaces: seq<Space>, used: seq<bool>, boot: seq<bool>, taken: set<nat>) {
    && Shapes(spaces) && |used| == |boot|
    && forall f: nat :: f < |used| ==> AccountedAt(spaces, used[f], boot[f], taken, f)
  }

  ghost predicate AccountedAt(spaces: seq<Space>, used: bool, boot: bool, taken: set<nat>, f: nat)
    requires Shapes(spaces)
  {
    (used <==> boot || f in taken || Kept(spaces, f)) && (boot ==> f !in taken && !Kept(spaces, f))
  }

  lemma {:induction false} AccountsGrow(s0: seq<Space>, u0: seq<bool>, s1: seq<Space>, u1: seq<bool>, boot: seq<bool>,
      taken: set<nat>)
    requires Accounted(s0, u0, boot, taken) && Grew(s0, u0, s1, u1) && Good(s1, u1)
    ensures Accounted(s1, u1, boot, taken)
  {
    hide Held;
    forall f: nat | f < |u1| ensures AccountedAt(s1, u1[f], boot[f], taken, f) {
      assert AccountedAt(s0, u0[f], boot[f], taken, f);
      if Kept(s0, f) {
        var p :| Held(s0, p) == f;
        assert Held(s1, p) == f;
      }
      if Kept(s1, f) && !Kept(s0, f) {
        var p :| Held(s1, p) == f;
        assert Held(s1, p) == Held(s0, p) || !u0[Held(s1, p)];
      }
    }
  }

  /** Entries of process `s`, whose page tables are all owned, are cleared. */
  lemma {:induction false} AccountsShrink(s0: seq<Space>, u0: seq<bool>, s1: seq<Space>, u1: seq<bool>, boot: seq<bool>,
      taken: set<nat>, s: nat)
    requires Accounted(s0, u0, boot, taken) && Good(s0, u0) && Gives(s0, u0, s1, u1)
    requires s < |s0| == |s1| && Tidy(s0[s]) && forall r :: 0 <= r < |s0| && r != s ==> s1[r] == s0[r]
    requires forall f: nat :: f in taken ==> Spare(s0, u0, f)
    ensures Accounted(s1, u1, boot, taken)
  {
    hide Kept, Gives, Good, Spare, Tidy, AccountedAt;
    SameSize(s0, u0, s1, u1);
    forall f: nat | f < |u1| ensures AccountedAt(s1, u1[f], boot[f], taken, f) {
      Released(s0, u0, s1, u1, s, f);
      SpareNotKept(s0, u0, f);
      assert AccountedAt(s0, u0[f], boot[f], taken, f);
      Balance(s0, u0[f], s1, u1[f], boot[f], taken, f);
    }
  }

  lemma Balance(s0: seq<Space>, u0: bool, s1: seq<Space>, u1: bool, boot: bool, taken: set<nat>, f: nat)
    requires Shapes(s0) && Shapes(s1) && AccountedAt(s0, u0, boot, taken, f)
    requires (f in taken ==> !Kept(s0, f)) && (Kept(s1, f) ==> Kept(s0, f))
    requires (!u0 ==> !u1) && (u0 ==> (!u1 <==> Kept(s0, f) && !Kept(s1, f)))
    ensures AccountedAt(s1, u1, boot, taken, f)
  {
    hide Kept;
  }

  lemma SpareNotKept(spaces: seq<Space>, used: seq<bool>, f: nat)
    requires Shapes(spaces)
    ensures Spare(spaces, used, f) ==> !Kept(spaces, f)
  {
    hide Held;
  }

  /** A frame is released exactly if it was held and no longer is. */
  lemma {:induction false} Released(s0: seq<Space>, u0: seq<bool>, s1: seq<Space>, u1: seq<bool>, s: nat, f: nat)
    requires Good(s0, u0) && Gives(s0, u0, s1, u1) && f < |u0|
    requires s < |s0| == |s1| && Tidy(s0[s]) && forall r :: 0 <= r < |s0| && r != s ==> s1[r] == s0[r]
    ensures Kept(s1, f) ==> Kept(s0, f)
    ensures !u0[f] ==> !u1[f]
    ensures u0[f] ==> (!u1[f] <==> Kept(s0, f) && !Kept(s1, f))
  {
    hide Entry;
    if Kept(s1, f) {
      var p :| Held(s1, p) == f;
      assert Held(s0, p) == f;
    }
    if u0[f] && !u1[f] {
      var p :| LetGo(s0, s1, p, f);
      assert Held(s0, p) == f;
      forall q ensures Held(s1, q) != f {
        assert q != p ==> Held(s0, q) != f;
      }
    }
    if Kept(s0, f) && !Kept(s1, f) {
      var p :| Held(s0, p) == f;
      assert Held(s1, p) != f;
      assert LetGo(s0, s1, p, f);
    }
  }

  // ----- runs -----

  /** What is known of the system besides its memory: the live processes, the frames that the
      kernel has taken, the processes that have mapped shared memory, and whether no memory has
      been shared and no break has gone up so far. */
  datatype World = World(live: set<nat>, taken: set<nat>, shared: set<nat>, plain: bool)

  /** Every frame has at most one holder and the bitmap is right; the bitmaps of live processes
      mirror their mappings; frames of the kernel are held by nobody; processes that did not map
      shared memory own all their page tables; and in a plain run no frame is lost. */
  ghost predicate Running(m: Memory, w: World)
    reads m, m.frames.data
  {
    && m.Sound() && Shapes(m.spaces)
    && (forall s :: s in w.live ==> LiveAt(m.spaces, w, s))
    && (forall f :: f in w.taken ==> Spare(m.spaces, m.Used(), f))
    && (w.plain ==> w.shared == {} && Accounted(m.spaces, m.Used(), m.boot, w.taken))
  }

  /** Process `s` can be worked with. */
  ghost predicate LiveAt(spaces: seq<Space>, w: World, s: nat)
    requires Shapes(spaces)
  {
    && s < |spaces| && Mirror(spaces[s]) && USER_FIRST <= spaces[s].brkBegin <= spaces[s].brkNext < USER_END
    && (s !in w.shared ==> Tidy(spaces[s]))
  }

  /** What an operation of process `s` leaves of the others. */
  lemma {:induction false} OthersLive(s0: seq<Space>, u0: seq<bool>, s1: seq<Space>, u1: seq<bool>, w: World, s: nat)
    requires Shapes(s0) && SparesKept(s0, u0, s1, u1, []) && |s1| == |s0|
    requires forall r :: 0 <= r < |s0| && r != s ==> s1[r] == s0[r]
    requires (forall r :: r in w.live ==> LiveAt(s0, w, r)) && forall f :: f in w.taken ==> Spare(s0, u0, f)
    ensures forall r :: r in w.live && r != s ==> LiveAt(s1, w, r)
    ensures forall f :: f in w.taken ==> Spare(s1, u1, f)
  {
    hide Mirror, Spare, Tidy;
  }

  lemma RunningSound(m: Memory, w: World)
    requires Running(m, w)
    ensures m.Sound() && Shapes(m.spaces) && m.Logged() && Good(m.spaces, m.Used()) && |m.boot| == |m.Used()|
    ensures forall s :: s in w.live ==> LiveAt(m.spaces, w, s)
    ensures forall f :: f in w.taken ==> Spare(m.spaces, m.Used(), f)
    ensures w.plain ==> w.shared == {}
  {
  }

  method PerformMmap(m: Memory, s: nat, from: nat, n: nat, ghost w: World) returns (halted: bool)
    requires Running(m, w) && s in w.live
    modifies m`spaces, m`log, m.frames.data
    ensures old(m.log) <= m.log && (!halted ==> Running(m, w))
  {
    hide Memory.Logged, Mirror, Spare, Entry, Good, FreeRun, Tidy, Grew, Accounted;
    RunningSound(m, w);
    ghost var s0, u0 := m.spaces, m.Used();
    assert LiveAt(m.spaces, w, s);
    var found, v;
    halted, found, v := Mmap(m, s, from, n);
    if !halted && found {
      OthersLive(s0, u0, m.spaces, m.Used(), w, s);
      if w.plain {
        SoundGood(m);
        AccountsGrow(s0, u0, m.spaces, m.Used(), m.boot, w.taken);
      }
    }
  }

  method PerformShare(m: Memory, s: nat, from: nat, frames: seq<nat>, ghost w: World) returns (halted: bool)
    requires Running(m, w) && s in w.live
    modifies m`spaces, m`log, m.frames.data
    ensures old(m.log) <= m.log && (!halted ==> Running(m, w.(shared := w.shared + {s}, plain := false)))
  {
    hide Memory.Logged, Mirror, Spare, Entry, Good, FreeRun, Tidy, Accounted, Made, TablesTaken;
    RunningSound(m, w);
    ghost var s0, u0 := m.spaces, m.Used();
    assert LiveAt(m.spaces, w, s);
    var found, v;
    halted, found, v := m.MapMemory(s, from, frames, false);
    if !halted && found {
      OthersLive(s0, u0, m.spaces, m.Used(), w, s);
    }
  }

  method PerformUnmap(m: Memory, s: nat, v: nat, n: nat, ghost w: World)
    requires Running(m, w) && s in w.live && USER_FIRST <= v && v + n <= USER_END
    modifies m`spaces, m`log, m.frames.data
    ensures old(m.log) <= m.log && Running(m, w)
  {
    hide Memory.Logged, Mirror, Entry, Good, Gives, Spare, Tidy, Accounted, Dropped, Busy;
    RunningSound(m, w);
    ghost var s0, u0 := m.spaces, m.Used();
    assert LiveAt(m.spaces, w, s);
    var _ := m.UnmapMemory(s, v, n);
    GivesKeepsSpares(s0, u0, m.spaces, m.Used());
    OthersLive(s0, u0, m.spaces, m.Used(), w, s);
    if s !in w.shared {
      DroppedTidy(s0, m.spaces, s, v, v + n);
    }
    if w.plain {
      AccountsShrink(s0, u0, m.spaces, m.Used(), m.boot, w.taken, s);
    }
  }

  method PerformSbrk(m: Memory, s: nat, count: int, ghost w: World) returns (halted: bool)
    requires Running(m, w) && s in w.live
    modifies m`spaces, m`log, m.frames.data
    ensures old(m.log) <= m.log && (!halted ==> Running(m, w.(plain := w.plain && count < 0)))
  {
    hide Memory.Logged, Mirror, Entry, Good, Gives, Spare, LowFree, Memory.Lost, Tidy, Accounted;
    RunningSound(m, w);
    ghost var s0, u0 := m.spaces, m.Used();
    assert LiveAt(m.spaces, w, s);
    ghost var lost;
    halted, lost := m.SbrkPage(s, count);
    if !halted {
      if count < 0 {
        GivesKeepsSpares(s0, u0, m.spaces, m.Used());
        if w.plain {
          AccountsShrink(s0, u0, m.spaces, m.Used(), m.boot, w.taken, s);
        }
      }
      OthersLive(s0, u0, m.spaces, m.Used(), w, s);
    }
  }

  /** A process that goes gives back exactly the frames that it held, if it owned them all. */
  method PerformDestroy(m: Memory, s: nat, ghost w: World)
    requires Running(m, w) && s in w.live
    modifies m`spaces, m`log, m.frames.data
    ensures old(m.log) <= m.log && Running(m, w.(live := w.live - {s}))
    ensures s !in w.shared ==>
      && (forall f: nat :: !Holds(m.spaces, s, f))
      && forall f: nat :: f < |m.Used()| ==> (m.Used()[f] <==> old(m.Used())[f] && !old(Holds(m.spaces, s, f)))
  {
    hide Memory.Logged, Mirror, Entry, Good, Gives, Spare, Tidy, Accounted, Holds;
    RunningSound(m, w);
    ghost var s0, u0 := m.spaces, m.Used();
    assert LiveAt(m.spaces, w, s);
    m.DestroyDirectory(s);
    GivesKeepsSpares(s0, u0, m.spaces, m.Used());
    SameSize(s0, u0, m.spaces, m.Used());
    OthersLive(s0, u0, m.spaces, m.Used(), w, s);
    if s !in w.shared {
      DestroyReleases(s0, u0, m.spaces, m.Used(), s);
    }
    if w.plain {
      AccountsShrink(s0, u0, m.spaces, m.Used(), m.boot, w.taken, s);
    }
  }

  method PerformNew(m: Memory, ghost w: World) returns (s: nat)
    requires Running(m, w)
    modifies m`spaces
    ensures Running(m, w.(live := w.live + {s}))
  {
    hide Memory.Logged, Mirror, Entry, Good, Tidy;
    RunningSound(m, w);
    ghost var s0 := m.spaces;
    s := m.NewSpace();
    assert forall r :: 0 <= r < |s0| ==> m.spaces[r] == m.spaces[..s][r];
    forall r | r in w.live ensures LiveAt(m.spaces, w, r) {
      assert old(LiveAt(m.spaces, w, r));
    }
    HeldAccounts(s0, m.spaces, m.Used(), m.boot, w.taken);
  }

  lemma HeldAccounts(s0: seq<Space>, s1: seq<Space>, used: seq<bool>, boot: seq<bool>, taken: set<nat>)
    requires Shapes(s0) && Shapes(s1) && forall p :: Held(s1, p) == Held(s0, p)
    ensures Accounted(s0, used, boot, taken) ==> Accounted(s1, used, boot, taken)
  {
    hide Held;
    forall f: nat ensures Kept(s1, f) <==> Kept(s0, f) {
      if Kept(s0, f) {
        var p :| Held(s0, p) == f;
        assert Held(s1, p) == f;
      }
    }
  }

  method PerformTake(m: Memory, ghost w: World) returns (halted: bool, f: nat)
    requires Running(m, w)
    modifies m`log, m.frames.data
    ensures old(m.log) <= m.log && (!halted ==> f !in w.taken && Running(m, w.(taken := w.taken + {f})))
  {
    hide Memory.Logged, Mirror, Entry, Good, Held, Tidy;
    halted, f := false, 0;
    RunningSound(m, w);
    ghost var u := m.Used();
    var p := m.Acquire();
    if p < 0 {
      halted := true;
      return;
    }
    AcquiredSpare(m.spaces, u, m.Used(), p);
    SpareNotKept(m.spaces, m.Used(), p);
    f := p;
    forall r | r in w.live ensures LiveAt(m.spaces, w, r) {
      assert old(LiveAt(m.spaces, w, r));
    }
  }

  method PerformGive(m: Memory, f: nat, ghost w: World)
    requires Running(m, w) && f in w.taken
    modifies m`log, m.frames.data
    ensures old(m.log) <= m.log && Running(m, w.(taken := w.taken - {f}))
  {
    hide Memory.Logged, Mirror, Entry, Good, Held, Tidy;
    RunningSound(m, w);
    SpareGiven(m.spaces, m.Used(), f);
    SpareNotKept(m.spaces, m.Used(), f);
    m.Release(f);
    forall r | r in w.live ensures LiveAt(m.spaces, w, r) {
      assert old(LiveAt(m.spaces, w, r));
    }
  }

  /** One operation. One of a process that is not alive, or of a frame that is not the
      kernel's, is refused. */
  method Perform(m: Memory, op: Op, w0: World) returns (halted: bool, w: World)
    requires Running(m, w0) && op.Legal()
    modifies m`spaces, m`log, m.frames.data
    ensures old(m.log) <= m.log && (!halted ==> Running(m, w))
    ensures w.plain <==>
      w0.plain && !(op.ShareOp? && op.s in w0.live) && !(op.SbrkOp? && op.s in w0.live && op.count >= 0)
    ensures op.DestroyOp? && op.s in w0.live && op.s !in w0.shared ==>
      && !halted && Shapes(m.spaces) && (forall f: nat :: !Holds(m.spaces, op.s, f))
      && forall f: nat :: f < |m.Used()| ==>
           (m.Used()[f] <==> f < |old(m.Used())| && old(m.Used())[f] && !old(Holds(m.spaces, op.s, f)))
  {
    hide Running, Holds;
    WorldShapes(m, w0);
    halted, w := false, w0;
    match op {
      case NewOp => {
        var s := PerformNew(m, w);
        w := w.(live := w.live + {s});
      }
      case MmapOp(s, from, n) => {
        if s in w.live {
          halted := PerformMmap(m, s, from, n, w);
        }
      }
      case ShareOp(s, from, frames) => {
        if s in w.live {
          halted := PerformShare(m, s, from, frames, w);
          w := w.(shared := w.shared + {s}, plain := false);
        }
      }
      case UnmapOp(s, v, n) => {
        if s in w.live {
          PerformUnmap(m, s, v, n, w);
        }
      }
      case SbrkOp(s, count) => {
        if s in w.live {
          halted := PerformSbrk(m, s, count, w);
          w := w.(plain := w.plain && count < 0);
        }
      }
      case DestroyOp(s) => {
        if s in w.live {
          PerformDestroy(m, s, w);
          w := w.(live := w.live - {s});
          WorldShapes(m, w);
        }
      }
      case TakeOp => {
        var f;
        halted, f := PerformTake(m, w);
        w := w.(taken := w.taken + {f});
      }
      case GiveOp(f) => {
        if f in w.taken {
          PerformGive(m, f, w);
          w := w.(taken := w.taken - {f});
        }
      }
    }
  }

  lemma WorldShapes(m: Memory, w: World)
    requires Running(m, w)
    ensures Shapes(m.spaces)
  {
  }

  /** No frame is given back twice without being handed out in between, nor handed out twice
      without being given back in between. */
  ghost predicate Alternating(log: seq<Event>) {
    forall i, j :: 0 <= i < j < |log| && log[i] == log[j] ==>
      exists k :: i < k < j && log[k].frame == log[i].frame && log[k] != log[i]
  }

  lemma {:induction false} RunningAlternates(m: Memory, w: World)
    requires Running(m, w)
    ensures Alternating(m.log)
  {
    forall i, j | 0 <= i < j < |m.log| && m.log[i] == m.log[j]
      ensures exists k :: i < k < j && m.log[k].frame == m.log[i].frame && m.log[k] != m.log[i]
    {
      Alternates(m.boot, m.log, i, j);
    }
  }

  /** Any run from the start, up to a panic: at its end, and so at each of its points, every frame
      has at most one holder, the bitmaps are right, and releases and acquisitions of every
      frame alternate. `at` is how far it came. If nothing was shared and no break went up, no
      frame is lost: those in use are those in use at the start, the kernel's, and the held ones. */
  method Run(m: Memory, ops: seq<Op>) returns (at: nat, w: World)
    requires m.Sound() && m.spaces == [] && m.log == [] && forall i :: 0 <= i < |ops| ==> ops[i].Legal()
    modifies m`spaces, m`log, m.frames.data
    ensures at <= |ops| && (at == |ops| ==> Running(m, w) && Alternating(m.log))
    ensures (forall i :: 0 <= i < |ops| ==> !ops[i].ShareOp? && !ops[i].SbrkOp?) && at == |ops| ==>
      Accounted(m.spaces, m.Used(), m.boot, w.taken)
  {
    hide Running, Alternating, Accounted, Holds;
    at, w := 0, World({}, {}, {}, true);
    StartsRunning(m);
    while at < |ops|
      invariant at <= |ops| && Running(m, w)
      invariant (forall i :: 0 <= i < at ==> !ops[i].ShareOp? && !ops[i].SbrkOp?) ==> w.plain
    {
      var halted;
      halted, w := Perform(m, ops[at], w);
      if halted {
        return;
      }
      at := at + 1;
    }
    RunningAlternates(m, w);
    if w.plain {
      PlainAccounted(m, w);
    }
  }

  lemma StartsRunning(m: Memory)
    requires m.Sound() && m.spaces == [] && m.log == []
    ensures Running(m, World({}, {}, {}, true))
  {
  }

  lemma PlainAccounted(m: Memory, w: World)
    requires Running(m, w) && w.plain
    ensures Accounted(m.spaces, m.Used(), m.boot, w.taken)
  {
  }
}
