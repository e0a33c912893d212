/** Virtual memory: page directories and tables of processes over one pool of page frames.
    An entry marked as owned holds its frame; tables are frames too. */
module Vmm {
  import opened Bitmaps
  import opened FrameLog

  const PER_TABLE: nat := 1024
  const PAGES: nat := 0x10_0000
  const USER_FIRST: nat := 0x4_0000
  const USER_END: nat := 0xF_FC00
  const TABLE_FIRST: nat := 256
  const TABLE_END: nat := 1023

  /** An entry of a page directory or page table. */
  datatype Pte = Free | Page(frame: nat, owned: bool)

  /** A process: its page directory, its page tables, its bitmap of mapped pages, and the
      pages between which its program break lies. */
  datatype Space = Space(pd: seq<Pte>, tables: seq<seq<Pte>>, vmap: seq<bool>, brkBegin: nat, brkNext: nat)

  ghost predicate Shape(sp: Space) {
    |sp.pd| == PER_TABLE && |sp.tables| == PER_TABLE && |sp.vmap| == PAGES
    && forall i :: 0 <= i < PER_TABLE ==> |sp.tables[i]| == PER_TABLE
  }

  lemma Index(v: nat)
    requires v < PAGES
    ensures v / PER_TABLE < PER_TABLE && v % PER_TABLE < PER_TABLE
  {
  }

  /** What page `v` is mapped to. */
  ghost function Entry(sp: Space, v: nat): Pte
    requires Shape(sp) && v < PAGES
  {
    Index(v);
    if sp.pd[v / PER_TABLE].Free? then Free else sp.tables[v / PER_TABLE][v % PER_TABLE]
  }

  /** A place that can hold a frame: directory entry `i` or page `v` of process `s`. */
  datatype Place = Table(s: nat, i: nat) | Leaf(s: nat, v: nat)

  ghost predicate Shapes(spaces: seq<Space>) {
    forall s :: 0 <= s < |spaces| ==> Shape(spaces[s])
  }

  /** The entry at a place. */
  ghost function At(spaces: seq<Space>, p: Place): Pte
    requires Shapes(spaces)
  {
    if p.s >= |spaces| then Free
    else match p
      case Table(s, i) => if i < PER_TABLE then spaces[s].pd[i] else Free
      case Leaf(s, v) => if v < PAGES then Entry(spaces[s], v) else Free
  }

  /** The frame that a place holds: that of a page table, or of a page mapped as owned. */
  ghost function Held(spaces: seq<Space>, p: Place): int
    requires Shapes(spaces)
  {
    var e := At(spaces, p);
    if e.Page? && (p.Table? || e.owned) then e.frame else -1
  }

  /** Every frame is held at most once, and a held frame is marked as used. */
  ghost predicate Good(spaces: seq<Space>, used: seq<bool>) {
    && Shapes(spaces)
    && (forall p :: Held(spaces, p) >= 0 ==> Held(spaces, p) < |used| && used[Held(spaces, p)])
    && forall p, q :: p != q && Held(spaces, p) >= 0 ==> Held(spaces, p) != Held(spaces, q)
  }

  ghost predicate InUser(v: nat) {
    USER_FIRST <= v < USER_END
  }

  /** The bitmap of a process: in the user range the mapped pages, elsewhere everything. */
  ghost predicate Mirror(sp: Space)
    requires Shape(sp)
  {
    forall v :: 0 <= v < PAGES ==> (sp.vmap[v] <==> !InUser(v) || Entry(sp, v).Page?)
  }

  /** From `spaces` to `spaces'` what is held changes at place `p` only. */
  ghost predicate OnlyAt(spaces: seq<Space>, spaces': seq<Space>, p: Place) {
    Shapes(spaces) && Shapes(spaces') && forall q :: q != p ==> Held(spaces', q) == Held(spaces, q)
  }

  /** A place takes a frame that is in use and that no other place holds. */
  lemma {:induction false} GoodTakes(spaces: seq<Space>, used: seq<bool>, spaces': seq<Space>, used': seq<bool>,
      p: Place)
    requires Good(spaces, used) && OnlyAt(spaces, spaces', p) && |used'| == |used|
    requires forall f :: 0 <= f < |used| && used[f] ==> used'[f]
    requires var f := Held(spaces', p); f >= 0 ==> f < |used'| && used'[f] && forall q :: q != p ==>
      Held(spaces, q) != f
    ensures Good(spaces', used')
  {
  }

  /** A place lets go of its frame, which may now be marked as unused. */
  lemma {:induction false} GoodDrops(spaces: seq<Space>, used: seq<bool>, spaces': seq<Space>, used': seq<bool>,
      p: Place)
    requires Good(spaces, used) && OnlyAt(spaces, spaces', p) && Held(spaces', p) == -1
    requires used' == used || (Held(spaces, p) >= 0 && used' == used[Held(spaces, p) := false])
    ensures Good(spaces', used')
  {
  }

  // ----- changes of one entry -----

  function NoPages(): seq<Pte> {
    seq(PER_TABLE, _ => Free)
  }

  /** A page table is hung into the directory, empty. */
  function WithTable(sp: Space, i: nat, e: Pte): Space
    requires i < |sp.pd| && i < |sp.tables|
  {
    sp.(pd := sp.pd[i := e], tables := sp.tables[i := NoPages()])
  }

  function WithLeaf(sp: Space, v: nat, e: Pte): Space
    requires Shape(sp) && v < PAGES
  {
    Index(v);
    sp.(tables := sp.tables[v / PER_TABLE := sp.tables[v / PER_TABLE][v % PER_TABLE := e]])
  }

  function WithoutTable(sp: Space, i: nat): Space
    requires i < |sp.pd|
  {
    sp.(pd := sp.pd[i := Free])
  }

  lemma SplitIndex(v: nat, w: nat)
    requires v / PER_TABLE == w / PER_TABLE && v % PER_TABLE == w % PER_TABLE
    ensures v == w
  {
  }

  /** An empty table changes no mapping. */
  lemma {:induction false} TableMade(sp: Space, i: nat, e: Pte)
    requires Shape(sp) && i < PER_TABLE && sp.pd[i].Free?
    ensures Shape(WithTable(sp, i, e)) && forall w :: 0 <= w < PAGES ==> Entry(WithTable(sp, i, e), w) == Entry(sp, w)
  {
  }

  lemma {:induction false} LeafSet(sp: Space, v: nat, e: Pte)
    requires Shape(sp) && v < PAGES && sp.pd[v / PER_TABLE].Page?
    ensures Shape(WithLeaf(sp, v, e))
    ensures forall w :: 0 <= w < PAGES ==> Entry(WithLeaf(sp, v, e), w) == if w == v then e else Entry(sp, w)
  {
    Index(v);
    forall w | 0 <= w < PAGES ensures Entry(WithLeaf(sp, v, e), w) == if w == v then e else Entry(sp, w) {
      Index(w);
      if w / PER_TABLE == v / PER_TABLE && w % PER_TABLE == v % PER_TABLE {
        SplitIndex(v, w);
      }
    }
  }

  lemma {:induction false} TableDropped(sp: Space, i: nat)
    requires Shape(sp) && i < PER_TABLE && forall j :: 0 <= j < PER_TABLE ==> sp.tables[i][j].Free?
    ensures Shape(WithoutTable(sp, i)) && forall w :: 0 <= w < PAGES ==> Entry(WithoutTable(sp, i), w) == Entry(sp, w)
  {
    forall w | 0 <= w < PAGES ensures Entry(WithoutTable(sp, i), w) == Entry(sp, w) {
      Index(w);
    }
  }

  /** One process changes: what the others hold stays. */
  lemma {:induction false} OneSpace(spaces: seq<Space>, s: nat, sp: Space, p: Place)
    requires Shapes(spaces) && s < |spaces| && Shape(sp) && p.s == s
    requires forall i :: 0 <= i < PER_TABLE && p != Table(s, i) ==> sp.pd[i] == spaces[s].pd[i]
    requires forall v :: 0 <= v < PAGES && p != Leaf(s, v) ==> Entry(sp, v) == Entry(spaces[s], v)
    ensures OnlyAt(spaces, spaces[s := sp], p)
  {
  }

  // ----- what is given back -----

  /** The frame that the entry at a place owns. */
  ghost function Own(spaces: seq<Space>, p: Place): int
    requires Shapes(spaces)
  {
    var e := At(spaces, p);
    if e.Page? && e.owned then e.frame else -1
  }

  /** Place `p` owned frame `f` and no longer does. */
  ghost predicate LetGo(spaces: seq<Space>, spaces': seq<Space>, p: Place, f: int)
    requires Shapes(spaces) && Shapes(spaces')
  {
    Own(spaces, p) == f && Own(spaces', p) == -1
  }

  /** No entry holds or owns a new frame, and exactly the frames whose owning entries were cleared
      are no longer marked as used. */
  ghost predicate Gives(spaces: seq<Space>, used: seq<bool>, spaces': seq<Space>, used': seq<bool>) {
    && Shapes(spaces) && Shapes(spaces') && |used'| == |used|
    && (forall p :: Own(spaces', p) == Own(spaces, p) || Own(spaces', p) == -1)
    && (forall p :: Held(spaces', p) == Held(spaces, p) || Held(spaces', p) == -1)
    && (forall p :: At(spaces', p) == At(spaces, p) || At(spaces', p).Free?)
    && (forall f :: 0 <= f < |used| && !used[f] ==> !used'[f])
    && forall f :: 0 <= f < |used| && used[f] ==> (!used'[f] <==> exists p :: LetGo(spaces, spaces', p, f))
  }

  lemma GivesNothing(spaces: seq<Space>, used: seq<bool>)
    requires Shapes(spaces)
    ensures Gives(spaces, used, spaces, used)
  {
  }

  lemma {:induction false} GivesMore(s0: seq<Space>, u0: seq<bool>, s1: seq<Space>, u1: seq<bool>, s2: seq<Space>,
      u2: seq<bool>)
    requires Gives(s0, u0, s1, u1) && Gives(s1, u1, s2, u2)
    ensures Gives(s0, u0, s2, u2)
  {
    hide Own;
    forall f | 0 <= f < |u0| && u0[f] ensures !u2[f] <==> exists p :: LetGo(s0, s2, p, f) {
      if !u2[f] {
        if u1[f] {
          var p :| LetGo(s1, s2, p, f);
          assert Own(s1, p) == Own(s0, p);
          assert LetGo(s0, s2, p, f);
        } else {
          var p :| LetGo(s0, s1, p, f);
          assert LetGo(s0, s2, p, f);
        }
      }
      if p :| LetGo(s0, s2, p, f) {
        if Own(s1, p) == -1 {
          assert LetGo(s0, s1, p, f);
        } else {
          assert LetGo(s1, s2, p, f);
        }
      }
    }
  }

  lemma {:induction false} GivesSame(s0: seq<Space>, u0: seq<bool>, s1: seq<Space>, u1: seq<bool>, s2: seq<Space>)
    requires Gives(s0, u0, s1, u1) && Shapes(s2) && forall p :: Own(s2, p) == Own(s1, p) && Held(s2, p) == Held(s1, p)
    requires forall p :: At(s2, p) == At(s1, p)
    ensures Gives(s0, u0, s2, u1)
  {
    hide Own;
    forall f | 0 <= f < |u0| && u0[f] ensures !u1[f] <==> exists p :: LetGo(s0, s2, p, f) {
      if p :| LetGo(s0, s1, p, f) {
        assert LetGo(s0, s2, p, f);
      }
      if p :| LetGo(s0, s2, p, f) {
        assert LetGo(s0, s1, p, f);
      }
    }
  }

  /** One entry is cleared, and its frame released if it was owned. */
  lemma {:induction false} GivesAt(spaces: seq<Space>, used: seq<bool>, spaces': seq<Space>, used': seq<bool>, p: Place)
    requires Good(spaces, used) && Shapes(spaces') && Own(spaces', p) == -1
    requires OnlyAt(spaces, spaces', p) && Held(spaces', p) == -1
    requires forall q :: q != p ==> Own(spaces', q) == Own(spaces, q)
    requires At(spaces', p).Free? && forall q :: q != p ==> At(spaces', q) == At(spaces, q)
    requires Own(spaces, p) < |used| && used' == if Own(spaces, p) >= 0 then used[Own(spaces, p) := false] else used
    ensures Gives(spaces, used, spaces', used')
  {
    hide Own;
    forall f | 0 <= f < |used| && used[f] ensures !used'[f] <==> exists q :: LetGo(spaces, spaces', q, f) {
      if f == Own(spaces, p) {
        assert LetGo(spaces, spaces', p, f);
      }
    }
  }

  /** Frame `f` is in use and no place holds it. */
  ghost predicate Spare(spaces: seq<Space>, used: seq<bool>, f: nat)
    requires Shapes(spaces)
  {
    f < |used| && used[f] && forall p :: Held(spaces, p) != f
  }

  /** Frames that are in use and held by nobody stay so, but for those in `but`. */
  ghost predicate SparesKept(spaces: seq<Space>, used: seq<bool>, spaces': seq<Space>, used': seq<bool>,
      but: seq<nat>) {
    Shapes(spaces) && Shapes(spaces') && forall f: nat :: Spare(spaces, used, f) && f !in but ==>
      Spare(spaces', used', f)
  }

  lemma SpareSame(s1: seq<Space>, s2: seq<Space>, used: seq<bool>)
    requires Shapes(s1) && Shapes(s2) && forall p :: Held(s2, p) == Held(s1, p)
    ensures forall f: nat :: Spare(s2, used, f) <==> Spare(s1, used, f)
  {
    hide Held;
    forall f: nat ensures Spare(s2, used, f) <==> Spare(s1, used, f) {
      assert Spare(s1, used, f) ==> forall p :: Held(s2, p) == Held(s1, p) != f;
    }
  }

  /** Clearing entries touches no frame that is held by nobody. */
  lemma {:induction false} GivesKeepsSpares(spaces: seq<Space>, used: seq<bool>, spaces': seq<Space>, used': seq<bool>)
    requires Gives(spaces, used, spaces', used')
    ensures SparesKept(spaces, used, spaces', used', [])
  {
    forall f: nat | Spare(spaces, used, f) ensures Spare(spaces', used', f) {
      forall p ensures !LetGo(spaces, spaces', p, f) && Held(spaces', p) != f {
        assert Held(spaces, p) != f;
      }
    }
  }

  /** A frame `p` was handed out, then others for page tables, and then nothing changed hands. */
  lemma {:induction false} SparesPast(s0: seq<Space>, u0: seq<bool>, p: nat, s1: seq<Space>, u1: seq<bool>,
      s2: seq<Space>)
    requires Shapes(s0) && Shapes(s1) && Shapes(s2) && p < |u0| == |u1| && !u0[p]
    requires forall f: nat :: Spare(s0, u0[p := true], f) && f != p ==> Spare(s1, u1, f)
    requires forall q :: Held(s2, q) == Held(s1, q)
    ensures SparesKept(s0, u0, s2, u1, [])
  {
    hide Held;
    forall f: nat | Spare(s0, u0, f) ensures Spare(s2, u1, f) {
      assert Spare(s0, u0[p := true], f) && f != p;
      assert Spare(s1, u1, f);
      forall q ensures Held(s2, q) != f {
        assert Held(s1, q) != f;
      }
    }
  }

  /** Frames newly in use are those of page tables. */
  ghost predicate TablesTaken(spaces: seq<Space>, used: seq<bool>, spaces': seq<Space>, used': seq<bool>) {
    && Shapes(spaces) && Shapes(spaces')
    && |used'| == |used| && (forall f :: 0 <= f < |used| && used[f] ==> used'[f])
    && (forall p: Place :: p.Table? && Held(spaces, p) >= 0 ==> Held(spaces', p) == Held(spaces, p))
    && forall f :: 0 <= f < |used| && used'[f] && !used[f] ==> TableAt(spaces', f)
  }

  ghost predicate TableAt(spaces: seq<Space>, f: nat)
    requires Shapes(spaces)
  {
    exists p: Place :: p.Table? && Held(spaces, p) == f
  }

  lemma {:induction false} TablesMore(s0: seq<Space>, u0: seq<bool>, s1: seq<Space>, u1: seq<bool>, s2: seq<Space>,
      u2: seq<bool>)
    requires TablesTaken(s0, u0, s1, u1) && TablesTaken(s1, u1, s2, u2)
    ensures TablesTaken(s0, u0, s2, u2)
  {
    hide Held;
    forall f | 0 <= f < |u0| && u2[f] && !u0[f] ensures TableAt(s2, f) {
      if u1[f] {
        var p: Place :| p.Table? && Held(s1, p) == f;
        assert Held(s2, p) == f;
      }
    }
  }

  lemma TablesNone(spaces: seq<Space>, used: seq<bool>)
    requires Shapes(spaces)
    ensures TablesTaken(spaces, used, spaces, used)
  {
  }

  /** Process `s` has only the mapping of the pages from `lo` to `hi` - 1 changed. */
  ghost predicate MappingOnly(spaces: seq<Space>, spaces': seq<Space>, s: nat, lo: nat, hi: nat) {
    && s < |spaces| == |spaces'| && Shapes(spaces) && Shapes(spaces')
    && (forall r :: 0 <= r < |spaces| && r != s ==> spaces'[r] == spaces[r])
    && forall w :: 0 <= w < PAGES && !(lo <= w < hi) ==> Entry(spaces'[s], w) == Entry(spaces[s], w)
  }

  /** Page table `i` maps some of the pages from `lo` to `hi` - 1. */
  ghost predicate Touches(i: nat, lo: nat, hi: nat) {
    lo < hi && lo < PER_TABLE * (i + 1) && PER_TABLE * i < hi
  }

  lemma TouchesPage(v: nat)
    ensures Touches(v / PER_TABLE, v, v + 1)
  {
  }

  /** From `spaces` to `spaces'` entry `i` of the directory of process `s` was free and is now one
      of a page table, owned or not as asked, in a frame that was free. */
  ghost predicate MadeAt(spaces: seq<Space>, used: seq<bool>, spaces': seq<Space>, s: nat, i: nat, own: bool)
    requires s < |spaces| == |spaces'| && Shapes(spaces) && Shapes(spaces') && i < PER_TABLE
  {
    var e := spaces'[s].pd[i];
    spaces[s].pd[i].Free? && e.Page? && e.owned == own && e.frame < |used| && !used[e.frame]
  }

  /** New entries of the directory of process `s` are those of page tables for pages from `lo` to
      `hi` - 1; the others are as before. */
  ghost predicate Made(spaces: seq<Space>, used: seq<bool>, spaces': seq<Space>, s: nat, lo: nat, hi: nat, own: bool) {
    && s < |spaces| == |spaces'| && Shapes(spaces) && Shapes(spaces')
    && forall i: nat :: i < PER_TABLE ==>
         spaces'[s].pd[i] == spaces[s].pd[i] || (Touches(i, lo, hi) && MadeAt(spaces, used, spaces', s, i, own))
  }

  lemma {:induction false} MadeMore(s0: seq<Space>, u0: seq<bool>, s1: seq<Space>, u1: seq<bool>, s2: seq<Space>,
      s: nat, lo: nat, hi: nat, own: bool)
    requires Made(s0, u0, s1, s, lo, hi, own) && Made(s1, u1, s2, s, hi, hi + 1, own) && lo <= hi
    requires |u1| == |u0| && forall f :: 0 <= f < |u0| && u0[f] ==> u1[f]
    ensures Made(s0, u0, s2, s, lo, hi + 1, own)
  {
    forall i: nat | i < PER_TABLE
      ensures s2[s].pd[i] == s0[s].pd[i] || (Touches(i, lo, hi + 1) && MadeAt(s0, u0, s2, s, i, own))
    {
      assert Touches(i, lo, hi) || Touches(i, hi, hi + 1) ==> Touches(i, lo, hi + 1);
    }
  }

  lemma MadeSame(s0: seq<Space>, u0: seq<bool>, s1: seq<Space>, s2: seq<Space>, s: nat, lo: nat, hi: nat, own: bool)
    requires Made(s0, u0, s1, s, lo, hi, own) && |s2| == |s1| && Shapes(s2) && s2[s].pd == s1[s].pd
    ensures Made(s0, u0, s2, s, lo, hi, own)
  {
    forall i: nat | i < PER_TABLE
      ensures s2[s].pd[i] == s0[s].pd[i] || (Touches(i, lo, hi) && MadeAt(s0, u0, s2, s, i, own))
    {
      assert s1[s].pd[i] == s0[s].pd[i] || MadeAt(s0, u0, s1, s, i, own);
    }
  }

  lemma MadeNone(spaces: seq<Space>, used: seq<bool>, s: nat, lo: nat, own: bool)
    requires s < |spaces| && Shapes(spaces)
    ensures Made(spaces, used, spaces, s, lo, lo, own)
  {
  }

  /** Entries of the directory of process `s` are cleared at most for tables of pages from `lo` to
      `hi` - 1, and nothing else becomes of them. */
  ghost predicate Dropped(spaces: seq<Space>, spaces': seq<Space>, s: nat, lo: nat, hi: nat) {
    && s < |spaces| == |spaces'| && Shapes(spaces) && Shapes(spaces')
    && forall i: nat :: i < PER_TABLE ==>
         spaces'[s].pd[i] == spaces[s].pd[i] || (Touches(i, lo, hi) && spaces'[s].pd[i].Free?)
  }

  /** All page tables of a process are owned, and lie in the user range. */
  ghost predicate Tidy(sp: Space)
    requires Shape(sp)
  {
    forall i :: 0 <= i < PER_TABLE && sp.pd[i].Page? ==> sp.pd[i].owned && TABLE_FIRST <= i < TABLE_END
  }

  lemma {:induction false} MadeTidy(spaces: seq<Space>, used: seq<bool>, spaces': seq<Space>, s: nat, lo: nat, hi: nat)
    requires Made(spaces, used, spaces', s, lo, hi, true) && USER_FIRST <= lo && hi <= USER_END && Tidy(spaces[s])
    ensures Tidy(spaces'[s])
  {
    forall i: nat | i < PER_TABLE && spaces'[s].pd[i].Page?
      ensures spaces'[s].pd[i].owned && TABLE_FIRST <= i < TABLE_END
    {
      assert spaces'[s].pd[i] == spaces[s].pd[i] || (Touches(i, lo, hi) && MadeAt(spaces, used, spaces', s, i, true));
    }
  }

  lemma {:induction false} DroppedTidy(spaces: seq<Space>, spaces': seq<Space>, s: nat, lo: nat, hi: nat)
    requires Dropped(spaces, spaces', s, lo, hi) && Tidy(spaces[s])
    ensures Tidy(spaces'[s])
  {
    forall i: nat | i < PER_TABLE && spaces'[s].pd[i].Page?
      ensures spaces'[s].pd[i].owned && TABLE_FIRST <= i < TABLE_END
    {
    }
  }

  lemma TidySame(spaces: seq<Space>, spaces': seq<Space>, s: nat)
    requires Shapes(spaces) && Shapes(spaces') && s < |spaces| == |spaces'| && spaces'[s].pd == spaces[s].pd
    ensures Tidy(spaces'[s]) <==> Tidy(spaces[s])
  {
  }

  lemma TidyUp(s0: seq<Space>, u: seq<bool>, s1: seq<Space>, s2: seq<Space>, s: nat, v: nat)
    requires Made(s0, u, s1, s, v, v + 1, true) && USER_FIRST <= v < USER_END
    requires Shapes(s2) && |s2| == |s1| && s2[s].pd == s1[s].pd
    ensures Tidy(s0[s]) ==> Tidy(s2[s])
  {
    TidySame(s1, s2, s);
    if Tidy(s0[s]) {
      MadeTidy(s0, u, s1, s, v, v + 1);
    }
  }

  lemma TidyDown(s0: seq<Space>, s1: seq<Space>, s2: seq<Space>, s: nat, v: nat)
    requires Shapes(s0) && Shapes(s1) && s < |s0| == |s1| && s1[s].pd == s0[s].pd && Dropped(s1, s2, s, v, v + 1)
    ensures Tidy(s0[s]) ==> Tidy(s2[s])
  {
    TidySame(s0, s1, s);
    if Tidy(s1[s]) {
      DroppedTidy(s1, s2, s, v, v + 1);
    }
  }

  /** An owned page table is there only as long as it maps something. */
  ghost predicate Busy(sp: Space, i: nat)
    requires Shape(sp) && i < PER_TABLE
  {
    sp.pd[i].Page? && sp.pd[i].owned ==> exists j :: 0 <= j < PER_TABLE && sp.tables[i][j].Page?
  }

  /** The bits from `lo` to `hi` - 1 set to `on`. */
  function Fill(m: seq<bool>, lo: nat, hi: nat, on: bool): (r: seq<bool>)
    ensures |r| == |m|
  {
    seq(|m|, v requires 0 <= v < |m| => if lo <= v < hi then on else m[v])
  }

  /** Pages `v` to `v` + `n` - 1 are free and below the end of the user range. */
  ghost predicate FreeRun(m: seq<bool>, v: nat, n: nat) {
    v + n <= USER_END <= |m| && forall k :: v <= k < v + n ==> !m[k]
  }

  /** The scan has seen pages from `from` to `at` - 1: the last `n` of them are free, and no
      run of `need` free pages starts before those. */
  ghost predicate Scanning(m: seq<bool>, from: nat, at: nat, n: nat, need: nat) {
    && from + n <= at <= |m|
    && (forall k :: at - n <= k < at ==> !m[k])
    && (from + n < at ==> m[at - n - 1])
  }

  lemma {:induction false} NoEarlier(m: seq<bool>, from: nat, at: nat, n: nat, need: nat, w: nat)
    requires Scanning(m, from, at, n, need) && from <= w < at - n && at <= w + need
    ensures !FreeRun(m, w, need)
  {
    assert m[at - n - 1];
  }

  const FRAME: nat := 4096
  /** Number of frames whose address is a non-negative 32-bit integer. */
  const LOW_FRAMES: nat := 0x8_0000

  /** One of these is free. */
  ghost predicate LowFree(used: seq<bool>) {
    exists f :: 0 <= f < LOW_FRAMES && f < |used| && !used[f]
  }

  class Memory {
    const frames: Bitmap
    var spaces: seq<Space>
    ghost const boot: seq<bool>
    ghost var log: seq<Event>

    /** No process yet, and the frames in `frames` in use. */
    constructor (frames: Bitmap)
      ensures this.frames == frames && spaces == [] && log == [] && boot == Used() && Sound()
    {
      this.frames, spaces, boot, log := frames, [], frames.View(), [];
    }

    ghost function Used(): seq<bool>
      reads frames.data
    {
      frames.View()
    }

    /** The bitmap is what the record of all events leads to. */
    ghost predicate Logged()
      reads `log, frames.data
    {
      Proper(boot, log) && After(boot, log) == Used()
    }

    ghost predicate Sound()
      reads this, frames.data
    {
      Logged() && Good(spaces, Used())
    }

    /** vmm_acquire_page_frame_4k: the first free frame; -1 stands for the panic. */
    method Acquire() returns (f: int)
      requires Logged()
      modifies `log, frames.data
      ensures Logged()
      ensures f == -1 ==> (forall g :: 0 <= g < |Used()| ==> Used()[g]) && Used() == old(Used()) && log == old(log)
      ensures f != -1 ==>
        && 0 <= f < |Used()| && !old(Used())[f] && Used() == old(Used())[f := true]
        && (forall g :: 0 <= g < f ==> old(Used())[g]) && log == old(log) + [Took(f)]
    {
      f := frames.FirstClear();
      if f == frames.Size() {
        return -1;
      }
      ProperMore(boot, log, Took(f));
      frames.Put(f, true);
      log := log + [Took(f)];
    }

    /** vmm_release_page_frame_4k. */
    method Release(f: nat)
      requires Logged() && f < |Used()| && Used()[f]
      modifies `log, frames.data
      ensures Logged() && Used() == old(Used())[f := false] && log == old(log) + [Gave(f)]
    {
      ProperMore(boot, log, Gave(f));
      frames.Put(f, false);
      log := log + [Gave(f)];
    }

    /** The page table for page `v` of process `s`, made if there is none. */
    method EnsureTable(s: nat, v: nat, owned: bool) returns (halted: bool)
      requires Sound() && s < |spaces| && v < PAGES
      modifies `spaces, `log, frames.data
      ensures old(log) <= log
      ensures Sound() && MappingOnly(old(spaces), spaces, s, 0, 0) && spaces[s].vmap == old(spaces[s].vmap)
      ensures spaces[s].brkBegin == old(spaces[s].brkBegin) && spaces[s].brkNext == old(spaces[s].brkNext)
      ensures !halted ==> v / PER_TABLE < PER_TABLE && spaces[s].pd[v / PER_TABLE].Page?
      ensures TablesTaken(old(spaces), old(Used()), spaces, Used())
      ensures forall p: Place :: p.Leaf? ==> Held(spaces, p) == Held(old(spaces), p)
      ensures forall f: nat :: Spare(old(spaces), old(Used()), f) ==> Spare(spaces, Used(), f)
      ensures halted ==> spaces == old(spaces) && Used() == old(Used()) && forall g :: 0 <= g < |Used()| ==> Used()[g]
      ensures Made(old(spaces), old(Used()), spaces, s, v, v + 1, owned)
    {
      hide Logged, Entry;
      Index(v);
      halted := false;
      var i := v / PER_TABLE;
      var sp := spaces[s];
      if sp.pd[i].Free? {
        var t := Acquire();
        if t < 0 {
          return true;
        }
        var sp' := WithTable(sp, i, Page(t, owned));
        TableMade(sp, i, Page(t, owned));
        OneSpace(spaces, s, sp', Table(s, i));
        ghost var old0 := spaces;
        spaces := spaces[s := sp'];
        assert Held(spaces, Table(s, i)) == t;
        GoodTakes(old0, old(Used()), spaces, Used(), Table(s, i));
      }
      TouchesPage(v);
    }

    /** vmm_add_page_to_pd, for a page of the user range: maps page `v` unless it is mapped.
        `halted` stands for the panic when no frame is left for a page table. */
    method AddPage(s: nat, v: nat, frame: nat, owned: bool) returns (halted: bool, ok: bool)
      requires Sound() && s < |spaces| && v < PAGES && (owned ==> Spare(spaces, Used(), frame))
      modifies `spaces, `log, frames.data
      ensures old(log) <= log
      ensures Sound() && MappingOnly(old(spaces), spaces, s, v, v + 1) && spaces[s].vmap == old(spaces[s].vmap)
      ensures spaces[s].brkBegin == old(spaces[s].brkBegin) && spaces[s].brkNext == old(spaces[s].brkNext)
      ensures !halted ==> (ok <==> Entry(old(spaces[s]), v).Free?)
      ensures !halted && ok ==> Entry(spaces[s], v) == Page(frame, owned)
      ensures halted || !ok ==> Entry(spaces[s], v) == Entry(old(spaces[s]), v)
      ensures TablesTaken(old(spaces), old(Used()), spaces, Used())
      ensures forall f: nat :: Spare(old(spaces), old(Used()), f) && (owned ==> f != frame) ==> Spare(spaces, Used(), f)
      ensures halted ==> forall g :: 0 <= g < |Used()| ==> Used()[g]
      ensures Made(old(spaces), old(Used()), spaces, s, v, v + 1, owned)
    {
      hide Logged, Entry;
      Index(v);
      ok := false;
      halted := EnsureTable(s, v, owned);
      if halted {
        return;
      }
      EntryIs(spaces[s], v);
      if spaces[s].tables[v / PER_TABLE][v % PER_TABLE].Page? {
        return;
      }
      SetLeaf(s, v, frame, owned);
      ok := true;
    }

    /** The entry of a page that is not mapped is set. */
    method SetLeaf(s: nat, v: nat, frame: nat, owned: bool)
      requires Sound() && s < |spaces| && v < PAGES && (owned ==> Spare(spaces, Used(), frame))
      requires v / PER_TABLE < PER_TABLE && spaces[s].pd[v / PER_TABLE].Page? && Entry(spaces[s], v).Free?
      modifies `spaces
      ensures Sound() && MappingOnly(old(spaces), spaces, s, v, v + 1) && spaces[s].vmap == old(spaces[s].vmap)
      ensures spaces[s].brkBegin == old(spaces[s].brkBegin) && spaces[s].brkNext == old(spaces[s].brkNext)
      ensures Entry(spaces[s], v) == Page(frame, owned)
      ensures forall p :: p != Leaf(s, v) ==> Held(spaces, p) == Held(old(spaces), p)
      ensures Held(spaces, Leaf(s, v)) == if owned then frame else -1
      ensures spaces[s].pd == old(spaces[s].pd)
    {
      hide Logged, Entry;
      var sp := spaces[s];
      var sp' := WithLeaf(sp, v, Page(frame, owned));
      LeafSet(sp, v, Page(frame, owned));
      OneSpace(spaces, s, sp', Leaf(s, v));
      ghost var before := spaces;
      spaces := spaces[s := sp'];
      assert Held(spaces, Leaf(s, v)) == if owned then frame else -1;
      GoodTakes(before, Used(), spaces, Used(), Leaf(s, v));
    }

    lemma EntryIs(sp: Space, v: nat)
      requires Shape(sp) && v < PAGES
      ensures v / PER_TABLE < PER_TABLE && v % PER_TABLE < PER_TABLE
      ensures Entry(sp, v) == if sp.pd[v / PER_TABLE].Free? then Free else sp.tables[v / PER_TABLE][v % PER_TABLE]
    {
      Index(v);
    }

    /** vmm_remove_page_from_pd, for a page of the user range. */
    method RemovePage(s: nat, v: nat) returns (ok: bool)
      requires Sound() && s < |spaces| && v < PAGES
      modifies `spaces, `log, frames.data
      ensures old(log) <= log
      ensures Sound() && MappingOnly(old(spaces), spaces, s, v, v + 1) && spaces[s].vmap == old(spaces[s].vmap)
      ensures spaces[s].brkBegin == old(spaces[s].brkBegin) && spaces[s].brkNext == old(spaces[s].brkNext)
      ensures Entry(spaces[s], v).Free? && Gives(old(spaces), old(Used()), spaces, Used())
      ensures Dropped(old(spaces), spaces, s, v, v + 1) && v / PER_TABLE < PER_TABLE && Busy(spaces[s], v / PER_TABLE)
      ensures forall k :: 0 <= k < PER_TABLE && k != v / PER_TABLE ==> spaces[s].tables[k] == old(spaces[s].tables[k])
    {
      hide Logged, Entry;
      EntryIs(spaces[s], v);
      GivesNothing(spaces, Used());
      TouchesPage(v);
      var i := v / PER_TABLE;
      if spaces[s].pd[i].Free? {
        return false;
      }
      ClearLeaf(s, v);
      var empty := IsEmpty(spaces[s].tables[i]);
      if empty && spaces[s].pd[i].owned {
        ghost var s1, u1 := spaces, Used();
        DropTable(s, i);
        GivesMore(old(spaces), old(Used()), s1, u1, spaces, Used());
      }
      ok := true;
    }

    /** A page table without a mapping? */
    method IsEmpty(t: seq<Pte>) returns (all: bool)
      ensures all <==> forall j :: 0 <= j < |t| ==> t[j].Free?
    {
      var i := 0;
      while i < |t|
        invariant 0 <= i <= |t| && forall j :: 0 <= j < i ==> t[j].Free?
      {
        if t[i].Page? {
          return false;
        }
        i := i + 1;
      }
      all := true;
    }

    /** The entry of a page is cleared; its frame is released if it is owned. */
    method ClearLeaf(s: nat, v: nat)
      requires Sound() && s < |spaces| && v < PAGES && v / PER_TABLE < PER_TABLE && spaces[s].pd[v / PER_TABLE].Page?
      modifies `spaces, `log, frames.data
      ensures old(log) <= log
      ensures Sound() && MappingOnly(old(spaces), spaces, s, v, v + 1) && spaces[s].vmap == old(spaces[s].vmap)
      ensures spaces[s].brkBegin == old(spaces[s].brkBegin) && spaces[s].brkNext == old(spaces[s].brkNext)
      ensures Entry(spaces[s], v).Free? && spaces[s].pd == old(spaces[s].pd)
        && Gives(old(spaces), old(Used()), spaces, Used())
      ensures spaces[s] == WithLeaf(old(spaces[s]), v, Free)
    {
      hide Logged, Entry;
      ghost var s0, u0 := spaces, Used();
      var sp := spaces[s];
      EntryIs(sp, v);
      var e := sp.tables[v / PER_TABLE][v % PER_TABLE];
      assert Held(s0, Leaf(s, v)) == Own(s0, Leaf(s, v)) == if e.Page? && e.owned then e.frame else -1;
      if e.Page? && e.owned {
        Release(e.frame);
      }
      var sp' := WithLeaf(sp, v, Free);
      LeafSet(sp, v, Free);
      OneSpace(spaces, s, sp', Leaf(s, v));
      spaces := spaces[s := sp'];
      GoodDrops(s0, u0, spaces, Used(), Leaf(s, v));
      GivesAt(s0, u0, spaces, Used(), Leaf(s, v));
    }

    /** An empty page table is taken out of the directory; its frame is released if it is owned. */
    method DropTable(s: nat, i: nat)
      requires Sound() && s < |spaces| && i < PER_TABLE && spaces[s].pd[i].Page?
      requires forall j :: 0 <= j < |spaces[s].tables[i]| ==> spaces[s].tables[i][j].Free?
      modifies `spaces, `log, frames.data
      ensures old(log) <= log
      ensures Sound() && MappingOnly(old(spaces), spaces, s, 0, 0) && spaces[s].vmap == old(spaces[s].vmap)
      ensures spaces[s].brkBegin == old(spaces[s].brkBegin) && spaces[s].brkNext == old(spaces[s].brkNext)
      ensures spaces[s].pd == old(spaces[s].pd)[i := Free] && spaces[s].tables == old(spaces[s].tables)
      ensures Gives(old(spaces), old(Used()), spaces, Used())
    {
      hide Logged, Entry;
      ghost var s0, u0 := spaces, Used();
      var sp := spaces[s];
      assert Held(s0, Table(s, i)) == sp.pd[i].frame;
      if sp.pd[i].owned {
        Release(sp.pd[i].frame);
      }
      var sp' := WithoutTable(sp, i);
      TableDropped(sp, i);
      OneSpace(spaces, s, sp', Table(s, i));
      spaces := spaces[s := sp'];
      GoodDrops(s0, u0, spaces, Used(), Table(s, i));
      GivesAt(s0, u0, spaces, Used(), Table(s, i));
    }

    /** Looks for `need` free pages side by side, from `from` on. */
    method FindRun(m: seq<bool>, from: nat, need: nat) returns (found: bool, v: nat)
      requires |m| == PAGES && need > 0
      ensures found ==> from <= v && FreeRun(m, v, need) && forall w :: from <= w < v ==> !FreeRun(m, w, need)
      ensures !found ==> forall w :: from <= w ==> !FreeRun(m, w, need)
    {
      var n := 0;
      v := 0;
      if from >= USER_END {
        return false, 0;
      }
      var at := from;
      while at < USER_END
        invariant from <= at <= USER_END && n < need && Scanning(m, from, at, n, need) && (n > 0 ==> v == at - n)
        invariant forall w :: from <= w && w + need <= at ==> !FreeRun(m, w, need)
      {
        if m[at] {
          n, v := 0, 0;
        } else {
          if n == 0 {
            v := at;
          }
          n := n + 1;
        }
        if n == need {
          forall w | from <= w < v ensures !FreeRun(m, w, need) {
            assert w + need <= at;
          }
          return true, v;
        }
        forall w | from <= w && w + need <= at + 1 ensures !FreeRun(m, w, need) {
          if w + need == at + 1 {
            if m[at] {
              assert w <= at < w + need;
            } else {
              NoEarlier(m, from, at + 1, n, need, w);
            }
          }
        }
        at := at + 1;
      }
      found := false;
    }

    /** The caller's frames from number `k` on may be mapped as owned. */
    ghost predicate Mappable(parr: seq<nat>, k: nat, own: bool)
      requires Shapes(spaces)
      reads this, frames.data
    {
      own ==>
        && (forall i :: k <= i < |parr| ==> Spare(spaces, Used(), parr[i]))
        && forall i, j :: k <= i < j < |parr| ==> parr[i] != parr[j]
    }

    /** In the loop of vmm_map_memory, `i` pages from `v` on are mapped. */
    ghost predicate Mapping(s0: seq<Space>, u0: seq<bool>, s: nat, v: nat, i: nat, parr: seq<nat>, own: bool)
      reads this, frames.data
    {
      && Sound() && MappingOnly(s0, spaces, s, v, v + i) && i <= |parr| && v + i <= PAGES
      && (forall w :: v <= w < v + i ==> Entry(spaces[s], w) == Page(parr[w - v], own))
      && spaces[s].vmap == Fill(s0[s].vmap, v, v + i, true)
      && spaces[s].brkBegin == s0[s].brkBegin && spaces[s].brkNext == s0[s].brkNext
      && TablesTaken(s0, u0, spaces, Used()) && Mappable(parr, i, own)
      && SparesKept(s0, u0, spaces, Used(), if own then parr else []) && Made(s0, u0, spaces, s, v, v + i, own)
    }

    /** One page of vmm_map_memory. */
    method MapOne(s: nat, v: nat, i: nat, parr: seq<nat>, own: bool, ghost s0: seq<Space>, ghost u0: seq<bool>)
        returns (halted: bool)
      requires Mapping(s0, u0, s, v, i, parr, own) && i < |parr| && v + i < PAGES && Entry(s0[s], v + i).Free?
      modifies `spaces, `log, frames.data
      ensures old(log) <= log
      ensures !halted ==> Mapping(s0, u0, s, v, i + 1, parr, own)
      ensures halted ==> forall g :: 0 <= g < |Used()| ==> Used()[g]
    {
      hide Logged, Spare, Made, Entry, Gives, Held, Own;
      ghost var s1, u1 := spaces, Used();
      var ok;
      halted, ok := AddPage(s, v + i, parr[i], own);
      if halted {
        return;
      }
      TablesMore(s0, u0, s1, u1, spaces, Used());
      MadeMore(s0, u0, s1, u1, spaces, s, v, v + i, own);
      ghost var s2 := spaces;
      SetBit(s, v + i, true);
      MadeSame(s0, u0, s2, spaces, s, v, v + i + 1, own);
      SpareSame(s2, spaces, Used());
      FillMore(s0[s].vmap, v, v + i, true);
    }

    /** SET_PAGEFRAME_USED and SET_PAGEFRAME_UNUSED on the bitmap of a process. */
    method SetBit(s: nat, v: nat, on: bool)
      requires Shapes(spaces) && s < |spaces| && v < PAGES
      modifies `spaces
      ensures spaces == old(spaces)[s := old(spaces[s]).(vmap := old(spaces[s].vmap)[v := on])] && Shapes(spaces)
      ensures forall w :: 0 <= w < PAGES ==> Entry(spaces[s], w) == Entry(old(spaces[s]), w)
      ensures forall p :: Held(spaces, p) == Held(old(spaces), p) && Own(spaces, p) == Own(old(spaces), p)
      ensures forall p :: At(spaces, p) == At(old(spaces), p)
    {
      var sp := spaces[s].(vmap := spaces[s].vmap[v := on]);
      spaces := spaces[s := sp];
    }

    /** vmm_map_memory. `halted` stands for the panic when no frame is left for a page table. */
    method MapMemory(s: nat, from: nat, parr: seq<nat>, own: bool) returns (halted: bool, found: bool, v: nat)
      requires Sound() && s < |spaces| && Mirror(spaces[s]) && Mappable(parr, 0, own)
      modifies `spaces, `log, frames.data
      ensures old(log) <= log
      ensures parr == [] ==> !halted && !found
      ensures !halted && !found ==> spaces == old(spaces) && Used() == old(Used())
      ensures !found && parr != [] ==> forall w :: from <= w ==> !FreeRun(old(spaces[s].vmap), w, |parr|)
      ensures found ==> from <= v && FreeRun(old(spaces[s].vmap), v, |parr|) && forall w :: from <= w < v ==>
        !FreeRun(old(spaces[s].vmap), w, |parr|)
      ensures halted ==> found && forall g :: 0 <= g < |Used()| ==> Used()[g]
      ensures !halted ==> Sound() && s < |spaces| && Mirror(spaces[s])
      ensures !halted && found ==> Mapping(old(spaces), old(Used()), s, v, |parr|, parr, own)
    {
      hide Logged, Entry, Gives, Held, Own, Fill;
      halted, found, v := false, false, 0;
      if parr == [] {
        return;
      }
      found, v := FindRun(spaces[s].vmap, from, |parr|);
      if !found {
        return;
      }
      ghost var s0, u0 := spaces, Used();
      RunIsUser(spaces[s], v, |parr|);
      TablesNone(spaces, Used());
      MadeNone(spaces, Used(), s, v, own);
      FillNone(s0[s].vmap, v);
      var i := 0;
      while i < |parr|
        invariant i <= |parr| && Mapping(s0, u0, s, v, i, parr, own)
        invariant old(log) <= log
      {
        halted := MapOne(s, v, i, parr, own, s0, u0);
        if halted {
          return;
        }
        i := i + 1;
      }
      MirrorFilled(s0[s], spaces[s], v, |parr|, true);
    }

    /** In the loop of vmm_unmap_memory, `i` pages from `v` on are unmapped. */
    ghost predicate Unmapping(s0: seq<Space>, u0: seq<bool>, s: nat, v: nat, i: nat)
      reads this, frames.data
    {
      && Sound() && MappingOnly(s0, spaces, s, v, v + i) && v + i <= PAGES
      && (forall w :: v <= w < v + i ==> Entry(spaces[s], w).Free?)
      && spaces[s].vmap == Fill(s0[s].vmap, v, v + i, false)
      && spaces[s].brkBegin == s0[s].brkBegin && spaces[s].brkNext == s0[s].brkNext
      && Gives(s0, u0, spaces, Used())
      && Dropped(s0, spaces, s, v, v + i) && |s0[s].vmap| == PAGES
      && forall w :: v <= w < v + i && s0[s].vmap[w] ==> w / PER_TABLE < PER_TABLE && Busy(spaces[s], w / PER_TABLE)
    }

    /** One page of vmm_unmap_memory. */
    method UnmapOne(s: nat, v: nat, i: nat, ghost s0: seq<Space>, ghost u0: seq<bool>) returns (was: bool)
      requires Unmapping(s0, u0, s, v, i) && v + i < PAGES && Mirror(s0[s]) && InUser(v + i)
      modifies `spaces, `log, frames.data
      ensures old(log) <= log
      ensures Unmapping(s0, u0, s, v, i + 1) && was == s0[s].vmap[v + i]
    {
      hide Logged, Entry, Held, Own;
      FillMore(s0[s].vmap, v, v + i, false);
      was := spaces[s].vmap[v + i];
      if was {
        ghost var s1, u1 := spaces, Used();
        var _ := RemovePage(s, v + i);
        ghost var s2 := spaces;
        GivesMore(s0, u0, s1, u1, s2, Used());
        SetBit(s, v + i, false);
        GivesSame(s0, u0, s2, Used(), spaces);
      } else {
        assert Entry(s0[s], v + i).Free?;
        assert spaces[s].vmap[v + i := false] == spaces[s].vmap;
      }
    }

    /** vmm_unmap_memory, for a range of user pages. */
    method UnmapMemory(s: nat, v: nat, n: nat) returns (result: bool)
      requires Sound() && s < |spaces| && Mirror(spaces[s]) && USER_FIRST <= v && v + n <= USER_END
      modifies `spaces, `log, frames.data
      ensures old(log) <= log
      ensures Sound() && Unmapping(old(spaces), old(Used()), s, v, n) && Mirror(spaces[s])
      ensures result <==> exists w :: v <= w < v + n && old(spaces[s]).vmap[w]
    {
      hide Logged, Entry, Held, Own, Fill;
      ghost var s0, u0 := spaces, Used();
      GivesNothing(spaces, Used());
      FillNone(s0[s].vmap, v);
      result := false;
      var i := 0;
      while i < n
        invariant 0 <= i <= n && Unmapping(s0, u0, s, v, i)
        invariant old(log) <= log
        invariant result <==> exists w :: v <= w < v + i && s0[s].vmap[w]
      {
        var was := UnmapOne(s, v, i, s0, u0);
        if was {
          result := true;
        }
        i := i + 1;
      }
      MirrorFilled(s0[s], spaces[s], v, n, false);
    }

    /** Directory entries of process `s` from `lo` to `hi` - 1 are cleared, and nothing else of it. */
    ghost predicate Cleared(s0: seq<Space>, u0: seq<bool>, s: nat, lo: nat, hi: nat)
      reads this, frames.data
    {
      && Sound() && Shapes(s0) && s < |s0| == |spaces|
      && (forall r :: 0 <= r < |s0| && r != s ==> spaces[r] == s0[r])
      && (forall i :: 0 <= i < PER_TABLE ==> spaces[s].pd[i] == if lo <= i < hi then Free else s0[s].pd[i])
      && (forall i :: 0 <= i < PER_TABLE && !(lo <= i < hi) ==> spaces[s].tables[i] == s0[s].tables[i])
      && spaces[s].vmap == s0[s].vmap && spaces[s].brkBegin == s0[s].brkBegin && spaces[s].brkNext == s0[s].brkNext
      && Gives(s0, u0, spaces, Used())
    }

    /** vmm_destroy_page_directory_with_memory. */
    method DestroyDirectory(s: nat)
      requires Sound() && s < |spaces|
      modifies `spaces, `log, frames.data
      ensures old(log) <= log
      ensures Cleared(old(spaces), old(Used()), s, TABLE_FIRST, TABLE_END)
      ensures forall v :: 0 <= v < PAGES && InUser(v) ==> Entry(spaces[s], v).Free?
    {
      hide Logged, Held, Own;
      ghost var s0, u0 := spaces, Used();
      GivesNothing(spaces, Used());
      var i := TABLE_FIRST;
      while i < TABLE_END
        invariant TABLE_FIRST <= i <= TABLE_END && Cleared(s0, u0, s, TABLE_FIRST, i)
        invariant old(log) <= log
      {
        if spaces[s].pd[i].Page? {
          ghost var s1, u1 := spaces, Used();
          EmptyTable(s, i);
          ghost var s2, u2 := spaces, Used();
          DropTable(s, i);
          GivesMore(s1, u1, s2, u2, spaces, Used());
          GivesMore(s0, u0, s1, u1, spaces, Used());
        }
        i := i + 1;
      }
    }

    /** The entries of one page table are cleared, releasing the frames they own. */
    method EmptyTable(s: nat, i: nat)
      requires Sound() && s < |spaces| && i < PER_TABLE && spaces[s].pd[i].Page?
      modifies `spaces, `log, frames.data
      ensures old(log) <= log
      ensures Sound() && |spaces| == old(|spaces|) && Gives(old(spaces), old(Used()), spaces, Used())
      ensures forall r :: 0 <= r < |spaces| && r != s ==> spaces[r] == old(spaces[r])
      ensures spaces[s].pd == old(spaces[s].pd) && forall k :: 0 <= k < PER_TABLE && k != i ==>
        spaces[s].tables[k] == old(spaces[s].tables[k])
      ensures forall j :: 0 <= j < PER_TABLE ==> spaces[s].tables[i][j].Free?
      ensures spaces[s] == old(spaces[s]).(tables := spaces[s].tables)
    {
      hide Logged, Entry, Held, Own;
      ghost var s0, u0 := spaces, Used();
      GivesNothing(spaces, Used());
      var j := 0;
      while j < PER_TABLE
        invariant 0 <= j <= PER_TABLE && Sound() && |spaces| == |s0| && Gives(s0, u0, spaces, Used())
        invariant old(log) <= log
        invariant forall r :: 0 <= r < |spaces| && r != s ==> spaces[r] == s0[r]
        invariant spaces[s].pd == s0[s].pd && forall k :: 0 <= k < PER_TABLE && k != i ==>
          spaces[s].tables[k] == s0[s].tables[k]
        invariant forall m :: 0 <= m < j ==> spaces[s].tables[i][m].Free?
        invariant spaces[s] == s0[s].(tables := spaces[s].tables)
      {
        ghost var s1, u1 := spaces, Used();
        PageOf(i, j);
        ClearLeaf(s, PER_TABLE * i + j);
        GivesMore(s0, u0, s1, u1, spaces, Used());
        j := j + 1;
      }
    }

    lemma PageOf(i: nat, j: nat)
      requires i < PER_TABLE && j < PER_TABLE
      ensures (PER_TABLE * i + j) / PER_TABLE == i && (PER_TABLE * i + j) % PER_TABLE == j && PER_TABLE * i + j < PAGES
    {
    }

    /** The program break of a process lies in the user range. */
    ghost predicate BreakOk(s: nat)
      requires s < |spaces|
      reads `spaces
    {
      USER_FIRST <= spaces[s].brkBegin <= spaces[s].brkNext < USER_END
    }

    /** Growth of the break by one page: `halted` stands for the panic, `more` for going on.
        A frame whose address reads as a negative number is kept in use, but not mapped. */
    method BreakUp(s: nat) returns (halted: bool, more: bool, ghost lost: int)
      requires Sound() && s < |spaces| && Mirror(spaces[s]) && BreakOk(s)
      modifies `spaces, `log, frames.data
      ensures old(log) <= log
      ensures halted ==> forall g :: 0 <= g < |Used()| ==> Used()[g]
      ensures !halted ==> Sound() && |spaces| == old(|spaces|) && Mirror(spaces[s]) && BreakOk(s)
      ensures !halted ==> SparesKept(old(spaces), old(Used()), spaces, Used(), [])
      ensures !halted && !more ==> spaces == old(spaces)
      ensures !halted && !more && old(spaces[s].brkNext) + 1 == USER_END ==> lost == -1 && Used() == old(Used())
      ensures !halted && !more && old(spaces[s].brkNext) + 1 < USER_END ==> Lost(lost)
      ensures more ==> lost == -1 && LowFree(old(Used()))
      ensures !halted && more ==>
        var v := old(spaces[s].brkNext);
        && v + 1 < USER_END && spaces[s].brkNext == v + 1 && spaces[s].brkBegin == old(spaces[s].brkBegin)
        && MappingOnly(old(spaces), spaces, s, v, v + 1) && spaces[s].vmap == old(spaces[s].vmap)[v := true]
        && Entry(spaces[s], v).Page? && (Entry(old(spaces[s]), v).Page? ==>
          Entry(spaces[s], v) == Entry(old(spaces[s]), v))
      ensures !halted && Tidy(old(spaces[s])) ==> Tidy(spaces[s])
    {
      hide Made, Tidy, Logged, Entry, Gives, Own, Held;
      halted, more, lost := false, false, -1;
      var v := spaces[s].brkNext;
      if v + 1 > USER_END - 1 {
        return;
      }
      ghost var s0, u0 := spaces, Used();
      var p := Acquire();
      if p < 0 {
        halted := true;
        return;
      }
      AcquiredSpare(spaces, u0, Used(), p);
      SparesPast(s0, u0, p, spaces, Used(), spaces);
      if FRAME * p >= 0x8000_0000 {
        lost := p;
        return;
      }
      var ok;
      halted, ok := AddPage(s, v, p, true);
      if halted {
        return;
      }
      ghost var s1 := spaces;
      SetBit(s, v, true);
      ghost var s2 := spaces;
      spaces := spaces[s := spaces[s].(brkNext := v + 1)];
      SameHeld(s2, spaces, s);
      BreakMoved(s0, spaces, s, v, true);
      SparesPast(s0, u0, p, s1, Used(), spaces);
      TidyUp(s0, u0[p := true], s1, spaces, s, v);
      more := true;
    }

    /** Frame `f` is in use, but held by nobody, and every frame below 2 GiB is in use. */
    ghost predicate Lost(f: int)
      requires Shapes(spaces)
      reads this, frames.data
    {
      f >= LOW_FRAMES && Spare(spaces, Used(), f) && !LowFree(Used())
    }

    /** The break goes down by one page. */
    method BreakDown(s: nat)
      requires Sound() && s < |spaces| && Mirror(spaces[s]) && BreakOk(s) && spaces[s].brkBegin < spaces[s].brkNext
      modifies `spaces, `log, frames.data
      ensures old(log) <= log
      ensures Sound() && |spaces| == old(|spaces|) && Mirror(spaces[s]) && BreakOk(s)
      ensures var v := old(spaces[s].brkNext) - 1;
        && spaces[s].brkNext == v && spaces[s].brkBegin == old(spaces[s].brkBegin)
        && MappingOnly(old(spaces), spaces, s, v, v + 1) && spaces[s].vmap == old(spaces[s].vmap)[v := false]
        && Entry(spaces[s], v).Free? && Gives(old(spaces), old(Used()), spaces, Used())
      ensures Tidy(old(spaces[s])) ==> Tidy(spaces[s])
    {
      hide Dropped, Busy, Tidy, Logged, Entry, Own, Held;
      ghost var s0, u0 := spaces, Used();
      var v := spaces[s].brkNext - 1;
      spaces := spaces[s := spaces[s].(brkNext := v)];
      SameHeld(s0, spaces, s);
      ghost var s1 := spaces;
      var _ := RemovePage(s, v);
      ghost var s2 := spaces;
      TidyDown(s0, s1, s2, s, v);
      SetBit(s, v, false);
      TidySame(s2, spaces, s);
      GivesSame(s1, u0, s2, Used(), spaces);
      GivesFrom(s0, s1, u0, spaces, Used());
      BreakMoved(s0, spaces, s, v, false);
    }

    /** While the break goes up: `i` pages so far. */
    ghost predicate Rising(s0: seq<Space>, u0: seq<bool>, s: nat, i: nat)
      reads this, frames.data
    {
      && Sound() && Shapes(s0) && s < |spaces| == |s0| && Mirror(spaces[s]) && BreakOk(s)
      && spaces[s].brkBegin == s0[s].brkBegin && spaces[s].brkNext == s0[s].brkNext + i
      && (forall v :: s0[s].brkNext <= v < spaces[s].brkNext ==> Entry(spaces[s], v).Page?)
      && MappingOnly(s0, spaces, s, s0[s].brkNext, spaces[s].brkNext)
      && SparesKept(s0, u0, spaces, Used(), []) && (i > 0 || LowFree(Used()) ==> LowFree(u0))
      && (Tidy(s0[s]) ==> Tidy(spaces[s]))
    }

    /** While the break goes down: `i` pages so far, if there are as many. */
    ghost predicate Sinking(s0: seq<Space>, u0: seq<bool>, s: nat, i: nat)
      reads this, frames.data
    {
      && Sound() && Shapes(s0) && s < |spaces| == |s0| && Mirror(spaces[s]) && BreakOk(s)
      && spaces[s].brkBegin == s0[s].brkBegin
      && spaces[s].brkNext == (if s0[s].brkNext - i >= s0[s].brkBegin then s0[s].brkNext - i else s0[s].brkBegin)
      && s0[s].brkNext < USER_END && (forall v :: spaces[s].brkNext <= v < s0[s].brkNext ==> Entry(spaces[s], v).Free?)
      && MappingOnly(s0, spaces, s, spaces[s].brkNext, s0[s].brkNext)
      && Gives(s0, u0, spaces, Used()) && (Tidy(s0[s]) ==> Tidy(spaces[s]))
    }

    /** sbrk_page. The break goes down as far as it can. It goes up as far as the user range
        goes, and stops short exactly when a frame had to be given up, which happens when no
        frame below 2 GiB is left. */
    method SbrkPage(s: nat, count: int) returns (halted: bool, ghost lost: int)
      requires Sound() && s < |spaces| && Mirror(spaces[s]) && BreakOk(s)
      modifies `spaces, `log, frames.data
      ensures old(log) <= log
      ensures halted ==> count > 0 && forall g :: 0 <= g < |Used()| ==> Used()[g]
      ensures !halted && count >= 0 ==>
        var last := if old(spaces[s].brkNext) + count < USER_END then old(spaces[s].brkNext) + count else USER_END - 1;
        && s < |spaces| && old(spaces[s].brkNext) <= spaces[s].brkNext <= last
        && Rising(old(spaces), old(Used()), s, spaces[s].brkNext - old(spaces[s].brkNext))
        && (spaces[s].brkNext < last <==> lost >= 0) && (lost >= 0 ==> Lost(lost))
      ensures !halted && count < 0 ==> Sinking(old(spaces), old(Used()), s, -count)
    {
      hide Tidy, Logged, Entry, Own, Held, Mirror, Gives;
      ghost var s0, u0 := spaces, Used();
      halted, lost := false, -1;
      var i := 0;
      if count > 0 {
        while i < count
          invariant 0 <= i <= count && Rising(s0, u0, s, i) && !halted && lost == -1
          invariant old(log) <= log
        {
          var more;
          halted, more, lost := RiseOne(s, i, s0, u0);
          if halted || !more {
            return;
          }
          i := i + 1;
        }
      } else if count < 0 {
        GivesNothing(spaces, Used());
        while i < -count
          invariant 0 <= i <= -count && Sinking(s0, u0, s, i) && !halted
          invariant old(log) <= log
        {
          if spaces[s].brkNext - 1 >= spaces[s].brkBegin {
            SinkOne(s, i, s0, u0);
          }
          i := i + 1;
        }
      }
    }

    method RiseOne(s: nat, i: nat, ghost s0: seq<Space>, ghost u0: seq<bool>)
        returns (halted: bool, more: bool, ghost lost: int)
      requires Rising(s0, u0, s, i)
      modifies `spaces, `log, frames.data
      ensures old(log) <= log
      ensures halted ==> forall g :: 0 <= g < |Used()| ==> Used()[g]
      ensures !halted ==> Rising(s0, u0, s, if more then i + 1 else i)
      ensures !halted && more ==> lost == -1
      ensures !halted && !more ==> if s0[s].brkNext + i + 1 == USER_END then lost == -1 else Lost(lost)
    {
      hide Tidy, Logged, Entry, Own, Held, Mirror, Gives, Spare, LowFree;
      halted, more, lost := BreakUp(s);
    }

    method SinkOne(s: nat, i: nat, ghost s0: seq<Space>, ghost u0: seq<bool>)
      requires Sinking(s0, u0, s, i) && spaces[s].brkBegin < spaces[s].brkNext
      modifies `spaces, `log, frames.data
      ensures old(log) <= log
      ensures Sinking(s0, u0, s, i + 1)
    {
      hide Tidy, Logged, Entry, Own, Held, Mirror, Gives;
      ghost var s1, u1 := spaces, Used();
      BreakDown(s);
      GivesMore(s0, u0, s1, u1, spaces, Used());
    }

    /** vmm_initialize_process_pages: everything is taken but the user range. */
    static method FreshMap() returns (m: seq<bool>)
      ensures |m| == PAGES && forall v :: 0 <= v < PAGES ==> m[v] == !InUser(v)
    {
      m := seq(PAGES, _ => true);
      var page := USER_FIRST;
      while page < USER_END
        invariant USER_FIRST <= page <= USER_END && m == Fill(seq(PAGES, _ => true), USER_FIRST, page, false)
      {
        FillMore(seq(PAGES, _ => true), USER_FIRST, page, false);
        m := m[page := false];
        page := page + 1;
      }
    }

    /** A new process: an empty page directory and nothing mapped. */
    method NewSpace() returns (s: nat)
      requires Sound()
      modifies `spaces
      ensures s == old(|spaces|) && |spaces| == s + 1 && spaces[..s] == old(spaces)
      ensures Sound() && SparesKept(old(spaces), Used(), spaces, Used(), [])
      ensures forall p :: Held(spaces, p) == Held(old(spaces), p)
      ensures |spaces[s].vmap| == 0x10_0000
        && forall v :: 0 <= v < 0x10_0000 ==> (spaces[s].vmap[v] <==> !(0x4_0000 <= v < 0xF_FC00))
      ensures Mirror(spaces[s]) && BreakOk(s) && Tidy(spaces[s]) && forall v :: 0 <= v < PAGES ==>
        Entry(spaces[s], v).Free?
    {
      s := |spaces|;
      var m := FreshMap();
      var sp := Space(NoPages(), seq(PER_TABLE, _ => NoPages()), m, USER_FIRST, USER_FIRST);
      ghost var s0 := spaces;
      spaces := spaces + [sp];
      NewHolds(s0, spaces);
      assert Mirror(sp);
    }
  }

  lemma {:induction false} FillMore(m: seq<bool>, lo: nat, hi: nat, on: bool)
    requires lo <= hi < |m|
    ensures Fill(m, lo, hi, on)[hi := on] == Fill(m, lo, hi + 1, on)
  {
  }

  lemma FillNone(m: seq<bool>, lo: nat)
    ensures forall on :: Fill(m, lo, lo, on) == m
  {
  }

  /** Free pages are pages of the user range that are not mapped. */
  lemma RunIsUser(sp: Space, v: nat, n: nat)
    requires Shape(sp) && Mirror(sp) && FreeRun(sp.vmap, v, n)
    ensures v + n <= PAGES && forall w :: v <= w < v + n ==> InUser(w) && Entry(sp, w).Free?
  {
    forall w | v <= w < v + n ensures InUser(w) && Entry(sp, w).Free? {
      assert !sp.vmap[w];
    }
  }

  /** The bitmap stays a mirror when mappings and bits change together, in the user range. */
  lemma {:induction false} MirrorFilled(sp: Space, sp': Space, v: nat, n: nat, on: bool)
    requires Shape(sp) && Shape(sp') && Mirror(sp) && sp'.vmap == Fill(sp.vmap, v, v + n, on)
    requires v + n <= PAGES && forall w :: v <= w < v + n ==> InUser(w) && Entry(sp', w).Page? == on
    requires forall w :: 0 <= w < PAGES && !(v <= w < v + n) ==> Entry(sp', w) == Entry(sp, w)
    ensures Mirror(sp')
  {
    hide Entry;
    forall w | 0 <= w < PAGES ensures sp'.vmap[w] <==> !InUser(w) || Entry(sp', w).Page? {
    }
  }

  /** A frame just acquired is held by nobody. */
  lemma AcquiredSpare(spaces: seq<Space>, used: seq<bool>, used': seq<bool>, f: nat)
    requires Good(spaces, used) && f < |used| && !used[f] && used' == used[f := true]
    ensures Good(spaces, used') && Spare(spaces, used', f)
  {
  }

  /** Fields of a process other than its tables hold nothing. */
  lemma SameHeld(spaces: seq<Space>, spaces': seq<Space>, s: nat)
    requires Shapes(spaces) && s < |spaces| == |spaces'| && forall r :: 0 <= r < |spaces| && r != s ==>
      spaces'[r] == spaces[r]
    requires Shape(spaces'[s]) && spaces'[s].pd == spaces[s].pd && spaces'[s].tables == spaces[s].tables
    ensures Shapes(spaces') && forall p :: Held(spaces', p) == Held(spaces, p) && Own(spaces', p) == Own(spaces, p)
    ensures forall p :: At(spaces', p) == At(spaces, p)
    ensures forall w :: 0 <= w < PAGES ==> Entry(spaces'[s], w) == Entry(spaces[s], w)
  {
  }

  lemma GivesFrom(s0: seq<Space>, s1: seq<Space>, u0: seq<bool>, s2: seq<Space>, u2: seq<bool>)
    requires Gives(s1, u0, s2, u2) && Shapes(s0) && forall p :: Own(s1, p) == Own(s0, p) && Held(s1, p) == Held(s0, p)
    requires forall p :: At(s1, p) == At(s0, p)
    ensures Gives(s0, u0, s2, u2)
  {
    hide Own;
    forall f | 0 <= f < |u0| && u0[f] ensures !u2[f] <==> exists p :: LetGo(s0, s2, p, f) {
      if p :| LetGo(s1, s2, p, f) {
        assert LetGo(s0, s2, p, f);
      }
      if p :| LetGo(s0, s2, p, f) {
        assert LetGo(s1, s2, p, f);
      }
    }
  }

  /** One page changes together with its bit. */
  lemma {:induction false} BreakMoved(s0: seq<Space>, s1: seq<Space>, s: nat, v: nat, on: bool)
    requires MappingOnly(s0, s1, s, v, v + 1) && Mirror(s0[s]) && InUser(v)
    requires s1[s].vmap == s0[s].vmap[v := on] && Entry(s1[s], v).Page? == on
    ensures Mirror(s1[s])
  {
    hide Entry;
  }

  lemma NewHolds(s0: seq<Space>, s1: seq<Space>)
    requires Shapes(s0) && |s1| == |s0| + 1 && s1[..|s0|] == s0 && Shape(s1[|s0|])
    requires forall i :: 0 <= i < PER_TABLE ==> s1[|s0|].pd[i].Free?
    ensures Shapes(s1) && forall p :: Held(s1, p) == Held(s0, p)
  {
    assert forall s :: 0 <= s < |s0| ==> s1[s] == s1[..|s0|][s];
  }

  // ----- what the steps mean together -----

  /** Unmapping and destroying never release a frame that no entry owns, however it is mapped. */
  lemma {:induction false} UnownedKept(spaces: seq<Space>, used: seq<bool>, spaces': seq<Space>, used': seq<bool>,
      f: nat)
    requires Gives(spaces, used, spaces', used') && f < |used| && used[f] && forall p :: Own(spaces, p) != f
    ensures used'[f]
  {
  }

  /** A frame is released in the step that clears the one entry that owned it, and is then
      held by nobody, so that no later step can release it again. */
  lemma {:induction false} ReleasedOnce(spaces: seq<Space>, used: seq<bool>, spaces': seq<Space>, used': seq<bool>,
      f: nat)
    requires Good(spaces, used) && Good(spaces', used') && Gives(spaces, used, spaces', used')
    requires f < |used| && used[f] && !used'[f]
    ensures exists p :: LetGo(spaces, spaces', p, f) && forall q :: q != p ==> Held(spaces, q) != f
    ensures forall p :: Held(spaces', p) != f
  {
    var p :| LetGo(spaces, spaces', p, f);
    assert Held(spaces, p) == f;
  }

  /** Unmapping what was just mapped restores the bitmap and every mapping; frames mapped as
      owned are released, and frames that nobody owned are not. */
  lemma {:induction false} UnmapUndoesMap(s0: seq<Space>, u0: seq<bool>, s1: seq<Space>, u1: seq<bool>,
      s2: seq<Space>, u2: seq<bool>, s: nat, v: nat, parr: seq<nat>, own: bool)
    requires MappingOnly(s0, s1, s, v, v + |parr|) && MappingOnly(s1, s2, s, v, v + |parr|)
    requires Mirror(s0[s]) && FreeRun(s0[s].vmap, v, |parr|)
    requires s1[s].vmap == Fill(s0[s].vmap, v, v + |parr|, true) && s2[s].vmap == Fill(s1[s].vmap, v, v + |parr|, false)
    requires forall w :: v <= w < v + |parr| ==> Entry(s1[s], w) == Page(parr[w - v], own) && Entry(s2[s], w).Free?
    requires Good(s1, u1) && Gives(s1, u1, s2, u2)
    ensures s2[s].vmap == s0[s].vmap && forall w :: 0 <= w < PAGES ==> Entry(s2[s], w) == Entry(s0[s], w)
    ensures own ==> forall k :: 0 <= k < |parr| ==> parr[k] < |u2| && !u2[parr[k]]
    ensures !own ==> forall f: nat :: f < |u1| && u1[f] && (forall p :: Own(s1, p) != f) ==> u2[f]
  {
    hide Entry;
    RunIsUser(s0[s], v, |parr|);
    if own {
      forall k | 0 <= k < |parr| ensures parr[k] < |u2| && !u2[parr[k]] {
        var p := Leaf(s, v + k);
        assert Entry(s1[s], v + k) == Page(parr[k], own);
        assert Held(s1, p) == Own(s1, p) == parr[k];
        assert LetGo(s1, s2, p, parr[k]);
      }
    }
  }
}
