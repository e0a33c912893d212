/** The scheduler: threads in a linked list behind the idle thread, woken and picked in
    turn, with signals that end or stop what they are delivered to. */
module Scheduler {

  datatype State = Run | WaitIo | WaitChild | Sleep | Select | Suspend | Critical | Uninterruptible | Dead

  /** What the scheduler looks at in a thread: its state, the time it sleeps until, and
      whether what it selects on is ready. */
  datatype View = View(state: State, target: nat, selectDone: bool)

  /** The thread after its state was updated. */
  function Awake(t: View, now: nat): View {
    if (t.state == Sleep && now >= t.target) || (t.state == Select && t.selectDone) then t.(state := Run, target := 0)
      else t
  }

  /** Looks at the threads from `i` to `hi` - 1 until one can run: its index, or `hi`, and
      the threads as they are then. */
  function Scan(ts: seq<View>, i: nat, hi: nat, now: nat): (r: (nat, seq<View>))
    requires i <= hi <= |ts|
    ensures i <= r.0 <= hi && |r.1| == |ts|
    decreases hi - i
  {
    if i == hi then (hi, ts)
    else
      var ts1 := ts[i := Awake(ts[i], now)];
      if ts1[i].state == Run then (i, ts1) else Scan(ts1, i + 1, hi, now)
  }

  /** look_threads: behind the current thread first, then from the start up to it; the
      idle thread if none can run. */
  function Looked(ts: seq<View>, c: nat, now: nat): (r: (nat, seq<View>))
    requires c < |ts|
    ensures r.0 < |ts| && |r.1| == |ts|
  {
    var (r1, ts1) := Scan(ts, c + 1, |ts|, now);
    if r1 < |ts| then (r1, ts1)
    else if c == 0 then (0, ts1)
    else
      var (r2, ts2) := Scan(ts1, 1, c + 1, now);
      (if r2 <= c then r2 else 0, ts2)
  }

  /** A scan finds the first thread that can run, and updates the threads it passes. */
  lemma {:induction false} ScanFinds(ts: seq<View>, i: nat, hi: nat, now: nat)
    requires i <= hi <= |ts|
    ensures var (r, ts') := Scan(ts, i, hi, now);
      && (forall k :: i <= k < r ==> Awake(ts[k], now).state != Run)
      && (r < hi ==> Awake(ts[r], now).state == Run)
      && forall k :: 0 <= k < |ts| ==> ts'[k] == if i <= k < hi && k <= r then Awake(ts[k], now) else ts[k]
    decreases hi - i
  {
    if i < hi {
      var ts1 := ts[i := Awake(ts[i], now)];
      if ts1[i].state != Run {
        ScanFinds(ts1, i + 1, hi, now);
        forall k | i < k < Scan(ts, i, hi, now).0 ensures Awake(ts[k], now).state != Run {
          assert ts1[k] == ts[k];
        }
      }
    }
  }

  /** The idle thread is picked only when, after wake-ups, no other thread can run. */
  lemma {:induction false} IdleOnlyIfNone(ts: seq<View>, c: nat, now: nat)
    requires c < |ts|
    ensures Looked(ts, c, now).0 == 0 <==> forall k :: 1 <= k < |ts| ==> Awake(ts[k], now).state != Run
    ensures var (r, ts') := Looked(ts, c, now); r != 0 ==> ts'[r].state == Run
  {
    ScanFinds(ts, c + 1, |ts|, now);
    var (r1, ts1) := Scan(ts, c + 1, |ts|, now);
    if r1 == |ts| && c > 0 {
      ScanFinds(ts1, 1, c + 1, now);
    }
  }

  /** A thread that may run at time `now`: it is running, or slept until then, or selects on
      something that is ready. */
  predicate CanRun(t: View, now: nat) {
    t.state == Run || (t.state == Sleep && t.target <= now) || (t.state == Select && t.selectDone)
  }

  /** A thread whose time to wake up has not come. */
  predicate Sleeps(t: View, now: nat) {
    t.state == Sleep && t.target > now
  }

  /** From `ts` to `ts'` some of the threads that may run were woken, and nothing else changed. */
  ghost predicate WokenOnly(ts: seq<View>, ts': seq<View>, now: nat) {
    && |ts'| == |ts|
    && forall k :: 0 <= k < |ts| ==>
         ts'[k] == ts[k] || (CanRun(ts[k], now) && ts[k].state != Run && ts'[k] == View(Run, 0, ts[k].selectDone))
  }

  /** Thread `r` is the first behind thread `c` that may run, from the end of the list on with
      thread 1; it is 0 if none may. */
  ghost predicate FirstInTurn(ts: seq<View>, c: nat, now: nat, r: nat) {
    if r == 0 then forall k :: 1 <= k < |ts| ==> !CanRun(ts[k], now)
    else
      && r < |ts| && CanRun(ts[r], now)
      && (r > c ==> forall k :: c < k < r ==> !CanRun(ts[k], now))
      && (r <= c ==> forall k :: 1 <= k < |ts| && (k > c || k < r) ==> !CanRun(ts[k], now))
  }

  lemma AwakeIs(t: View, now: nat)
    ensures Awake(t, now).state == Run <==> CanRun(t, now)
    ensures Awake(t, now) == t || (CanRun(t, now) && t.state != Run && Awake(t, now) == View(Run, 0, t.selectDone))
  {
  }

  /** look_threads picks the first thread in turn that may run, and wakes only threads whose
      time has come: one that still sleeps is neither changed nor picked. */
  lemma {:induction false} LookedIsFirst(ts: seq<View>, c: nat, now: nat)
    requires c < |ts|
    ensures var (r, ts') := Looked(ts, c, now);
      WokenOnly(ts, ts', now) && FirstInTurn(ts, c, now, r) && (r != 0 ==> ts'[r].state == Run)
  {
    hide Awake, CanRun, Scan;
    var (r1, ts1) := Scan(ts, c + 1, |ts|, now);
    ScanFirst(ts, c + 1, |ts|, now);
    if r1 == |ts| && c > 0 {
      ScanFirst(ts1, 1, c + 1, now);
    }
  }

  lemma {:induction false} ScanFirst(ts: seq<View>, i: nat, hi: nat, now: nat)
    requires i <= hi <= |ts|
    ensures var (r, ts') := Scan(ts, i, hi, now);
      && WokenOnly(ts, ts', now) && (forall k :: i <= k < r ==> !CanRun(ts[k], now))
      && (r < hi ==> CanRun(ts[r], now) && ts'[r].state == Run)
      && forall k :: 0 <= k < |ts| && !(i <= k < hi) ==> ts'[k] == ts[k]
  {
    hide Awake, CanRun, Scan;
    ScanFinds(ts, i, hi, now);
    var (r, ts') := Scan(ts, i, hi, now);
    forall k | 0 <= k < |ts|
      ensures ts'[k] == ts[k] || (CanRun(ts[k], now) && ts[k].state != Run && ts'[k] == View(Run, 0, ts[k].selectDone))
      ensures i <= k < r ==> !CanRun(ts[k], now)
      ensures k == r && r < hi ==> CanRun(ts[r], now) && ts'[r].state == Run
    {
      AwakeIs(ts[k], now);
    }
  }

  /** How far thread `j` is from being next, counted from thread `c` among `n` others. */
  function Distance(c: nat, j: nat, n: nat): int {
    if c < j then j - c else j - c + n
  }

  /** Whoever is picked instead of a thread that can run is closer to it than the current one. */
  lemma {:induction false} PickCloser(ts: seq<View>, c: nat, now: nat, j: nat)
    requires c < |ts| && 1 <= j < |ts| && ts[j].state == Run
    ensures var r := Looked(ts, c, now).0;
      1 <= r && (r == j || Distance(r, j, |ts| - 1) < Distance(c, j, |ts| - 1))
  {
    IdleOnlyIfNone(ts, c, now);
    ScanFinds(ts, c + 1, |ts|, now);
    var (r1, ts1) := Scan(ts, c + 1, |ts|, now);
    if r1 == |ts| && c > 0 {
      ScanFinds(ts1, 1, c + 1, now);
    }
  }

  /** What a call of schedule meets: the threads, changed at will since the last call, and the time. */
  datatype Moment = Moment(ts: seq<View>, now: nat)

  /** schedule does not switch: the idle thread is alone, or the current one must not be
      interrupted. */
  predicate Stays(ts: seq<View>, c: nat)
    requires c < |ts|
  {
    |ts| == 1 || ts[c].state == Uninterruptible
  }

  /** The thread that runs after a call of schedule that acts on no signal. */
  function Next(ts: seq<View>, c: nat, now: nat): (r: nat)
    requires c < |ts|
    ensures r < |ts|
  {
    if Stays(ts, c) then c else Looked(ts, c, now).0
  }

  /** Every call of a run meets `n` threads besides the idle one. */
  ghost predicate Rounds(run: seq<Moment>, n: nat) {
    forall i :: 0 <= i < |run| ==> |run[i].ts| == n + 1
  }

  /** The thread that runs after `k` calls. */
  ghost function RunningAfter(run: seq<Moment>, c: nat, k: nat, n: nat): (r: nat)
    requires k <= |run| && c <= n && Rounds(run, n)
    ensures r <= n
  {
    if k == 0 then c else Next(run[k - 1].ts, RunningAfter(run, c, k - 1, n), run[k - 1].now)
  }

  /** The calls among the first `k` at which the current thread may be interrupted. */
  ghost function Switches(run: seq<Moment>, c: nat, k: nat, n: nat): (s: nat)
    requires k <= |run| && c <= n && Rounds(run, n)
  {
    if k == 0 then 0
    else Switches(run, c, k - 1, n) + if Stays(run[k - 1].ts, RunningAfter(run, c, k - 1, n)) then 0 else 1
  }

  /** Bounded waiting: of `n` threads besides the idle one, a thread that can run at every call
      is dispatched by the time that the current thread could be interrupted at `n` calls,
      whatever else happens to the others. */
  lemma {:induction false} BoundedWaiting(run: seq<Moment>, c: nat, j: nat, n: nat)
    requires c <= n && 1 <= j <= n && Rounds(run, n) && n <= Switches(run, c, |run|, n)
    requires forall i :: 0 <= i < |run| ==> run[i].ts[j].state == Run
    ensures exists k :: 1 <= k <= |run| && RunningAfter(run, c, k, n) == j
  {
    if !exists k :: 1 <= k <= |run| && RunningAfter(run, c, k, n) == j {
      Approach(run, c, j, n, |run|);
      assert false;
    }
  }

  /** As long as it has not run, it has come closer with every call that could switch. */
  lemma {:induction false} Approach(run: seq<Moment>, c: nat, j: nat, n: nat, k: nat)
    requires c <= n && 1 <= j <= n && k <= |run| && Rounds(run, n)
    requires forall i :: 0 <= i < |run| ==> run[i].ts[j].state == Run
    requires forall i :: 1 <= i <= k ==> RunningAfter(run, c, i, n) != j
    ensures 1 <= Distance(RunningAfter(run, c, k, n), j, n) <= n - Switches(run, c, k, n)
  {
    if k > 0 {
      Approach(run, c, j, n, k - 1);
      PickCloser(run[k - 1].ts, RunningAfter(run, c, k - 1, n), run[k - 1].now, j);
      assert RunningAfter(run, c, k, n) != j;
    }
  }

  /** Signals void the bound, because the search then starts over behind the idle thread: of
      three threads that can run, the first runs again each time the second is picked with a
      signal that stops it, and the third does not come closer. */
  lemma StopsStarve(ts: seq<View>, now: nat)
    requires |ts| == 4 && forall i :: 1 <= i < 4 ==> ts[i].state == Run
    ensures Looked(ts, 1, now).0 == 2
    ensures var ts1 := Looked(ts, 1, now).1; Looked(ts1[2 := ts1[2].(state := Suspend)], 0, now).0 == 1
  {
  }

  // ----- the linked list -----

  const SIGINT: nat := 2
  const SIGILL: nat := 4
  const SIGKILL: nat := 9
  const SIGSEGV: nat := 11
  const SIGTERM: nat := 15
  const SIGCONT: nat := 18
  const SIGSTOP: nat := 19
  const SIGTSTP: nat := 20
  const SIGNAL_COUNT: nat := 32

  class Process {
    const parent: Process?

    constructor (parent: Process?)
      ensures this.parent == parent
    {
      this.parent := parent;
    }
  }

  class Thread {
    const owner: Process
    const room: nat
    var state: State
    var target: nat
    var selectDone: bool
    var signals: seq<nat>
    var next: Thread?

    /** A thread whose signal buffer has room for `room` signals. */
    constructor (owner: Process, room: nat)
      ensures this.owner == owner && this.room == room && next == null && signals == [] && state == Run
    {
      this.owner, this.room := owner, room;
      state, target, selectDone, signals, next := Run, 0, false, [], null;
    }

    function Seen(): View
      reads `state, `target, `selectDone
    {
      View(state, target, selectDone)
    }

    /** thread_resume. */
    method Resume()
      modifies `state, `target
      ensures Seen() == old(Seen()).(state := Run, target := 0)
    {
      state, target := Run, 0;
    }

    /** thread_update_state. */
    method UpdateState(now: nat)
      modifies `state, `target
      ensures Seen() == Awake(old(Seen()), now)
      ensures old(state) == Sleep && old(target) > now ==> Seen() == old(Seen())
      ensures old(state) == Sleep && old(target) <= now ==> state == Run && target == 0
      ensures old(state) == Select ==> state == if selectDone then Run else Select
      ensures old(state) != Sleep && old(state) != Select ==> Seen() == old(Seen())
    {
      if state == Sleep {
        if now >= target {
          Resume();
        }
      } else if state == Select {
        if selectDone {
          Resume();
        }
      }
    }

    /** thread_signal: a signal is queued if there is room; it continues a stopped thread and
        wakes one that waits for input or output. */
    method Signal(signal: nat) returns (result: bool)
      modifies `state, `signals
      ensures result <==> signal < 32 && |old(signals)| < room
      ensures signals == if result then old(signals) + [signal] else old(signals)
      ensures state == if signal == 18 && old(state) == Suspend then Run
                       else if result && old(state) == WaitIo then Run else old(state)
    {
      result := false;
      if signal < SIGNAL_COUNT {
        if signal == SIGCONT {
          if state == Suspend {
            state := Run;
          }
        }
        if |signals| < room {
          signals := signals + [signal];
          if state == WaitIo {
            state := Run;
          }
          result := true;
        }
      }
    }
  }

  /** The threads `l` are linked in this order from `first` on, each once. */
  ghost predicate Linked(first: Thread, l: seq<Thread>)
    reads set t | t in l
  {
    && |l| > 0 && l[0] == first && l[|l| - 1].next == null
    && (forall i :: 0 <= i < |l| - 1 ==> l[i].next == l[i + 1])
    && forall i, j :: 0 <= i < j < |l| ==> l[i] != l[j]
  }

  ghost function Views(l: seq<Thread>): (v: seq<View>)
    reads set t | t in l
    ensures |v| == |l|
  {
    seq(|l|, i requires 0 <= i < |l| reads set t | t in l => l[i].Seen())
  }

  class Tasks {
    const first: Thread
    var current: Thread?
    ghost var list: seq<Thread>

    ghost predicate Valid()
      reads this, set t | t in list
    {
      Linked(first, list) && (current != null ==> current in list)
    }

    /** The idle thread alone. */
    constructor (first: Thread)
      requires first.next == null
      ensures Valid() && this.first == first && list == [first] && current == first
    {
      this.first, current, list := first, first, [first];
    }

    /** Position of the current thread; that of the idle thread if it was destroyed. */
    ghost function Position(): (c: nat)
      requires Valid()
      reads this, set t | t in list
      ensures c < |list| && list[c] == if current == null then first else current
    {
      if current == null then 0 else
        var c :| 0 <= c < |list| && list[c] == current;
        c
    }

    /** One thread of the list is updated. */
    method Visit(t: Thread, now: nat, ghost k: nat)
      requires Valid() && k < |list| && list[k] == t
      modifies t`state, t`target
      ensures Valid() && Views(list) == old(Views(list))[k := Awake(old(Views(list))[k], now)]
      ensures t.state == Views(list)[k].state
    {
      ghost var v := Views(list);
      t.UpdateState(now);
      assert Views(list) == v[k := Awake(v[k], now)];
    }

    /** One of the loops of look_threads: from thread `t`, number `i`, up to number `hi` - 1. */
    method ScanList(t0: Thread?, now: nat, last: Thread?, ghost i: nat, ghost hi: nat) returns (t: Thread?)
      requires Valid() && i <= hi <= |list| && t0 == (if i < |list| then list[i] else null)
      requires if last == null then hi == |list| else i < hi && list[hi - 1] == last
      modifies (set t | t in list)`state, (set t | t in list)`target
      ensures Valid()
      ensures var (r, ts) := Scan(old(Views(list)), i, hi, now);
        Views(list) == ts && t == if r < hi then list[r] else null
    {
      t := t0;
      ghost var k := i;
      while t != null
        invariant Valid() && i <= k <= hi && t == (if k < |list| then list[k] else null) && (last != null ==> k < hi)
        invariant Scan(Views(list), k, hi, now) == Scan(old(Views(list)), i, hi, now)
        decreases hi - k
      {
        Visit(t, now, k);
        if t.state == Run {
          return;
        }
        k := k + 1;
        if t == last {
          return null;
        }
        t := t.next;
      }
    }

    /** look_threads, from the thread number `c` on. */
    method LookThreads(from: Thread, now: nat, ghost c: nat) returns (t: Thread)
      requires Valid() && c < |list| && list[c] == from
      modifies (set t | t in list)`state, (set t | t in list)`target
      ensures Valid()
      ensures var (r, ts) := Looked(old(Views(list)), c, now); Views(list) == ts && t == list[r]
      ensures WokenOnly(old(Views(list)), Views(list), now)
      ensures exists r: nat :: r < |list| && t == list[r] && FirstInTurn(old(Views(list)), c, now, r)
    {
      LookedIsFirst(Views(list), c, now);
      var u := ScanList(from.next, now, null, c + 1, |list|);
      if u != null {
        return u;
      }
      if from == first {
        return first;
      }
      u := ScanList(first.next, now, from, 1, c + 1);
      if u != null {
        return u;
      }
      t := first;
    }

    /** In process_destroy, after the first `i` threads of `l0`: `done` is what stays of them. */
    ghost predicate Unlinking(l0: seq<Thread>, c0: Thread?, p: Process, i: nat, done: seq<Thread>, thread: Thread?,
        previous: Thread?)
      reads this, set t | t in list
    {
      && i <= |l0| && list == done + l0[i..] && Linked(first, list) && done == Survivors(l0[..i], p)
      && thread == (if i < |l0| then l0[i] else null) && (i > 0 ==> |done| > 0)
      && previous == (if i == 0 || done == [] then null else done[|done| - 1])
      && current == if c0 != null && c0 !in list then null else c0
    }

    /** One thread is passed or unlinked. */
    method UnlinkOne(p: Process, thread0: Thread, previous0: Thread?, ghost l0: seq<Thread>, ghost c0: Thread?,
        ghost i: nat, ghost done0: seq<Thread>)
      returns (thread: Thread?, previous: Thread?, ghost done: seq<Thread>)
      requires Unlinking(l0, c0, p, i, done0, thread0, previous0) && forall t | t in list :: t in l0
      modifies `list, `current, (set t | t in list)`next
      ensures Unlinking(l0, c0, p, i + 1, done, thread, previous) && forall t | t in list :: t in l0
    {
      SurvivorsMore(l0, p, i);
      assert l0[i..] == [l0[i]] + l0[i + 1..];
      if p == thread0.owner && previous0 != null {
        assert previous0 == list[|done0| - 1];
        Bypass(previous0, thread0, done0, l0[i + 1..]);
        if thread0 == current {
          current := null;
        }
        thread, previous, done := previous0.next, previous0, done0;
      } else {
        done := done0 + [thread0];
        assert list == done + l0[i + 1..];
        assert i + 1 < |l0| ==> list[|done|] == l0[i + 1];
        assert list[|done| - 1] == thread0;
        thread, previous := thread0.next, thread0;
      }
    }

    /** Threads of the process are unlinked, but for the idle thread. */
    method Unlink(p: Process)
      requires Valid()
      modifies `list, `current, (set t | t in list)`next
      ensures Valid() && list == Survivors(old(list), p)
      ensures current == if old(current) != null && old(current) !in Survivors(old(list), p) then null else old(current)
    {
      hide Linked, Survivors, Unlinking;
      ghost var l0, c0 := list, current;
      var thread: Thread? := first;
      var previous: Thread? := null;
      ghost var i, done := 0, [];
      UnlinkStart(p);
      while thread != null
        invariant Unlinking(l0, c0, p, i, done, thread, previous) && i <= |l0| && forall t | t in list :: t in l0
        decreases |l0| - i
      {
        UnlinkIndex(l0, c0, p, i, done, thread, previous);
        thread, previous, done := UnlinkOne(p, thread, previous, l0, c0, i, done);
        i := i + 1;
      }
      UnlinkEnd(l0, c0, p, i, done, previous);
    }

    lemma UnlinkStart(p: Process)
      requires Valid()
      ensures Unlinking(list, current, p, 0, [], first, null)
    {
      assert list[..0] == [] && list[0..] == list;
    }

    lemma UnlinkIndex(l0: seq<Thread>, c0: Thread?, p: Process, i: nat, done: seq<Thread>, thread: Thread?,
        previous: Thread?)
      requires Unlinking(l0, c0, p, i, done, thread, previous) && thread != null
      ensures i < |l0|
    {
    }

    lemma UnlinkEnd(l0: seq<Thread>, c0: Thread?, p: Process, i: nat, done: seq<Thread>, previous: Thread?)
      requires Unlinking(l0, c0, p, i, done, null, previous)
      ensures Linked(first, list) && list == Survivors(l0, p)
      ensures current == if c0 != null && c0 !in list then null else c0
    {
      assert i == |l0|;
      assert l0[..i] == l0 && l0[i..] == [];
    }

    /** One thread is taken out of the list. */
    method Bypass(previous: Thread, thread: Thread, ghost done: seq<Thread>, ghost rest: seq<Thread>)
      requires |done| > 0 && list == done + [thread] + rest && Linked(first, list) && previous == done[|done| - 1]
      modifies `list, previous`next
      ensures list == done + rest && Linked(first, list) && thread !in list
      ensures previous.next == if rest == [] then null else rest[0]
    {
      ghost var l := list;
      assert l[|done| - 1] == previous && l[|done|] == thread;
      assert if rest == [] then |l| - 1 == |done| else l[|done| + 1] == rest[0];
      previous.next := thread.next;
      list := done + rest;
      forall i | 0 <= i < |list| - 1 ensures list[i].next == list[i + 1] {
        assert list[i] == l[if i < |done| then i else i + 1]
          && list[i + 1] == l[if i + 1 < |done| then i + 1 else i + 2];
      }
      assert list[|list| - 1] == if rest == [] then previous else l[|l| - 1];
      forall i | 0 <= i < |list| ensures list[i] != thread {
        assert list[i] == l[if i < |done| then i else i + 1];
      }
      forall i, j | 0 <= i < j < |list| ensures list[i] != list[j] {
        assert list[i] == l[if i < |done| then i else i + 1] && list[j] == l[if j < |done| then j else j + 1];
      }
    }

    /** Threads of a parent that wait for a child are resumed. */
    method WakeParents(parent: Process)
      requires Valid()
      modifies (set t | t in list)`state, (set t | t in list)`target
      ensures Valid() && Views(list) == Woken(old(Views(list)), list, parent, |list|)
    {
      var thread: Thread? := first;
      ghost var i := 0;
      while thread != null
        invariant 0 <= i <= |list| && Valid() && thread == (if i < |list| then list[i] else null)
        invariant Views(list) == Woken(old(Views(list)), list, parent, i)
        decreases |list| - i
      {
        WakeOne(thread, parent, i, old(Views(list)));
        thread := thread.next;
        i := i + 1;
      }
    }

    method WakeOne(thread: Thread, parent: Process, ghost i: nat, ghost v0: seq<View>)
      requires Valid() && i < |list| == |v0| && thread == list[i] && Views(list) == Woken(v0, list, parent, i)
      modifies thread`state, thread`target
      ensures Valid() && Views(list) == Woken(v0, list, parent, i + 1)
    {
      ghost var v := Views(list);
      if parent == thread.owner {
        if thread.state == WaitChild {
          thread.Resume();
        }
      }
      assert Views(list) == v[i := thread.Seen()];
      assert v[i] == v0[i];
    }

    /** process_destroy, as far as threads are concerned. */
    method Destroy(p: Process)
      requires Valid()
      modifies `list, `current, (set t | t in list)`next, (set t | t in list)`state, (set t | t in list)`target
      ensures Valid() && list == Survivors(old(list), p)
      ensures current == if old(current) != null && old(current) !in list then null else old(current)
      ensures forall t :: t in list ==> t in old(list)
      ensures Views(list) == AfterDestroy(old(Views(list)), old(list), list, p)
      ensures forall t :: t in list ==>
        t.Seen() ==
          if p.parent != null && t.owner == p.parent && old(t.state) == WaitChild then View(Run, 0, old(t.selectDone))
          else old(t.Seen())
    {
      hide Linked, Survivors;
      ghost var l0, v0 := list, Views(list);
      Unlink(p);
      SurvivorsSub(l0, p);
      ghost var v1 := Views(list);
      forall k | 0 <= k < |list| ensures v1[k] == v0[IndexOf(l0, list[k])] {
        assert list[k] in l0;
      }
      if p.parent != null {
        WakeParents(p.parent);
      }
      forall t | t in list ensures t.Seen() ==
        if p.parent != null && t.owner == p.parent && old(t.state) == WaitChild then View(Run, 0, old(t.selectDone))
        else old(t.Seen())
      {
        ghost var k := IndexOf(list, t);
        assert Views(list)[k] == t.Seen() && v0[IndexOf(l0, t)] == old(t.Seen());
      }
    }

    /** The next signal of the picked thread is acted on: the thread to run instead, or none. */
    method Deliver(ready: Thread, now: nat, ghost r: nat) returns (t: Thread)
      requires Valid() && 0 < r < |list| && ready == list[r] && |ready.signals| > 0
      modifies this, (set t | t in list)`next, (set t | t in list)`state, (set t | t in list)`target, ready`signals
      ensures Valid() && t in list && ready.signals == old(ready.signals)[1..]
      ensures var s, v := old(ready.signals[0]), old(Views(list));
        if Lethal(s) then
          && list == Survivors(old(list), ready.owner) && (forall t :: t in list ==> t in old(list))
          && var (k, ts) := Looked(AfterDestroy(v, old(list), list, ready.owner), 0, now);
             Views(list) == ts && t == list[k]
        else if Stops(s) then
          && list == old(list)
          && var (k, ts) := Looked(v[r := v[r].(state := Suspend)], 0, now);
             Views(list) == ts && t == list[k]
        else list == old(list) && Views(list) == v && t == ready
    {
      hide Survivors;
      ghost var v := Views(list);
      var signal := ready.signals[0];
      ready.signals := ready.signals[1..];
      assert Views(list) == v;
      if Lethal(signal) {
        Destroy(ready.owner);
        t := LookThreads(first, now, 0);
      } else if Stops(signal) {
        ready.state := Suspend;
        assert Views(list) == v[r := v[r].(state := Suspend)];
        t := LookThreads(first, now, 0);
      } else {
        t := ready;
      }
    }

    /** There is a current thread, and it stays. */
    ghost predicate Keeps()
      requires Valid()
      reads this, set t | t in list
    {
      current != null && Stays(Views(list), Position())
    }

    /** The thread that look_threads picks, and the threads as they are then. */
    ghost function Picked(now: nat): (nat, seq<View>)
      requires Valid()
      reads this, set t | t in list
    {
      Looked(Views(list), Position(), now)
    }

    /** Acts on a signal of the picked thread, if it has one. */
    method Serve(ready: Thread, now: nat, ghost r: nat) returns (t: Thread)
      requires Valid() && r < |list| && ready == list[r] && |Views(list)| == |list|
      modifies this, (set t | t in list)`next, (set t | t in list)`state, (set t | t in list)`target, ready`signals
      ensures Valid() && t in list
      ensures Outcome(old(list), old(Views(list)), r, old(ready.signals), now, list, Views(list), t)
      ensures ready.signals == if r == 0 || old(ready.signals) == [] then old(ready.signals)
        else old(ready.signals)[1..]
    {
      hide Survivors, AfterDestroy, Looked;
      t := ready;
      if ready != first {
        if |ready.signals| > 0 {
          t := Deliver(ready, now, r);
        }
      }
    }

    /** The first thread that look_threads finds, unless nothing is to be switched to. */
    method Choose(now: nat) returns (ready: Thread?)
      requires Valid()
      modifies (set t | t in list)`state, (set t | t in list)`target
      ensures Valid() && (ready == null <==> old(Keeps()))
      ensures ready == null ==> Views(list) == old(Views(list))
      ensures ready != null ==> var (r, ts) := old(Picked(now)); ready == list[r] && Views(list) == ts
    {
      hide Looked;
      ghost var c := Position();
      if current != null {
        AloneIf();
        if current.next == null && current == first {
          return null;
        }
        if current.state == Uninterruptible {
          return null;
        }
        NotAlone();
        ready := LookThreads(current, now, c);
      } else {
        ready := LookThreads(first, now, c);
      }
    }

    /** schedule: the thread that runs next. */
    method Schedule(now: nat)
      requires Valid()
      modifies this, (set t | t in list)`next, (set t | t in list)`state, (set t | t in list)`target,
        (set t | t in list)`signals
      ensures Valid()
      ensures old(Keeps()) ==> current == old(current) && list == old(list) && Views(list) == old(Views(list))
      ensures !old(Keeps()) ==>
        var (r, ts) := old(Picked(now));
        var s := old(list[Picked(now).0].signals);
        && current != null && Outcome(old(list), ts, r, s, now, list, Views(list), current)
        && old(list)[r].signals == (if r == 0 || s == [] then s else s[1..])
        && ScheduledBy(old(list), old(Views(list)), old(Position()), r, s, now, list, Views(list), current)
      ensures forall t | t in old(list) && (old(Keeps()) || t != old(list[Picked(now).0])) ::
        t.signals == old(t.signals)
      ensures old(current != null && (Keeps() || Undisturbed(Picked(now).0, list[Picked(now).0].signals))) ==>
        list == old(list) && current != null && Position() == Next(old(Views(list)), old(Position()), now)
    {
      hide Outcome, Looked, Linked, ScheduledBy;
      ghost var r, c := Picked(now).0, Position();
      var ready := Choose(now);
      if ready == null {
        PositionIs(c);
        return;
      }
      LinkedDistinct(first, list);
      current := Serve(ready, now, r);
      LinkedDistinct(first, list);
      OutcomeIs(old(list), old(Views(list)), c, r, old(list[Picked(now).0].signals), now, list, Views(list), current);
      if old(Undisturbed(Picked(now).0, list[Picked(now).0].signals)) {
        UndisturbedIs(old(list), old(Picked(now).1), r, old(list[Picked(now).0].signals), now, list, Views(list),
          current);
        PositionIs(r);
      }
    }

    lemma PositionIs(r: nat)
      requires Valid() && r < |list| && current == list[r]
      ensures Position() == r
    {
    }

    lemma AloneIf()
      requires Valid()
      ensures first.next == null ==> |list| == 1
    {
      assert |list| > 1 ==> list[0].next == list[1];
    }

    lemma NotAlone()
      requires Valid() && current != null && !(current.next == null && current == first)
      ensures |list| > 1
    {
    }
  }

  /** Signals whose delivery ends the process. */
  predicate Lethal(s: nat) {
    s == SIGTERM || s == SIGKILL || s == SIGSEGV || s == SIGINT || s == SIGILL
  }

  /** Signals whose delivery suspends the thread. */
  predicate Stops(s: nat) {
    s == SIGSTOP || s == SIGTSTP
  }

  /** What schedule comes to, when look_threads picked number `r` of the threads `l`, with
      views `ts`, and `s` were its signals: threads `l'` with views `vs`, of which `t` runs. */
  ghost predicate Outcome(l: seq<Thread>, ts: seq<View>, r: nat, s: seq<nat>, now: nat, l': seq<Thread>,
      vs: seq<View>, t: Thread)
  {
    r < |l| == |ts|
    && if r == 0 || s == [] then l' == l && vs == ts && t == l[r]
       else if Lethal(s[0]) then
         && l' == Survivors(l, l[r].owner) && (forall t :: t in l' ==> t in l) && |l'| > 0
         && var (k, v) := Looked(AfterDestroy(ts, l, l', l[r].owner), 0, now); vs == v && t == l'[k]
       else if Stops(s[0]) then
         l' == l && var (k, v) := Looked(ts[r := ts[r].(state := Suspend)], 0, now); vs == v && t == l[k]
       else l' == l && vs == ts && t == l[r]
  }

  /** The picked thread is the idle one, has no signal, or one that neither ends nor stops it. */
  predicate Undisturbed(r: nat, s: seq<nat>) {
    r == 0 || s == [] || !(Lethal(s[0]) || Stops(s[0]))
  }

  lemma UndisturbedIs(l: seq<Thread>, ts: seq<View>, r: nat, s: seq<nat>, now: nat, l': seq<Thread>, vs: seq<View>,
      t: Thread)
    requires Outcome(l, ts, r, s, now, l', vs, t) && Undisturbed(r, s)
    ensures l' == l && vs == ts && t == l[r]
  {
  }

  ghost predicate Distinct(l: seq<Thread>) {
    forall i, j :: 0 <= i < j < |l| ==> l[i] != l[j]
  }

  lemma LinkedDistinct(first: Thread, l: seq<Thread>)
    requires Linked(first, l)
    ensures Distinct(l) && |l| > 0
  {
  }

  /** A call of schedule, from threads `l` with views `v` of which number `c` was current: number
      `r` was picked and had signals `s`; now the threads are `l'` with views `vs`, and `t` runs.
      The first thread in turn that may run is picked. It runs, unless its next signal is one that
      ends its process, whose other threads are gone then, or one that stops it. Who still sleeps
      is left alone. */
  ghost predicate ScheduledBy(l: seq<Thread>, v: seq<View>, c: nat, r: nat, s: seq<nat>, now: nat,
      l': seq<Thread>, vs: seq<View>, t: Thread)
  {
    && r < |l| == |v| && |vs| == |l'| && |l'| > 0 && FirstInTurn(v, c, now, r)
    && (forall i, j :: 0 <= i < |l| && 0 <= j < |l'| && l'[j] == l[i] && Sleeps(v[i], now) ==>
          vs[j] == v[i] && (t == l'[j] ==> j == 0))
    && if r == 0 || s == [] || s[0] !in {2, 4, 9, 11, 15, 19, 20} then l' == l && t == l[r] && WokenOnly(v, vs, now)
       else if s[0] in {19, 20} then l' == l && vs[r].state == Suspend && t != l[r]
       else
         && (forall x | x in l' :: x in l && (x == l[0] || x.owner != l[r].owner))
         && forall x | x in l && (x == l[0] || x.owner != l[r].owner) :: x in l'
  }

  lemma {:induction false} OutcomeIs(l: seq<Thread>, v: seq<View>, c: nat, r: nat, s: seq<nat>, now: nat,
      l': seq<Thread>, vs: seq<View>, t: Thread)
    requires c < |l| == |v| && Distinct(l) && Distinct(l') && |l'| > 0
    requires var (r', ts) := Looked(v, c, now); r' == r && Outcome(l, ts, r, s, now, l', vs, t)
    ensures ScheduledBy(l, v, c, r, s, now, l', vs, t)
  {
    hide Looked, FirstInTurn, Survivors, AfterDestroy, CanRun;
    LookedIsFirst(v, c, now);
    var ts := Looked(v, c, now).1;
    SleepersStay(v, ts, now);
    if r != 0 && s != [] && Lethal(s[0]) {
      AfterLethal(l, v, ts, r, now, l', vs, t);
    } else if r != 0 && s != [] && Stops(s[0]) {
      AfterStop(l, v, ts, r, now, vs, t);
    } else {
      FirstRuns(v, c, now, r);
    }
  }

  lemma SleepersStay(v: seq<View>, v': seq<View>, now: nat)
    requires WokenOnly(v, v', now)
    ensures forall i :: 0 <= i < |v| && Sleeps(v[i], now) ==> v'[i] == v[i]
  {
  }

  lemma FirstRuns(v: seq<View>, c: nat, now: nat, r: nat)
    requires FirstInTurn(v, c, now, r) && r < |v|
    ensures r != 0 ==> !Sleeps(v[r], now)
  {
  }

  lemma {:induction false} AfterStop(l: seq<Thread>, v: seq<View>, ts: seq<View>, r: nat, now: nat, vs: seq<View>,
      t: Thread)
    requires 0 < r < |l| == |v| == |ts| && Distinct(l) && ts[r].state == Run
    requires forall i :: 0 <= i < |v| && Sleeps(v[i], now) ==> ts[i] == v[i]
    requires var (k, w) := Looked(ts[r := ts[r].(state := Suspend)], 0, now); vs == w && t == l[k]
    ensures |vs| == |l| && vs[r].state == Suspend && t != l[r]
    ensures forall i :: 0 <= i < |l| && Sleeps(v[i], now) ==>
      vs[i] == v[i] && (t == l[i] ==> i == 0)
  {
    hide Looked;
    LookedIsFirst(ts[r := ts[r].(state := Suspend)], 0, now);
  }

  lemma {:induction false} AfterLethal(l: seq<Thread>, v: seq<View>, ts: seq<View>, r: nat, now: nat, l': seq<Thread>,
      vs: seq<View>, t: Thread)
    requires 0 < r < |l| == |v| == |ts| && Distinct(l) && Distinct(l') && |l'| > 0
    requires l' == Survivors(l, l[r].owner) && forall x :: x in l' ==> x in l
    requires forall i :: 0 <= i < |v| && Sleeps(v[i], now) ==> ts[i] == v[i]
    requires var (k, w) := Looked(AfterDestroy(ts, l, l', l[r].owner), 0, now); vs == w && t == l'[k]
    ensures |vs| == |l'|
    ensures forall x | x in l' :: x in l && (x == l[0] || x.owner != l[r].owner)
    ensures forall x | x in l && (x == l[0] || x.owner != l[r].owner) :: x in l'
    ensures forall i, j :: 0 <= i < |l| && 0 <= j < |l'| && l'[j] == l[i] && Sleeps(v[i], now) ==>
      vs[j] == v[i] && (t == l'[j] ==> j == 0)
  {
    hide Looked, Survivors;
    var w := AfterDestroy(ts, l, l', l[r].owner);
    LookedIsFirst(w, 0, now);
    forall i, j | 0 <= i < |l| && 0 <= j < |l'| && l'[j] == l[i] && Sleeps(v[i], now)
      ensures vs[j] == v[i] && (t == l'[j] ==> j == 0)
    {
      assert IndexOf(l, l'[j]) == i;
      assert w[j] == ts[i];
    }
    forall x | x in l ensures x in l' <==> x == l[0] || x.owner != l[r].owner {
      SurvivorsAre(l, l[r].owner, x);
    }
  }

  /** The first place of a thread in a list. */
  ghost function IndexOf(l: seq<Thread>, t: Thread): (i: nat)
    requires t in l
    ensures i < |l| && l[i] == t
  {
    if l[0] == t then 0 else 1 + IndexOf(l[1..], t)
  }

  /** The views of the first `n` threads with those of `parent` that wait for a child resumed. */
  ghost function Woken(v: seq<View>, l: seq<Thread>, parent: Process?, n: nat): (r: seq<View>)
    requires |v| == |l|
    ensures |r| == |v|
  {
    seq(|v|, k requires 0 <= k < |v| =>
      if k < n && l[k].owner == parent && v[k].state == WaitChild then v[k].(state := Run, target := 0) else v[k])
  }

  /** The views of the threads that stay when `p` is destroyed. */
  ghost function AfterDestroy(v: seq<View>, l: seq<Thread>, l': seq<Thread>, p: Process): seq<View>
    requires |v| == |l| && forall t :: t in l' ==> t in l
  {
    var w := seq(|l'|, k requires 0 <= k < |l'| => v[IndexOf(l, l'[k])]);
    if p.parent == null then w else Woken(w, l', p.parent, |l'|)
  }

  lemma {:induction false} SurvivorsSub(l: seq<Thread>, p: Process)
    ensures forall t :: t in Survivors(l, p) ==> t in l
    ensures |Survivors(l, p)| <= |l|
  {
    if l != [] {
      SurvivorsSub(l[..|l| - 1], p);
    }
  }

  /** The threads that stay when process `p` is destroyed: the first, and all of others. */
  ghost function Survivors(l: seq<Thread>, p: Process): seq<Thread> {
    if l == [] then []
    else
      var r := Survivors(l[..|l| - 1], p);
      if |l| > 1 && l[|l| - 1].owner == p then r else r + [l[|l| - 1]]
  }

  lemma SurvivorsMore(l: seq<Thread>, p: Process, i: nat)
    requires i < |l|
    ensures var r := Survivors(l[..i], p);
      Survivors(l[..i + 1], p) == if i > 0 && l[i].owner == p then r else r + [l[i]]
  {
    assert l[..i + 1][..i] == l[..i] && l[..i + 1][i] == l[i];
  }

  /** No thread of a destroyed process is left but the idle thread, and every other one is. */
  lemma {:induction false} SurvivorsAre(l: seq<Thread>, p: Process, t: Thread)
    ensures t in Survivors(l, p) <==> exists i :: 0 <= i < |l| && l[i] == t && (i == 0 || t.owner != p)
  {
    if l != [] {
      var n := |l| - 1;
      SurvivorsAre(l[..n], p, t);
      assert forall i :: 0 <= i < n ==> l[..n][i] == l[i];
    }
  }
}
