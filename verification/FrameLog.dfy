/** The record of page frames handed out and given back, over the whole life of the system. */
module FrameLog {

  datatype Event = Took(frame: nat) | Gave(frame: nat)

  /** The bitmap of used frames that a record leads to. */
  ghost function After(boot: seq<bool>, log: seq<Event>): (u: seq<bool>)
    ensures |u| == |boot|
  {
    if log == [] then boot
    else
      var u, e := After(boot, log[..|log| - 1]), log[|log| - 1];
      if e.frame < |u| then u[e.frame := e.Took?] else u
  }

  /** Only free frames are handed out, and only used ones are given back. */
  ghost predicate Proper(boot: seq<bool>, log: seq<Event>) {
    forall k :: 0 <= k < |log| ==>
      log[k].frame < |boot| && After(boot, log[..k])[log[k].frame] == log[k].Gave?
  }

  lemma {:induction false} ProperMore(boot: seq<bool>, log: seq<Event>, e: Event)
    requires Proper(boot, log) && e.frame < |boot| && After(boot, log)[e.frame] == e.Gave?
    ensures Proper(boot, log + [e]) && After(boot, log + [e]) == After(boot, log)[e.frame := e.Took?]
  {
    var log' := log + [e];
    assert log'[..|log'| - 1] == log;
    forall k | 0 <= k < |log'|
      ensures log'[k].frame < |boot| && After(boot, log'[..k])[log'[k].frame] == log'[k].Gave?
    {
      assert log'[..k] == log[..k];
      assert log[..|log|] == log;
    }
  }

  /** A frame that does not occur keeps its bit. */
  lemma {:induction false} BitKept(boot: seq<bool>, log: seq<Event>, f: nat, i: nat, j: nat)
    requires i <= j <= |log| && f < |boot| && forall k :: i <= k < j ==> log[k].frame != f
    ensures After(boot, log[..j])[f] == After(boot, log[..i])[f]
    decreases j
  {
    if i < j {
      assert log[..j][..j - 1] == log[..j - 1];
      BitKept(boot, log, f, i, j - 1);
    }
  }

  /** A frame is not given back twice without being handed out in between, nor handed out
      twice without being given back in between. */
  lemma {:induction false} Alternates(boot: seq<bool>, log: seq<Event>, i: nat, j: nat)
    requires Proper(boot, log) && i < j < |log| && log[i] == log[j]
    ensures exists k :: i < k < j && log[k].frame == log[i].frame && log[k] != log[i]
  {
    var f := log[i].frame;
    if !exists k :: i < k < j && log[k].frame == f && log[k] != log[i] {
      var m := LastOf(log, i, j);
      assert log[..m + 1][..m] == log[..m];
      BitKept(boot, log, f, m + 1, j);
      assert false;
    }
  }

  /** The last occurrence of the event number `i` before `j`. */
  lemma {:induction false} LastOf(log: seq<Event>, i: nat, j: nat) returns (m: nat)
    requires i < j <= |log|
    ensures i <= m < j && log[m] == log[i] && forall k :: m < k < j ==> log[k] != log[i]
    decreases j
  {
    m := j - 1;
    if log[m] != log[i] {
      m := LastOf(log, i, j - 1);
    }
  }
}
