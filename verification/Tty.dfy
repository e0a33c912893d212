/** The line discipline of a terminal: what is typed is edited into lines, echoed, and
    offered to the reader. */
module Tty {
  import opened Bytes
  import opened Fifo

  const LINE_SIZE: nat := 4096
  const NL: byte := 10
  const CR: byte := 13
  const BS: byte := 8
  const SPACE: byte := 32
  const DEL: byte := 127
  const CARET: byte := 94

  /** The settings: flags and control characters. */
  datatype Term = Term(istrip: bool, igncr: bool, inlcr: bool, icrnl: bool, echo: bool, isig: bool, icanon: bool,
    vintr: byte, vsusp: byte, vquit: byte, verase: byte, vmin: byte)

  datatype Signal = SigInt | SigTstp | SigQuit

  predicate Control(c: byte) {
    c < 0x20 || c == 0x7F
  }

  /** A byte as typed, translated; none if it is ignored. */
  function Override(t: Term, c0: byte): (bool, byte) {
    var c1: byte := if t.istrip then c0 % 128 else c0;
    if c1 == CR && t.igncr then (false, c1)
    else
      var c2 := if c1 == NL && t.inlcr then CR else if c1 == CR && t.icrnl then NL else c1;
      (true, if c2 == BS then t.verase else c2)
  }

  /** A control character that is echoed, and kept in the line, as two characters. */
  predicate Escaped(t: Term, c: byte) {
    t.echo && Control(c) && c != t.verase && c != NL && c != CR
  }

  function Caret(c: byte): seq<byte> {
    [CARET, (64 + c as int) % 128]
  }

  /** A queue of at most `cap` bytes takes as much of `d` as fits. */
  function Push(s: seq<byte>, d: seq<byte>, cap: nat): (r: seq<byte>)
    ensures |s| + |d| <= cap ==> r == s + d
    ensures |s| <= cap ==> |r| <= cap
  {
    if |s| + |d| <= cap then s + d else if |s| <= cap then s + d[..cap - |s|] else s
  }

  /** The terminal while a write is handled: the unfinished line, the input queue, the echo
      queue, the bytes counted as written, and the signals raised. */
  datatype Status = Status(line: seq<byte>, input: seq<byte>, echo: seq<byte>, written: nat, raised: seq<Signal>)

  /** A line that has become too long is dropped. */
  function Trim(line: seq<byte>): seq<byte> {
    if |line| >= LINE_SIZE - 1 then [] else line
  }

  /** The echo of one byte before it is edited in. */
  function EchoOf(t: Term, c: byte): seq<byte> {
    if !t.echo then [] else if Escaped(t, c) then Caret(c) else if c != DEL then [c] else []
  }

  function SignalOf(t: Term, fg: bool, c: byte): seq<Signal> {
    if !(t.isig && fg) then []
    else if c == t.vintr then [SigInt] else if c == t.vsusp then [SigTstp] else if c == t.vquit then [SigQuit] else []
  }

  /** What a byte that is neither newline nor erase adds to a line, if it still fits. */
  function Append(t: Term, line: seq<byte>, c: byte): seq<byte> {
    if Escaped(t, c) then if |line| < LINE_SIZE - 2 then line + Caret(c) else line
    else if |line| < LINE_SIZE - 1 then line + [c] else line
  }

  /** The effect of one byte; the queues hold at most `icap` and `ecap` bytes. */
  function Step(t: Term, fg: bool, icap: nat, ecap: nat, s: Status, c0: byte): Status {
    var (use, c) := Override(t, c0);
    if !use then s
    else
      var s1 := s.(echo := Push(s.echo, EchoOf(t, c), ecap), raised := s.raised + SignalOf(t, fg, c));
      if !t.icanon then
        var q := Push(s1.input, [c], icap);
        s1.(input := q, written := s1.written + |q| - |s1.input|)
      else Edited(t, icap, ecap, s1, c)
  }

  /** Editing in canonical mode. */
  function Edited(t: Term, icap: nat, ecap: nat, s1: Status, c: byte): Status {
    var line := Trim(s1.line);
    if c == t.verase then
      if line == [] then s1.(line := line)
      else s1.(line := line[..|line| - 1], echo := Push(Push(Push(s1.echo, [BS], ecap), [SPACE], ecap), [BS], ecap))
    else if c == NL then
      if line == [] then s1.(line := line)
      else
        var q := Push(Push(s1.input, line, icap), [NL], icap);
        s1.(line := [], input := q, written := |q| - |s1.input|, echo := if t.echo then Push(s1.echo, [CR], ecap)
          else s1.echo)
    else s1.(line := Append(t, line, c))
  }

  /** The effect of some bytes. */
  function Steps(t: Term, fg: bool, icap: nat, ecap: nat, s: Status, d: seq<byte>): Status {
    if d == [] then s else Step(t, fg, icap, ecap, Steps(t, fg, icap, ecap, s, d[..|d| - 1]), d[|d| - 1])
  }

  lemma {:induction false} StepsMore(t: Term, fg: bool, icap: nat, ecap: nat, s: Status, d: seq<byte>, k: nat)
    requires k < |d|
    ensures Steps(t, fg, icap, ecap, s, d[..k + 1]) == Step(t, fg, icap, ecap, Steps(t, fg, icap, ecap, s, d[..k]),
      d[k])
  {
    assert d[..k + 1][..k] == d[..k];
  }

  lemma {:induction false} StepsJoin(t: Term, fg: bool, icap: nat, ecap: nat, s: Status, a: seq<byte>, b: seq<byte>)
    ensures Steps(t, fg, icap, ecap, s, a + b) == Steps(t, fg, icap, ecap, Steps(t, fg, icap, ecap, s, a), b)
    decreases |b|
  {
    if b == [] {
      assert a + b == a;
    } else {
      var n := |b| - 1;
      StepsJoin(t, fg, icap, ecap, s, a, b[..n]);
      assert (a + b)[..|a + b| - 1] == a + b[..n] && (a + b)[|a + b| - 1] == b[n];
    }
  }

  /** The line never fills its buffer. */
  lemma {:induction false} LineBound(t: Term, fg: bool, icap: nat, ecap: nat, s: Status, d: seq<byte>)
    requires |s.line| < LINE_SIZE
    ensures |Steps(t, fg, icap, ecap, s, d).line| < LINE_SIZE
  {
    if d != [] {
      LineBound(t, fg, icap, ecap, s, d[..|d| - 1]);
    }
  }

  // ----- with room in the queues -----

  /** The line after one byte. */
  function NewLine(t: Term, line0: seq<byte>, c0: byte): seq<byte> {
    var (use, c) := Override(t, c0);
    if !use || !t.icanon then line0
    else
      var line := Trim(line0);
      if c == t.verase then if line == [] then line else line[..|line| - 1]
      else if c == NL then []
      else Append(t, line, c)
  }

  /** What one byte makes available to the reader. */
  function Emitted(t: Term, line0: seq<byte>, c0: byte): seq<byte> {
    var (use, c) := Override(t, c0);
    if !use then [] else if !t.icanon then [c]
    else if c != t.verase && c == NL && Trim(line0) != [] then Trim(line0) + [NL] else []
  }

  /** What one byte echoes. */
  function Echoed(t: Term, line0: seq<byte>, c0: byte): seq<byte> {
    var (use, c) := Override(t, c0);
    if !use then [] else EchoOf(t, c) + Redraw(t, Trim(line0), c)
  }

  /** What editing echoes: an erased character is blanked, a line is ended. */
  function Redraw(t: Term, line: seq<byte>, c: byte): seq<byte> {
    if !t.icanon || line == [] then []
    else if c == t.verase then [BS, SPACE, BS]
    else if c == NL && t.echo then [CR] else []
  }

  /** Room for what `n` more bytes can cause. */
  predicate Roomy(s: Status, n: nat, icap: nat, ecap: nat) {
    |s.line| + |s.input| + 2 * n <= icap && |s.echo| + 4 * n <= ecap
  }

  lemma {:induction false} StepRoomy(t: Term, fg: bool, icap: nat, ecap: nat, s: Status, c: byte, n: nat)
    requires n > 0 && Roomy(s, n, icap, ecap)
    ensures var s' := Step(t, fg, icap, ecap, s, c);
      && s'.line == NewLine(t, s.line, c) && s'.input == s.input + Emitted(t, s.line, c)
      && s'.echo == s.echo + Echoed(t, s.line, c)
      && Roomy(s', n - 1, icap, ecap)
  {
    hide Push;
    var (use, c1) := Override(t, c);
    if use {
      PushAll(s.echo, EchoOf(t, c1), ecap);
      var e := s.echo + EchoOf(t, c1);
      if c1 == t.verase {
        PushAll(e, [BS], ecap);
        PushAll(e + [BS], [SPACE], ecap);
        PushAll(e + [BS] + [SPACE], [BS], ecap);
      }
      PushAll(e, [CR], ecap);
      PushAll(s.input, [c1], icap);
      PushAll(s.input, Trim(s.line), icap);
      PushAll(s.input + Trim(s.line), [NL], icap);
      assert e + [BS] + [SPACE] + [BS] == e + [BS, SPACE, BS];
    }
  }

  lemma PushAll(s: seq<byte>, d: seq<byte>, cap: nat)
    requires |s| + |d| <= cap
    ensures Push(s, d, cap) == s + d
  {
  }

  /** With room, what is echoed does not depend on what was echoed before. */
  lemma {:induction false} EchoAppends(t: Term, fg: bool, icap: nat, ecap: nat, s: Status, e: Status, d: seq<byte>)
    requires Roomy(s, |d|, icap, ecap) && Roomy(e, |d|, icap, ecap) && s.line == e.line && s.input == e.input
    ensures var s', e' := Steps(t, fg, icap, ecap, s, d), Steps(t, fg, icap, ecap, e, d);
      && s'.line == e'.line && s'.input == e'.input && |s'.echo| >= |s.echo| && |e'.echo| >= |e.echo|
      && s'.echo[|s.echo|..] == e'.echo[|e.echo|..] && s'.echo[..|s.echo|] == s.echo && e'.echo[..|e.echo|] == e.echo
      && Roomy(s', 0, icap, ecap) && Roomy(e', 0, icap, ecap)
    decreases |d|
  {
    if d != [] {
      var c, r := d[0], d[1..];
      StepRoomy(t, fg, icap, ecap, s, c, |d|);
      StepRoomy(t, fg, icap, ecap, e, c, |d|);
      var s1, e1 := Step(t, fg, icap, ecap, s, c), Step(t, fg, icap, ecap, e, c);
      EchoAppends(t, fg, icap, ecap, s1, e1, r);
      FirstStep(t, fg, icap, ecap, s, d);
      FirstStep(t, fg, icap, ecap, e, d);
      var s', e', x := Steps(t, fg, icap, ecap, s1, r), Steps(t, fg, icap, ecap, e1, r), Echoed(t, s.line, c);
      TailOf(s.echo, x, s'.echo);
      TailOf(e.echo, x, e'.echo);
    }
  }

  lemma TailOf(a: seq<byte>, x: seq<byte>, s: seq<byte>)
    requires |s| >= |a + x| && s[..|a + x|] == a + x
    ensures s[|a|..] == x + s[|a + x|..] && s[..|a|] == a
  {
    assert s == (a + x) + s[|a + x|..];
  }

  lemma FirstStep(t: Term, fg: bool, icap: nat, ecap: nat, s: Status, d: seq<byte>)
    requires d != []
    ensures Steps(t, fg, icap, ecap, s, d) == Steps(t, fg, icap, ecap, Step(t, fg, icap, ecap, s, d[0]), d[1..])
  {
    StepsJoin(t, fg, icap, ecap, s, d[..1], d[1..]);
    assert d == d[..1] + d[1..];
    assert d[..1][..0] == [] && d[..1][0] == d[0];
    assert Steps(t, fg, icap, ecap, s, []) == s;
  }

  // ----- whole writes -----

  /** The unfinished line, what the reader is offered, and what the master reads back. */
  datatype Session = Session(line: seq<byte>, input: seq<byte>, output: seq<byte>)

  /** What master_write of some bytes does; queues hold `icap`, `ecap` and `ocap` bytes. */
  function Written(t: Term, fg: bool, icap: nat, ecap: nat, ocap: nat, v: Session, d: seq<byte>): (Session, Status)
    requires |v.input| <= icap
  {
    var n := if |d| <= icap - |v.input| then |d| else icap - |v.input|;
    var s := Steps(t, fg, icap, ecap, Status(v.line, v.input, [], 0, []), d[..n]);
    (Session(s.line, s.input, Push(v.output, s.echo, ocap)), s)
  }

  /** Room for all that `n` bytes can cause. */
  predicate SessionRoom(v: Session, n: nat, icap: nat, ecap: nat, ocap: nat) {
    |v.line| + |v.input| + 2 * n <= icap && 4 * n <= ecap && |v.output| + 4 * n <= ocap
  }

  /** Writing `a` and then `b` is the same as writing `a` + `b`, given room in the queues. */
  lemma {:induction false} WritesJoin(t: Term, fg: bool, icap: nat, ecap: nat, ocap: nat, v: Session, a: seq<byte>,
      b: seq<byte>)
    requires SessionRoom(v, |a| + |b|, icap, ecap, ocap)
    ensures |Written(t, fg, icap, ecap, ocap, v, a).0.input| <= icap
    ensures Written(t, fg, icap, ecap, ocap, Written(t, fg, icap, ecap, ocap, v, a).0, b).0
         == Written(t, fg, icap, ecap, ocap, v, a + b).0
  {
    hide Steps, Push;
    var s0 := Status(v.line, v.input, [], 0, []);
    assert a[..|a|] == a && b[..|b|] == b && (a + b)[..|a + b|] == a + b;
    StepsJoin(t, fg, icap, ecap, s0, a, b);
    StepsKeepRoom(t, fg, icap, ecap, s0, a, |a| + |b|);
    var s1 := Steps(t, fg, icap, ecap, s0, a);
    var e1 := Status(s1.line, s1.input, [], 0, []);
    EchoAppends(t, fg, icap, ecap, s1, e1, b);
    var s2, e2 := Steps(t, fg, icap, ecap, s1, b), Steps(t, fg, icap, ecap, e1, b);
    StepsKeepRoom(t, fg, icap, ecap, e1, b, |b|);
    assert s2.echo == s1.echo + e2.echo;
    EchoSmall(t, fg, icap, ecap, s0, a);
    EchoSmall(t, fg, icap, ecap, e1, b);
    PushAll(v.output, s1.echo, ocap);
    PushAll(v.output + s1.echo, e2.echo, ocap);
    PushAll(v.output, s2.echo, ocap);
  }

  lemma {:induction false} StepsKeepRoom(t: Term, fg: bool, icap: nat, ecap: nat, s: Status, d: seq<byte>, n: nat)
    requires |d| <= n && Roomy(s, n, icap, ecap)
    ensures Roomy(Steps(t, fg, icap, ecap, s, d), n - |d|, icap, ecap)
    decreases |d|
  {
    if d != [] {
      StepsKeepRoom(t, fg, icap, ecap, s, d[..|d| - 1], n);
      StepRoomy(t, fg, icap, ecap, Steps(t, fg, icap, ecap, s, d[..|d| - 1]), d[|d| - 1], n - (|d| - 1));
    }
  }

  lemma {:induction false} EchoSmall(t: Term, fg: bool, icap: nat, ecap: nat, s: Status, d: seq<byte>)
    requires Roomy(s, |d|, icap, ecap)
    ensures |Steps(t, fg, icap, ecap, s, d).echo| <= |s.echo| + 4 * |d|
    decreases |d|
  {
    if d != [] {
      FirstStep(t, fg, icap, ecap, s, d);
      StepRoomy(t, fg, icap, ecap, s, d[0], |d|);
      EchoSmall(t, fg, icap, ecap, Step(t, fg, icap, ecap, s, d[0]), d[1..]);
    }
  }

  // ----- what the reader is offered, line by line -----

  /** What was typed, after translation. */
  function Typed(t: Term, d: seq<byte>): seq<byte> {
    if d == [] then []
    else
      var (use, c) := Override(t, d[0]);
      (if use then [c] else []) + Typed(t, d[1..])
  }

  /** One line edited: characters are appended, the erase character takes one away. */
  function Edit(t: Term, line: seq<byte>, text: seq<byte>): seq<byte>
    decreases |text|
  {
    if text == [] then line
    else
      var l, c := Trim(line), text[0];
      Edit(t, if c == t.verase then (if l == [] then l else l[..|l| - 1]) else Append(t, l, c), text[1..])
  }

  /** Position of the first newline, the length of the text if there is none. */
  function FirstNewline(text: seq<byte>): (k: nat)
    ensures k <= |text| && (k < |text| ==> text[k] == NL) && NL !in text[..k]
  {
    if text == [] then 0 else if text[0] == NL then 0
    else
      var k := FirstNewline(text[1..]);
      assert text[..k + 1] == [text[0]] + text[1..][..k];
      1 + k
  }

  /** The edited lines of a text, each with its newline; empty ones are not offered. */
  function Offered(t: Term, line: seq<byte>, text: seq<byte>): seq<byte>
    decreases |text|
  {
    var k := FirstNewline(text);
    if k == |text| then []
    else
      var l := Trim(Edit(t, line, text[..k]));
      (if l == [] then [] else l + [NL]) + Offered(t, [], text[k + 1..])
  }

  /** The line that is not finished. */
  function Pending(t: Term, line: seq<byte>, text: seq<byte>): seq<byte>
    decreases |text|
  {
    var k := FirstNewline(text);
    if k == |text| then Edit(t, line, text) else Pending(t, [], text[k + 1..])
  }

  /** Both, one character at a time. */
  lemma {:induction false} OfferedStep(t: Term, line: seq<byte>, text: seq<byte>)
    requires text != [] && t.verase != NL
    ensures var l, c := Trim(line), text[0];
      if c == NL then
        && Offered(t, line, text) == (if l == [] then [] else l + [NL]) + Offered(t, [], text[1..])
        && Pending(t, line, text) == Pending(t, [], text[1..])
      else
        var l' := if c == t.verase then (if l == [] then l else l[..|l| - 1]) else Append(t, l, c);
        && Offered(t, line, text) == Offered(t, l', text[1..])
        && Pending(t, line, text) == Pending(t, l', text[1..])
  {
    var k := FirstNewline(text);
    if text[0] == NL {
      assert text[..0] == [];
    } else {
      var k1 := FirstNewline(text[1..]);
      assert k == k1 + 1;
      assert text[..k][1..] == text[1..][..k1];
      var l, c := Trim(line), text[0];
      var l' := if c == t.verase then (if l == [] then l else l[..|l| - 1]) else Append(t, l, c);
      assert text[..k][0] == c;
      assert Edit(t, line, text[..k]) == Edit(t, l', text[1..][..k1]);
      if k < |text| {
        assert text[k + 1..] == text[1..][k1 + 1..];
      } else {
        assert text[..k] == text && text[1..][..k1] == text[1..];
      }
    }
  }

  /** In canonical mode, with room, the bytes offered to the reader are exactly the edited
      non-empty lines, each with its newline, and the rest is the unfinished line. */
  lemma {:induction false} OffersLines(t: Term, fg: bool, icap: nat, ecap: nat, s: Status, d: seq<byte>)
    requires t.icanon && t.verase != NL && Roomy(s, |d|, icap, ecap)
    ensures var s' := Steps(t, fg, icap, ecap, s, d);
      && s'.input == s.input + Offered(t, s.line, Typed(t, d))
      && s'.line == Pending(t, s.line, Typed(t, d))
    decreases |d|
  {
    hide Step, Steps, Offered, Pending, Roomy, Typed, NewLine, Emitted, Echoed;
    if d == [] {
      NoSteps(t, fg, icap, ecap, s);
    } else {
      FirstStep(t, fg, icap, ecap, s, d);
      StepRoomy(t, fg, icap, ecap, s, d[0], |d|);
      var s1 := Step(t, fg, icap, ecap, s, d[0]);
      OffersLines(t, fg, icap, ecap, s1, d[1..]);
      OfferedTyped(t, s.line, d);
      var a, b := Emitted(t, s.line, d[0]), Offered(t, s1.line, Typed(t, d[1..]));
      assert s.input + a + b == s.input + (a + b);
    }
  }

  /** One typed byte: what it makes available, and the line it leaves for the rest. */
  lemma OfferedTyped(t: Term, line: seq<byte>, d: seq<byte>)
    requires d != [] && t.icanon && t.verase != NL
    ensures var line' := NewLine(t, line, d[0]);
      && Offered(t, line, Typed(t, d)) == Emitted(t, line, d[0]) + Offered(t, line', Typed(t, d[1..]))
      && Pending(t, line, Typed(t, d)) == Pending(t, line', Typed(t, d[1..]))
  {
    hide Offered, Pending, Append;
    var (use, c) := Override(t, d[0]);
    if use {
      assert Typed(t, d)[1..] == Typed(t, d[1..]);
      OfferedStep(t, line, Typed(t, d));
    } else {
      assert Typed(t, d) == Typed(t, d[1..]);
    }
  }

  lemma NoSteps(t: Term, fg: bool, icap: nat, ecap: nat, s: Status)
    ensures Steps(t, fg, icap, ecap, s, []) == s && Typed(t, []) == []
    ensures Offered(t, s.line, []) == [] && Pending(t, s.line, []) == s.line
  {
  }

  /** What is offered ends with a newline: never part of an unfinished line. */
  lemma {:induction false} OfferedWhole(t: Term, line: seq<byte>, text: seq<byte>)
    ensures Offered(t, line, text) == [] || Offered(t, line, text)[|Offered(t, line, text)| - 1] == NL
    decreases |text|
  {
    hide Edit, Trim;
    var k := FirstNewline(text);
    if k < |text| {
      OfferedWhole(t, [], text[k + 1..]);
    }
  }

  /** No line contains a newline, so that the newlines tell the lines apart. */
  lemma {:induction false} EditedPlain(t: Term, line: seq<byte>, text: seq<byte>)
    requires NL !in line && NL !in text
    ensures NL !in Edit(t, line, text)
    decreases |text|
  {
    if text != [] {
      var l, c := Trim(line), text[0];
      assert NL !in l && (l != [] ==> NL !in l[..|l| - 1]);
      assert NL !in Append(t, l, c);
      EditedPlain(t, if c == t.verase then (if l == [] then l else l[..|l| - 1]) else Append(t, l, c), text[1..]);
    }
  }

  // ----- printable lines -----

  /** Neither edits the line nor ends it, and takes one place in it. */
  predicate Plain(t: Term, c: byte) {
    c != t.verase && c != NL && !Escaped(t, c)
  }

  /** Of `n` plain characters, how many at the start are lost to a line that became too long. */
  function Dropped(n: nat): (k: nat)
    ensures k <= n
  {
    if n == 0 then 0 else (n - 1) / (LINE_SIZE - 1) * (LINE_SIZE - 1)
  }

  lemma DroppedIs(n: nat)
    ensures n > 0 ==> Dropped(n) == (n - 1) / 4095 * 4095
  {
  }

  lemma DroppedNone(n: nat)
    requires n < LINE_SIZE
    ensures Dropped(n) == 0
  {
  }

  lemma DroppedMore(n: nat)
    requires n > 0
    ensures Dropped(LINE_SIZE - 1 + n) == LINE_SIZE - 1 + Dropped(n)
  {
    assert LINE_SIZE - 1 + n - 1 == (LINE_SIZE - 1) + (n - 1);
  }

  lemma {:induction false} EditPlain(t: Term, line: seq<byte>, text: seq<byte>)
    requires |line| < LINE_SIZE && forall i :: 0 <= i < |text| ==> Plain(t, text[i])
    ensures Edit(t, line, text) == (line + text)[Dropped(|line| + |text|)..]
    decreases |text|
  {
    hide Dropped, Escaped;
    if text == [] {
      assert line + text == line;
      DroppedNone(|line|);
    } else {
      var l := Trim(line) + [text[0]];
      EditPlain(t, l, text[1..]);
      assert Edit(t, line, text) == Edit(t, l, text[1..]);
      assert l + text[1..] == Trim(line) + text;
      if |line| == LINE_SIZE - 1 {
        DroppedMore(|text|);
        assert (line + text)[LINE_SIZE - 1 + Dropped(|text|)..] == text[Dropped(|text|)..];
      }
    }
  }

  lemma {:induction false} NoNewline(text: seq<byte>)
    requires NL !in text
    ensures FirstNewline(text + [NL]) == |text|
  {
    var k := FirstNewline(text + [NL]);
    assert (text + [NL])[|text|] == NL;
  }

  /** A line of plain characters is offered unchanged exactly when it is neither empty nor
      longer than 4094; otherwise what is left of it after the losses. */
  lemma {:induction false} PlainLine(t: Term, text: seq<byte>)
    requires t.verase != NL && forall i :: 0 <= i < |text| ==> Plain(t, text[i])
    ensures Offered(t, [], text + [NL]) == if |text| % 4095 == 0 then [] else text[(|text| - 1) / 4095 * 4095..] + [NL]
    ensures Offered(t, [], text + [NL]) == text + [NL] <==> 1 <= |text| <= 4094
    ensures Pending(t, [], text + [NL]) == []
  {
    hide Dropped, Edit, Escaped, FirstNewline, Offered, Pending;
    var n := |text|;
    EditPlain(t, [], text);
    LeftOver(n);
    DroppedIs(n);
    assert [] + text == text;
    OfferedOne(t, text);
    var rest := text[Dropped(n)..];
    if Dropped(n) == 0 {
      assert rest == text;
    }
  }

  lemma OfferedOne(t: Term, text: seq<byte>)
    requires NL !in text
    ensures var l := Trim(Edit(t, [], text)); Offered(t, [], text + [NL]) == if l == [] then [] else l + [NL]
    ensures Pending(t, [], text + [NL]) == []
  {
    hide Edit, FirstNewline, Trim;
    var all, n := text + [NL], |text|;
    NoNewline(text);
    NothingMore(t);
    assert all[..n] == text && all[n + 1..] == [];
  }

  lemma NothingMore(t: Term)
    ensures Offered(t, [], []) == [] && Pending(t, [], []) == []
  {
  }

  lemma LeftOver(n: nat)
    ensures n - Dropped(n) <= LINE_SIZE - 1
    ensures n % (LINE_SIZE - 1) == 0 <==> n - Dropped(n) == 0 || n - Dropped(n) == LINE_SIZE - 1
    ensures Dropped(n) == 0 <==> n <= LINE_SIZE - 1
  {
    if n > 0 {
      var q, r := (n - 1) / (LINE_SIZE - 1), (n - 1) % (LINE_SIZE - 1);
      assert n - 1 == (LINE_SIZE - 1) * q + r;
    }
  }

  predicate Printable(c: byte) {
    0x20 <= c < 0x7F
  }

  /** Settings decide which typed bytes end a line. */
  predicate EndsLine(t: Term, c0: byte) {
    var c := if t.istrip then c0 % 128 else c0;
    (c == NL && !t.inlcr) || (c == CR && t.icrnl && !t.igncr)
  }

  lemma {:induction false} TypedPrintable(t: Term, d: seq<byte>, e: byte)
    requires t.verase != NL && forall i :: 0 <= i < |d| ==> Printable(d[i])
    ensures EndsLine(t, e) ==> Typed(t, d + [e]) == d + [NL]
    ensures !EndsLine(t, e) ==> NL !in Typed(t, d + [e])
  {
    if d == [] {
      assert Typed(t, ([e])[1..]) == [];
    } else {
      assert (d + [e])[1..] == d[1..] + [e];
      TypedPrintable(t, d[1..], e);
      assert d == [d[0]] + d[1..];
    }
  }

  /** Under any settings, printable text reaches the reader as typed, closed by a newline,
      exactly when it has 1 to 4094 characters and the byte after it is one that ends a line;
      a byte that does not makes nothing available. */
  lemma {:induction false} PrintableLine(t: Term, fg: bool, icap: nat, ecap: nat, s: Status, d: seq<byte>, e: byte)
    requires t.icanon && t.verase != NL && s.line == [] && Roomy(s, |d| + 1, icap, ecap)
    requires forall i :: 0 <= i < |d| ==> Printable(d[i]) && d[i] != t.verase
    ensures var s' := Steps(t, fg, icap, ecap, s, d + [e]);
      && (s'.input == s.input + d + [10] <==> EndsLine(t, e) && 1 <= |d| <= 4094)
      && (!EndsLine(t, e) ==> s'.input == s.input) && (EndsLine(t, e) ==> s'.line == [])
  {
    hide Steps, Roomy, Offered, Pending, EndsLine, Edit, Typed;
    TypedPrintable(t, d, e);
    OffersLines(t, fg, icap, ecap, s, d + [e]);
    var s' := Steps(t, fg, icap, ecap, s, d + [e]);
    if EndsLine(t, e) {
      PlainLine(t, d);
      var o := Offered(t, [], d + [NL]);
      if s'.input == s.input + d + [NL] {
        assert o == s'.input[|s.input|..] == d + [NL];
      }
      assert s.input + (d + [NL]) == s.input + d + [NL];
    } else {
      NoneOffered(t, Typed(t, d + [e]));
      assert |s'.input| == |s.input|;
    }
  }

  lemma NoneOffered(t: Term, text: seq<byte>)
    requires NL !in text
    ensures Offered(t, [], text) == []
  {
  }

  // ----- echo and signals -----

  /** The byte may erase: it is the erase character or backspace, or is made into it. */
  predicate MayErase(t: Term, c0: byte) {
    var c := if t.istrip then c0 % 128 else c0;
    c == t.verase || c == 8 || (t.verase in {10, 13} && c in {10, 13})
  }

  /** With echo off nothing that is typed is echoed but the blanking of an erased character. */
  lemma {:induction false} EchoOff(t: Term, fg: bool, icap: nat, ecap: nat, s: Status, d: seq<byte>)
    requires !t.echo && |s.echo| <= ecap && forall i :: 0 <= i < |d| ==> !MayErase(t, d[i])
    ensures Steps(t, fg, icap, ecap, s, d).echo == s.echo
    decreases |d|
  {
    if d != [] {
      var n := |d| - 1;
      EchoOff(t, fg, icap, ecap, s, d[..n]);
      var s1 := Steps(t, fg, icap, ecap, s, d[..n]);
      PushNothing(s1.echo, ecap);
      EchoOffStep(t, fg, icap, ecap, s1, d[n]);
    }
  }

  lemma EchoOffStep(t: Term, fg: bool, icap: nat, ecap: nat, s: Status, c0: byte)
    requires !t.echo && |s.echo| <= ecap && !MayErase(t, c0)
    ensures Step(t, fg, icap, ecap, s, c0).echo == s.echo
  {
    hide Push;
    PushNothing(s.echo, ecap);
    var (use, c) := Override(t, c0);
    assert use ==> c != t.verase;
  }

  /** Without the setting, or without a foreground process, no signal is raised. */
  lemma {:induction false} NoSignals(t: Term, fg: bool, icap: nat, ecap: nat, s: Status, d: seq<byte>)
    requires !(t.isig && fg)
    ensures Steps(t, fg, icap, ecap, s, d).raised == s.raised
    decreases |d|
  {
    hide Push, Append;
    if d != [] {
      NoSignals(t, fg, icap, ecap, s, d[..|d| - 1]);
    }
  }

  /** What a write does not do: echo with echo off, or raise signals without the setting. */
  lemma {:induction false} WrittenQuiet(t: Term, fg: bool, icap: nat, ecap: nat, ocap: nat, v: Session, d: seq<byte>)
    requires |v.input| <= icap && |v.output| <= ocap
    ensures !(t.isig && fg) ==> Written(t, fg, icap, ecap, ocap, v, d).1.raised == []
    ensures !t.echo && (forall i :: 0 <= i < |d| ==> !MayErase(t, d[i])) ==>
      Written(t, fg, icap, ecap, ocap, v, d).0.output == v.output
  {
    hide Steps, MayErase, Push;
    var n := if |d| <= icap - |v.input| then |d| else icap - |v.input|;
    var s0 := Status(v.line, v.input, [], 0, []);
    if !(t.isig && fg) {
      NoSignals(t, fg, icap, ecap, s0, d[..n]);
    }
    if !t.echo && forall i :: 0 <= i < |d| ==> !MayErase(t, d[i]) {
      EchoOff(t, fg, icap, ecap, s0, d[..n]);
      PushNothing(v.output, ocap);
    }
  }

  /** A byte that no setting translates. */
  predicate Direct(c: byte) {
    c < 128 && c != 8 && c != 10 && c != 13
  }

  /** The interrupt, suspend and quit characters raise one signal each, and others none. */
  lemma {:induction false} SignalRaised(t: Term, fg: bool, icap: nat, ecap: nat, s: Status, c: byte)
    requires t.isig && fg && Direct(c)
    ensures var r := Step(t, fg, icap, ecap, s, c).raised;
      && (c == t.vintr ==> r == s.raised + [SigInt])
      && (c == t.vsusp && c != t.vintr ==> r == s.raised + [SigTstp])
      && (c == t.vquit && c != t.vsusp && c != t.vintr ==> r == s.raised + [SigQuit])
      && (c != t.vintr && c != t.vsusp && c != t.vquit ==> r == s.raised)
  {
    hide Push, Append;
  }

  /** A control character is echoed as a caret and its letter, a question mark for 127. */
  lemma {:induction false} ControlEcho(t: Term, fg: bool, icap: nat, ecap: nat, s: Status, c: byte)
    requires t.echo && Direct(c) && (c < 32 || c == 127) && c != t.verase && |s.echo| + 2 <= ecap
    ensures Step(t, fg, icap, ecap, s, c).echo == s.echo + [0x5E, if c == 127 then 0x3F else c + 64]
  {
    hide Append;
  }

  /** Printable text is echoed as it is, in either mode. */
  lemma {:induction false} PrintableEcho(t: Term, fg: bool, icap: nat, ecap: nat, s: Status, d: seq<byte>)
    requires t.echo && Roomy(s, |d|, icap, ecap) && forall i :: 0 <= i < |d| ==> Printable(d[i]) && d[i] != t.verase
    ensures Steps(t, fg, icap, ecap, s, d).echo == s.echo + d
    ensures !t.icanon ==> Steps(t, fg, icap, ecap, s, d).input == s.input + d
    ensures !t.icanon ==> Steps(t, fg, icap, ecap, s, d).written == s.written + |d|
    ensures t.icanon ==> Steps(t, fg, icap, ecap, s, d).written == s.written
    decreases |d|
  {
    hide Step, Roomy, Printable;
    NoneStepped(t, fg, icap, ecap, s);
    if d == [] {
      assert s.echo + d == s.echo && s.input + d == s.input;
    } else {
      var n := |d| - 1;
      RoomyLess(s, n, icap, ecap);
      PrintableEcho(t, fg, icap, ecap, s, d[..n]);
      StepsKeepRoom(t, fg, icap, ecap, s, d[..n], |d|);
      var s1 := Steps(t, fg, icap, ecap, s, d[..n]);
      PrintableStep(t, fg, icap, ecap, s1, d[n]);
      assert d == d[..n] + [d[n]];
      assert s.echo + d[..n] + [d[n]] == s.echo + d && s.input + d[..n] + [d[n]] == s.input + d;
    }
  }

  lemma NoneStepped(t: Term, fg: bool, icap: nat, ecap: nat, s: Status)
    ensures Steps(t, fg, icap, ecap, s, []) == s
  {
  }

  lemma PrintableStep(t: Term, fg: bool, icap: nat, ecap: nat, s: Status, c: byte)
    requires t.echo && Roomy(s, 1, icap, ecap) && Printable(c) && c != t.verase
    ensures var s' := Step(t, fg, icap, ecap, s, c);
      && s'.echo == s.echo + [c] && (!t.icanon ==> s'.input == s.input + [c] && s'.written == s.written + 1)
      && (t.icanon ==> s'.written == s.written)
  {
    hide Push, Append;
    PushAll(s.echo, [c], ecap);
    PushAll(s.input, [c], icap);
  }

  /** The byte that ends a line is echoed as a newline, with a carriage return if there was a
      line to end; the bytes then made available are counted. */
  lemma {:induction false} LineEcho(t: Term, fg: bool, icap: nat, ecap: nat, s: Status, d: seq<byte>, e: byte)
    requires t.icanon && t.echo && t.verase != NL && s.line == [] && Roomy(s, |d| + 1, icap, ecap)
    requires forall i :: 0 <= i < |d| ==> Printable(d[i]) && d[i] != t.verase
    requires EndsLine(t, e) && 1 <= |d| <= 4094
    ensures Steps(t, fg, icap, ecap, s, d + [e]).echo == s.echo + d + [10, 13]
    ensures Steps(t, fg, icap, ecap, s, d + [e]).written == |d| + 1
  {
    hide Roomy, Step, Offered, Pending, Edit, Typed, EndsLine;
    RoomyLess(s, |d|, icap, ecap);
    PrintableEcho(t, fg, icap, ecap, s, d);
    StepsKeepRoom(t, fg, icap, ecap, s, d, |d| + 1);
    var s1 := Steps(t, fg, icap, ecap, s, d);
    LineSoFar(t, fg, icap, ecap, s, d);
    assert (d + [e])[..|d|] == d && (d + [e])[|d|] == e;
    EndStep(t, fg, icap, ecap, s1, e);
    assert s.echo + d + [10] + [13] == s.echo + d + [10, 13];
  }

  lemma RoomyLess(s: Status, n: nat, icap: nat, ecap: nat)
    requires Roomy(s, n + 1, icap, ecap)
    ensures Roomy(s, n, icap, ecap)
  {
  }

  /** The unfinished line of printable text is that text. */
  lemma {:induction false} LineSoFar(t: Term, fg: bool, icap: nat, ecap: nat, s: Status, d: seq<byte>)
    requires t.icanon && t.verase != NL && s.line == [] && Roomy(s, |d| + 1, icap, ecap) && |d| <= 4095
    requires forall i :: 0 <= i < |d| ==> Printable(d[i]) && d[i] != t.verase
    ensures Steps(t, fg, icap, ecap, s, d).line == d
  {
    hide Steps, Roomy, Offered, Edit, Typed;
    RoomyLess(s, |d|, icap, ecap);
    OffersLines(t, fg, icap, ecap, s, d);
    TypedSame(t, d);
    NoneFirst(d);
    EditPlain(t, [], d);
    DroppedNone(|d|);
    assert [] + d == d;
  }

  lemma {:induction false} TypedSame(t: Term, d: seq<byte>)
    requires forall i :: 0 <= i < |d| ==> Printable(d[i])
    ensures Typed(t, d) == d
  {
    if d != [] {
      TypedSame(t, d[1..]);
      assert d == [d[0]] + d[1..];
    }
  }

  lemma NoneFirst(d: seq<byte>)
    requires NL !in d
    ensures FirstNewline(d) == |d|
  {
  }

  lemma EndStep(t: Term, fg: bool, icap: nat, ecap: nat, s: Status, e: byte)
    requires t.icanon && t.echo && t.verase != NL && EndsLine(t, e) && Roomy(s, 1, icap, ecap) && 1 <= |s.line| <= 4094
    ensures var s' := Step(t, fg, icap, ecap, s, e);
      s'.echo == s.echo + [10] + [13] && s'.written == |s.line| + 1 && s'.line == []
  {
    hide Push, Append;
    PushAll(s.echo, [NL], ecap);
    PushAll(s.echo + [NL], [CR], ecap);
    PushAll(s.input, s.line, icap);
    PushAll(s.input + s.line, [NL], icap);
  }

  /** A whole write: a printable line comes to the reader with its newline and back to the master
      as typed, with newline and carriage return; all its bytes are counted as written. */
  lemma {:induction false} LineWritten(t: Term, fg: bool, icap: nat, ecap: nat, ocap: nat, v: Session, d: seq<byte>,
      e: byte)
    requires t.icanon && t.echo && t.verase != NL && v.line == [] && SessionRoom(v, |d| + 1, icap, ecap, ocap)
    requires forall i :: 0 <= i < |d| ==> Printable(d[i]) && d[i] != t.verase
    requires EndsLine(t, e) && 1 <= |d| <= 4094
    ensures |v.input| <= icap
    ensures var (v', s) := Written(t, fg, icap, ecap, ocap, v, d + [e]);
      v' == Session([], v.input + d + [10], v.output + d + [10, 13]) && s.written == |d| + 1
  {
    hide Steps, Offered, Pending, Edit, Typed, EndsLine, Push;
    var s0 := Status(v.line, v.input, [], 0, []);
    LineEcho(t, fg, icap, ecap, s0, d, e);
    PrintableLine(t, fg, icap, ecap, s0, d, e);
    assert (d + [e])[..|d| + 1] == d + [e];
    assert [] + d + [10, 13] == d + [10, 13];
    PushAll(v.output, d + [10, 13], ocap);
    assert v.output + (d + [10, 13]) == v.output + d + [10, 13];
  }

  /** A character and then backspace leave the line as it was, and blank the character. */
  lemma {:induction false} EraseUndoes(t: Term, fg: bool, icap: nat, ecap: nat, s: Status, c: byte)
    requires t.icanon && t.verase == 127 && Printable(c) && |s.line| <= 4093 && Roomy(s, 2, icap, ecap)
    ensures var s' := Step(t, fg, icap, ecap, Step(t, fg, icap, ecap, s, c), 8);
      s'.line == s.line && s'.input == s.input && s'.echo == s.echo + (if t.echo then [c] else []) + [8, 32, 8]
  {
    hide Push, Step, Roomy;
    StepRoomy(t, fg, icap, ecap, s, c, 2);
    var s1 := Step(t, fg, icap, ecap, s, c);
    StepRoomy(t, fg, icap, ecap, s1, 8, 1);
    assert (s.line + [c])[..|s.line|] == s.line;
  }

  // ----- the device -----

  class Device {
    var term: Term
    var foreground: bool
    const lineBuffer: array<byte>
    var lineIndex: nat
    const input: Ring
    const output: Ring
    const echo: Ring

    ghost predicate Valid()
      reads this, input, output, echo
    {
      && lineBuffer.Length == LINE_SIZE && lineIndex < LINE_SIZE
      && input != output && input != echo && output != echo
      && input.data != output.data && input.data != echo.data && output.data != echo.data
      && lineBuffer != input.data && lineBuffer != output.data && lineBuffer != echo.data
      && input.Valid() && output.Valid() && echo.Valid()
    }

    /** The unfinished line. */
    ghost function Line(): seq<byte>
      requires lineIndex <= lineBuffer.Length
      reads this, lineBuffer
    {
      lineBuffer[..lineIndex]
    }

    constructor (term: Term, lineBuffer: array<byte>, input: Ring, output: Ring, echo: Ring)
      requires lineBuffer.Length == LINE_SIZE && input != output && input != echo && output != echo
      requires input.data != output.data && input.data != echo.data && output.data != echo.data
      requires lineBuffer != input.data && lineBuffer != output.data && lineBuffer != echo.data
      requires input.Valid() && output.Valid() && echo.Valid()
      ensures Valid() && this.term == term && !foreground && Line() == []
      ensures this.lineBuffer == lineBuffer && this.input == input && this.output == output && this.echo == echo
    {
      this.term, this.lineBuffer, this.input, this.output, this.echo := term, lineBuffer, input, output, echo;
      foreground, lineIndex := false, 0;
    }

    /** The state that one write works on. */
    ghost function Now(written: nat, raised: seq<Signal>): Status
      requires Valid()
      reads this, input, output, echo, input.data, echo.data, lineBuffer
    {
      Status(Line(), input.Contents(), echo.Contents(), written, raised)
    }

    /** What a write changes, seen from outside. */
    ghost function Seen(): (v: Session)
      requires Valid()
      reads this, input, output, echo, input.data, output.data, lineBuffer
      ensures |v.input| <= ICap()
    {
      Session(Line(), input.Contents(), output.Contents())
    }

    function ICap(): nat
      reads this
    {
      input.data.Length
    }

    function ECap(): nat
      reads this
    {
      echo.data.Length
    }

    /** override_character_master_write. */
    method OverrideCharacter(c0: byte) returns (use: bool, c: byte)
      ensures (use, c) == Override(term, c0)
    {
      use, c := true, c0;
      if term.istrip {
        c := c % 128;
      }
      if c == CR && term.igncr {
        use := false;
        return;
      } else if c == NL && term.inlcr {
        c := CR;
      } else if c == CR && term.icrnl {
        c := NL;
      }
      if c == BS {
        c := term.verase;
      }
    }

    /** The echo of a byte, and the signals it raises. */
    method EchoByte(c: byte, raised0: seq<Signal>) returns (escaped: bool, raised: seq<Signal>)
      requires Valid()
      modifies echo, echo.data
      ensures Valid() && escaped == Escaped(term, c) && raised == raised0 + SignalOf(term, foreground, c)
      ensures echo.Contents() == Push(old(echo.Contents()), EchoOf(term, c), ECap())
    {
      hide Push;
      escaped, raised := false, raised0;
      PushNothing(echo.Contents(), ECap());
      if term.echo {
        if Control(c) && c != term.verase && c != NL && c != CR {
          escaped := true;
          var _ := Put(echo, Caret(c));
        } else if c != DEL {
          var _ := Put(echo, [c]);
        }
      }
      if term.isig && foreground {
        if c == term.vintr {
          raised := raised + [SigInt];
        } else if c == term.vsusp {
          raised := raised + [SigTstp];
        } else if c == term.vquit {
          raised := raised + [SigQuit];
        }
      }
    }

    /** The erase character with a line to edit. */
    method EraseLast()
      requires Valid() && lineIndex > 0
      modifies `lineIndex, lineBuffer, echo, echo.data
      ensures Valid() && Line() == old(Line())[..old(lineIndex) - 1] && input.Contents() == old(input.Contents())
      ensures echo.Contents() == Push(Push(Push(old(echo.Contents()), [BS], ECap()), [SPACE], ECap()), [BS], ECap())
    {
      hide Push;
      lineIndex := lineIndex - 1;
      lineBuffer[lineIndex] := 0;
      var _ := Put(echo, [BS]);
      var _ := Put(echo, [SPACE]);
      var _ := Put(echo, [BS]);
    }

    /** The newline with a line to offer. */
    method EndLine() returns (written: nat)
      requires Valid() && lineIndex > 0
      modifies `lineIndex, input, input.data, echo, echo.data
      ensures Valid() && Line() == []
      ensures input.Contents() == Push(Push(old(input.Contents()), old(Line()), ICap()), [NL], ICap())
      ensures written == |input.Contents()| - |old(input.Contents())|
      ensures echo.Contents() == if term.echo then Push(old(echo.Contents()), [CR], ECap()) else old(echo.Contents())
    {
      hide Push;
      var bytesToCopy := lineIndex;
      lineIndex := 0;
      var n := Put(input, lineBuffer[..bytesToCopy]);
      var m := Put(input, [NL]);
      written := n + m;
      if term.echo {
        var _ := Put(echo, [CR]);
      }
    }

    /** Any other byte, if there is room for it in the line. */
    method AddByte(c: byte, escaped: bool)
      requires Valid() && escaped == Escaped(term, c)
      modifies `lineIndex, lineBuffer
      ensures Valid() && Line() == Append(term, old(Line()), c)
      ensures input.Contents() == old(input.Contents()) && echo.Contents() == old(echo.Contents())
    {
      if escaped {
        if lineIndex < LINE_SIZE - 2 {
          lineBuffer[lineIndex] := CARET;
          lineBuffer[lineIndex + 1] := (64 + c as int) % 128;
          lineIndex := lineIndex + 2;
        }
      } else if lineIndex < LINE_SIZE - 1 {
        lineBuffer[lineIndex] := c;
        lineIndex := lineIndex + 1;
      }
    }

    /** A byte edits the line. */
    method EditLine(c: byte, escaped: bool, written0: nat, ghost raised: seq<Signal>) returns (written: nat)
      requires Valid() && escaped == Escaped(term, c) && term.icanon
      modifies `lineIndex, lineBuffer, input, input.data, echo, echo.data
      ensures Valid() && Now(written, raised) == Edited(term, ICap(), ECap(), old(Now(written0, raised)), c)
    {
      hide Push, Append;
      written := written0;
      if lineIndex >= LINE_SIZE - 1 {
        lineIndex := 0;
      }
      assert Line() == Trim(old(Line()));
      if c == term.verase {
        if lineIndex > 0 {
          EraseLast();
        }
      } else if c == NL {
        if lineIndex > 0 {
          written := EndLine();
        }
      } else {
        AddByte(c, escaped);
      }
    }

    /** One byte of a write. */
    method TypeByte(c0: byte, written0: nat, raised0: seq<Signal>) returns (written: nat, raised: seq<Signal>)
      requires Valid()
      modifies `lineIndex, lineBuffer, input, input.data, echo, echo.data
      ensures Valid() && Now(written, raised) == Step(term, foreground, ICap(), ECap(), old(Now(written0, raised0)), c0)
    {
      hide Push;
      written, raised := written0, raised0;
      var use, c := OverrideCharacter(c0);
      if !use {
        return;
      }
      var escaped;
      escaped, raised := EchoByte(c, raised);
      if term.icanon {
        written := EditLine(c, escaped, written, raised);
      } else {
        var n := Put(input, [c]);
        written := written + n;
      }
    }

    /** master_write: the bytes count as the first that fit the input queue. */
    method MasterWrite(buffer: seq<byte>) returns (written: int, raised: seq<Signal>)
      requires Valid()
      modifies `lineIndex, lineBuffer, input, input.data, echo, echo.data, output, output.data
      ensures Valid()
      ensures buffer == [] ==> written == -1 && raised == [] && Seen() == old(Seen())
      ensures buffer != [] ==>
        var (v, s) := Written(term, foreground, ICap(), ECap(), output.data.Length, old(Seen()), buffer);
        v == Seen() && written == s.written && raised == s.raised
      ensures !(term.isig && foreground) ==> raised == []
      ensures !term.echo && (forall i :: 0 <= i < |buffer| ==> !MayErase(term, buffer[i])) ==>
        output.Contents() == old(output.Contents())
    {
      hide Steps, Written, MayErase;
      raised := [];
      if buffer == [] {
        return -1, [];
      }
      WrittenQuiet(term, foreground, ICap(), ECap(), output.data.Length, Seen(), buffer);
      written, raised := WriteSome(buffer);
    }

    /** A write that is not empty. */
    method WriteSome(buffer: seq<byte>) returns (written: nat, raised: seq<Signal>)
      requires Valid() && buffer != []
      modifies `lineIndex, lineBuffer, input, input.data, echo, echo.data, output, output.data
      ensures Valid()
      ensures var (v, s) := Written(term, foreground, ICap(), ECap(), output.data.Length, old(Seen()), buffer);
        v == Seen() && written == s.written && raised == s.raised
    {
      hide Step, Steps, Push;
      echo.Clear();
      var free := input.Room();
      written, raised := TypeAll(buffer, if |buffer| <= free then |buffer| else free);
      EchoOut();
    }

    /** The loop of master_write. */
    method TypeAll(buffer: seq<byte>, toWrite: nat) returns (w: nat, raised: seq<Signal>)
      requires Valid() && toWrite <= |buffer|
      modifies `lineIndex, lineBuffer, input, input.data, echo, echo.data
      ensures Valid() && Now(w, raised) == Steps(term, foreground, ICap(), ECap(), old(Now(0, [])), buffer[..toWrite])
    {
      hide Step, Push;
      raised := [];
      w := 0;
      var k := 0;
      assert buffer[..0] == [];
      while k < toWrite
        invariant 0 <= k <= toWrite && Valid()
        invariant Now(w, raised) == Steps(term, foreground, ICap(), ECap(), old(Now(0, [])), buffer[..k])
      {
        StepsMore(term, foreground, ICap(), ECap(), old(Now(0, [])), buffer, k);
        w, raised := TypeByte(buffer[k], w, raised);
        k := k + 1;
      }
    }

    /** The echo goes to the queue that the master reads, as far as it fits. */
    method EchoOut()
      requires Valid()
      modifies echo, output, output.data
      ensures Valid() && output.Contents() == Push(old(output.Contents()), old(echo.Contents()), output.data.Length)
      ensures Line() == old(Line()) && input.Contents() == old(input.Contents())
    {
      hide Push;
      Pushed(output.Contents(), echo.Contents(), output.data.Length);
      PushNothing(output.Contents(), output.data.Length);
      if echo.used > 0 {
        var _ := output.EnqueueFrom(echo);
      }
    }

    /** One turn of slave_read: what is read, or that the reader has to wait. In canonical
        mode nothing short of a byte is waited for. */
    method SlaveRead(size: nat) returns (wait: bool, d: seq<byte>)
      requires Valid() && size > 0
      modifies input
      ensures Valid()
      ensures var needed := if term.icanon then 1 else if size < term.vmin then size else term.vmin;
        && (wait <==> needed > 0 && |old(input.Contents())| < needed)
        && var n := if wait then 0 else if size <= |old(input.Contents())| then size else |old(input.Contents())|;
           d == old(input.Contents())[..n] && input.Contents() == old(input.Contents())[n..]
    {
      var needed: nat := 1;
      if !term.icanon {
        needed := term.vmin;
        if size < needed {
          needed := size;
        }
      }
      var length := input.used;
      assert input.Contents()[0..] == input.Contents() && input.Contents()[..0] == [];
      var readSize: int := -1;
      wait, d := false, [];
      if length >= needed {
        readSize, d := input.Dequeue(if length <= size then length else size);
      }
      if readSize <= 0 {
        wait := needed != 0;
      }
    }
  }

  /** A ring takes as much as fits; how much that was. */
  method Put(ring: Ring, d: seq<byte>) returns (n: nat)
    requires ring.Valid() && d != []
    modifies ring, ring.data
    ensures ring.Valid() && ring.Contents() == Push(old(ring.Contents()), d, ring.data.Length)
    ensures n == |ring.Contents()| - |old(ring.Contents())|
  {
    Pushed(ring.Contents(), d, ring.data.Length);
    n := ring.Enqueue(d);
  }

  lemma PushNothing(s: seq<byte>, cap: nat)
    requires |s| <= cap
    ensures Push(s, [], cap) == s
  {
  }

  /** What a ring takes of some bytes is what `Push` says. */
  lemma Pushed(s: seq<byte>, d: seq<byte>, cap: nat)
    requires |s| <= cap
    ensures Push(s, d, cap) == s + d[..if |d| <= cap - |s| then |d| else cap - |s|]
  {
  }
}
