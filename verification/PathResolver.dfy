/** fs_resolve_path: an absolute path is reduced to the names on it, in place in a buffer. */
module PathResolver {
  import opened Basics

  /** Position of the first slash, the length of the text if there is none. */
  function FirstSlash(p: string): (k: nat)
    ensures k <= |p| && (k < |p| ==> p[k] == '/') && forall i :: 0 <= i < k ==> p[i] != '/'
  {
    if p == [] || p[0] == '/' then 0 else 1 + FirstSlash(p[1..])
  }

  /** The names between slashes; successive slashes count as one. */
  function Tokens(p: string): seq<string>
    decreases |p|
  {
    if p == [] then []
    else if p[0] == '/' then Tokens(p[1..])
    else [p[..FirstSlash(p)]] + Tokens(p[FirstSlash(p)..])
  }

  /** Text of the names on the stack, each closed by a slash, behind that of the root. */
  function Text(stack: seq<string>): (r: string)
    ensures |r| > 0 && r[|r| - 1] == '/' && r[0] == '/'
  {
    if stack == [] then "/" else Text(stack[..|stack| - 1]) + stack[|stack| - 1] + "/"
  }

  /** The resolved path. */
  function Final(stack: seq<string>): string {
    if stack == [] then "/" else Text(stack)[..|Text(stack)| - 1]
  }

  predicate Up(t: string) {
    |t| >= 2 && t[0] == '.' && t[1] == '.'
  }

  predicate Dotted(t: string) {
    |t| >= 1 && t[0] == '.'
  }

  function Popped(stack: seq<string>): seq<string> {
    if stack == [] then [] else stack[..|stack| - 1]
  }

  /** One name: two leading dots go up, one leading dot stands for nothing, any other name
      is pushed, if the buffer of `size` characters has room for it. */
  function Apply(stack: seq<string>, t: string, size: int): Option<seq<string>> {
    if Up(t) then Some(Popped(stack))
    else if Dotted(t) then Some(stack)
    else if |Text(stack)| + |t| + 2 > size then None
    else Some(stack + [t])
  }

  function Fold(stack: seq<string>, ts: seq<string>, size: int): Option<seq<string>>
    decreases |ts|
  {
    if ts == [] then Some(stack)
    else
      var s := Apply(stack, ts[0], size);
      if s == None then None else Fold(s.value, ts[1..], size)
  }

  /** The names that a path comes down to, if it can be resolved. */
  function Resolve(path: string, size: int): Option<seq<string>> {
    if path == [] || path[0] != '/' || size < 2 then None else Fold([], Tokens(path), size)
  }

  /** A string in a buffer, closed by a zero. */
  ghost predicate Holds(b: seq<char>, s: string) {
    |s| < |b| && b[..|s|] == s && b[|s|] == '\0' && '\0' !in s
  }

  /** Names without slashes, dots in front or zeros, none empty. */
  ghost predicate Proper(stack: seq<string>) {
    forall i :: 0 <= i < |stack| ==> stack[i] != [] && '/' !in stack[i] && stack[i][0] != '.' && '\0' !in stack[i]
  }

  lemma TokenAt(p: string)
    requires p != [] && p[0] != '/'
    ensures var k := FirstSlash(p); k > 0 && '/' !in p[..k] && Tokens(p) == [p[..k]] + Tokens(p[k..])
  {
  }

  lemma {:induction false} ApplyProper(stack: seq<string>, t: string, size: int)
    requires Proper(stack) && t != [] && '/' !in t && '\0' !in t
    ensures Apply(stack, t, size).Some? ==> Proper(Apply(stack, t, size).value)
  {
  }

  /** The result has no empty name, no name with a leading dot, and never leaves the root. */
  lemma {:induction false} FoldProper(stack: seq<string>, ts: seq<string>, size: int)
    requires Proper(stack) && forall i :: 0 <= i < |ts| ==> ts[i] != [] && '/' !in ts[i] && '\0' !in ts[i]
    ensures Fold(stack, ts, size).Some? ==> Proper(Fold(stack, ts, size).value)
    decreases |ts|
  {
    if ts != [] {
      ApplyProper(stack, ts[0], size);
      var s := Apply(stack, ts[0], size);
      if s.Some? {
        FoldProper(s.value, ts[1..], size);
      }
    }
  }

  lemma {:induction false} TokensProper(p: string)
    requires '\0' !in p
    ensures forall i :: 0 <= i < |Tokens(p)| ==> Tokens(p)[i] != [] && '/' !in Tokens(p)[i] && '\0' !in Tokens(p)[i]
    decreases |p|
  {
    if p != [] {
      if p[0] == '/' {
        TokensProper(p[1..]);
      } else {
        var k := FirstSlash(p);
        TokensProper(p[k..]);
      }
    }
  }

  /** Every prefix of the stack fits the buffer with its slash and the closing zero. */
  ghost predicate Fitting(stack: seq<string>, size: int) {
    forall i :: 0 <= i < |stack| ==> |Text(stack[..i])| + |stack[i]| + 2 <= size
  }

  lemma {:induction false} FoldFits(stack: seq<string>, ts: seq<string>, size: int)
    requires Fitting(stack, size)
    ensures Fold(stack, ts, size).Some? ==> Fitting(Fold(stack, ts, size).value, size)
    decreases |ts|
  {
    if ts != [] {
      var s := Apply(stack, ts[0], size);
      if s.Some? {
        ApplyFits(stack, ts[0], size);
        FoldFits(s.value, ts[1..], size);
      }
    }
  }

  lemma {:induction false} ApplyFits(stack: seq<string>, t: string, size: int)
    requires Fitting(stack, size) && Apply(stack, t, size).Some?
    ensures Fitting(Apply(stack, t, size).value, size)
  {
    var s := Apply(stack, t, size).value;
    forall i | 0 <= i < |s| ensures |Text(s[..i])| + |s[i]| + 2 <= size {
      assert s[..i] == stack[..i];
      assert i == |stack| ==> stack[..i] == stack;
    }
  }

  /** Splitting the text of a stack gives its names back. */
  lemma {:induction false} TokensOfText(stack: seq<string>)
    requires Proper(stack)
    ensures Tokens(Final(stack)) == stack
  {
    hide Tokens, Text;
    NoTokens();
    if stack == [] {
      TextThen([], []);
      assert Text([]) + [] == Text([]);
      LastName(stack);
    } else {
      var n := |stack| - 1;
      var s, t := stack[..n], stack[n];
      assert t + [] == t;
      TokenThen(t, []);
      TextThen(s, t);
      LastName(stack);
      assert Final(stack) == Text(s) + t;
      assert s + [t] == stack;
    }
  }

  lemma NoTokens()
    ensures Tokens([]) == []
  {
  }

  /** What follows a text is split on its own. */
  lemma {:induction false} TextThen(stack: seq<string>, rest: string)
    requires Proper(stack)
    ensures Tokens(Text(stack) + rest) == stack + Tokens(rest)
    decreases |stack|
  {
    if stack == [] {
      assert ("/" + rest)[1..] == rest;
    } else {
      var n := |stack| - 1;
      var s, t := stack[..n], stack[n];
      TokenThen(t, "/" + rest);
      assert ("/" + rest)[1..] == rest;
      assert Text(stack) + rest == Text(s) + (t + ("/" + rest));
      TextThen(s, t + ("/" + rest));
      assert s + ([t] + Tokens(rest)) == stack + Tokens(rest);
    }
  }

  lemma {:induction false} TokenThen(t: string, rest: string)
    requires t != [] && '/' !in t && (rest == [] || rest[0] == '/')
    ensures Tokens(t + rest) == [t] + Tokens(rest)
  {
    var p := t + rest;
    FirstIs(p, |t|);
    var k := |t|;
    assert p[..k] == t && p[k..] == rest;
  }

  /** Pushing the names of a fitting stack one by one gives the stack. */
  lemma {:induction false} FoldBack(stack: seq<string>, i: nat, size: int)
    requires Proper(stack) && Fitting(stack, size) && i <= |stack|
    ensures Fold(stack[..i], stack[i..], size) == Some(stack)
    decreases |stack| - i
  {
    if i < |stack| {
      assert stack[i..][0] == stack[i] && stack[i..][1..] == stack[i + 1..];
      assert stack[..i] + [stack[i]] == stack[..i + 1];
      FoldBack(stack, i + 1, size);
    } else {
      assert stack[..i] == stack;
    }
  }

  /** Resolving the result again, in a buffer of the same size, gives the same path. */
  lemma {:induction false} ResolveTwice(path: string, size: int)
    requires '\0' !in path && Resolve(path, size).Some?
    ensures Resolve(Final(Resolve(path, size).value), size) == Resolve(path, size)
    ensures Proper(Resolve(path, size).value)
    ensures |Final(Resolve(path, size).value)| + 1 <= size
  {
    hide Tokens, Fold, Text;
    var stack := Resolve(path, size).value;
    TokensProper(path);
    assert Proper([]) && Fitting([], size);
    FoldProper([], Tokens(path), size);
    FoldFits([], Tokens(path), size);
    TokensOfText(stack);
    FoldBack(stack, 0, size);
    assert stack[..0] == [] && stack[0..] == stack;
    FinalFits(stack, size);
  }

  lemma FinalFits(stack: seq<string>, size: int)
    requires Fitting(stack, size) && size >= 2
    ensures |Final(stack)| + 1 <= size && Final(stack) != [] && Final(stack)[0] == '/'
  {
    if stack != [] {
      assert stack[|stack| - 1] == stack[|stack| - 1];
      assert Text(stack) == Text(stack[..|stack| - 1]) + stack[|stack| - 1] + "/";
    }
  }

  // ----- in place -----

  /** The character at a place of a C string: a zero closes it. */
  function At(p: string, i: nat): char {
    if i < |p| then p[i] else '\0'
  }

  /** The names on the stack stand in the buffer; the last is closed by a slash if `open`. */
  ghost predicate Built(b: seq<char>, n: nat, stack: seq<string>, open: bool) {
    var s := if open then Text(stack) else Final(stack);
    Proper(stack) && n == |s| && Holds(b, s) && (!open ==> stack != [])
  }

  /** Behind the slashes at and after a place: the same names are left. */
  method SkipSlashes(path: string, index0: nat) returns (index: nat)
    requires index0 < |path| && path[index0] == '/' && '\0' !in path
    ensures index0 < index <= |path| && (index < |path| ==> path[index] != '/')
    ensures Tokens(path[index..]) == Tokens(path[index0..])
  {
    index := index0 + 1;
    SlashFirst(path, index0);
    while At(path, index) == '/'
      invariant index0 < index <= |path| && Tokens(path[index..]) == Tokens(path[index0..])
      decreases |path| - index
    {
      SlashFirst(path, index);
      index := index + 1;
    }
  }

  lemma SlashFirst(path: string, i: nat)
    requires i < |path| && path[i] == '/'
    ensures Tokens(path[i..]) == Tokens(path[i + 1..])
  {
    assert path[i..][1..] == path[i + 1..];
  }

  /** The length of the name at a place. */
  method TokenLength(path: string, index: nat) returns (n: nat)
    requires index <= |path|
    ensures n == FirstSlash(path[index..])
    ensures index + n <= |path| && (index + n < |path| ==> path[index + n] == '/')
  {
    n := 0;
    while index + n < |path| && path[index + n] != '/'
      invariant index + n <= |path| && forall i :: index <= i < index + n ==> path[i] != '/'
      decreases |path| - index - n
    {
      n := n + 1;
    }
    FirstIs(path[index..], n);
  }

  lemma {:induction false} FirstIs(p: string, n: nat)
    requires n <= |p| && (n < |p| ==> p[n] == '/') && forall i :: 0 <= i < n ==> p[i] != '/'
    ensures FirstSlash(p) == n
  {
    if n > 0 {
      FirstIs(p[1..], n - 1);
    }
  }

  /** Takes the last name off: backwards to the slash before it, leaving zeros. */
  method PopName(buffer: array<char>, n0: nat, ghost stack: seq<string>) returns (n: nat)
    requires Built(buffer[..], n0, stack, true)
    modifies buffer
    ensures Built(buffer[..], n, Popped(stack), true)
  {
    n := n0 - 1;
    ghost var b := buffer[..];
    ghost var rest := Text(Popped(stack));
    LastName(stack);
    while n > 0
      invariant if stack == [] then n == 0 && buffer[..] == b else |rest| <= n < n0 && buffer[..|rest|] == rest
      invariant forall i :: |rest| <= i < n ==> buffer[i] == b[i]
      invariant forall i :: n <= i < n0 - 1 ==> buffer[i] == '\0'
      decreases n
    {
      n := n - 1;
      if buffer[n] == '/' {
        break;
      }
      buffer[n] := '\0';
    }
    n := n + 1;
  }

  lemma LastName(stack: seq<string>)
    requires Proper(stack)
    ensures stack == [] ==> Text(stack) == "/"
    ensures stack != [] ==> Text(stack) == Text(Popped(stack)) + stack[|stack| - 1] + "/"
  {
  }

  /** Puts a name behind the others, with a slash if one follows it in the path. */
  method PushName(buffer: array<char>, n0: nat, t: string, slash: bool, size: nat, ghost stack: seq<string>)
      returns (n: nat)
    requires Built(buffer[..], n0, stack, true) && n0 + |t| + 2 <= size <= buffer.Length
    requires t != [] && '/' !in t && t[0] != '.' && '\0' !in t
    modifies buffer
    ensures Built(buffer[..], n, stack + [t], slash)
  {
    n := n0;
    ghost var s := Text(stack);
    var k := 0;
    while k < |t|
      invariant 0 <= k <= |t| && buffer[..n0] == s && buffer[n0..n0 + k] == t[..k]
    {
      buffer[n + k] := t[k];
      k := k + 1;
    }
    assert t[..k] == t;
    assert buffer[..n0 + |t|] == s + t;
    n := n + |t|;
    assert (stack + [t])[..|stack|] == stack;
    assert Text(stack + [t]) == s + t + "/";
    if slash {
      buffer[n] := '/';
      n := n + 1;
    }
    buffer[n] := '\0';
  }

  /** What is left to do at a place in the path. */
  ghost predicate Going(path: string, size: nat, index: nat, b: seq<char>, n: nat, stack: seq<string>, open: bool) {
    && index <= |path| && (index < |path| ==> path[index] == '/' && open)
    && Built(b, n, stack, open) && Fold(stack, Tokens(path[index..]), size) == Resolve(path, size)
  }

  /** One turn of the loop: false when the buffer is too small. */
  method OneName(path: string, buffer: array<char>, size: nat, index0: nat, n0: nat, ghost stack0: seq<string>)
    returns (ok: bool, index: nat, n: nat, ghost stack: seq<string>, ghost open: bool)
    requires '\0' !in path && size <= buffer.Length && index0 < |path|
      && Going(path, size, index0, buffer[..], n0, stack0, true)
    modifies buffer
    ensures !ok ==> Resolve(path, size) == None
    ensures ok ==> index0 < index && Going(path, size, index, buffer[..], n, stack, open)
  {
    hide Fold, Tokens, Resolve, Text, Holds, Final;
    ok, n, stack, open := true, n0, stack0, true;
    index := SkipSlashes(path, index0);
    var length := TokenLength(path, index);
    if length > 0 {
      var t := path[index..index + length];
      OneToken(path, index, length, stack, size);
      BuiltSize(buffer[..], n, stack);
      index := index + length;
      if Up(t) {
        n := PopName(buffer, n, stack);
        stack := Popped(stack);
      } else if Dotted(t) {
      } else {
        if n + length + 2 > size {
          return false, index, n, stack, open;
        }
        var slash := At(path, index) == '/';
        n := PushName(buffer, n, t, slash, size, stack);
        open := slash;
        stack := stack + [t];
      }
    }
  }

  lemma BuiltSize(b: seq<char>, n: nat, stack: seq<string>)
    requires Built(b, n, stack, true)
    ensures n == |Text(stack)|
  {
  }

  /** The name at a place is applied, and the rest follows it. */
  lemma OneToken(path: string, index: nat, length: nat, stack: seq<string>, size: nat)
    requires index + length <= |path| && length > 0 && length == FirstSlash(path[index..]) && '\0' !in path
    ensures var t := path[index..index + length];
      && t != [] && '/' !in t && '\0' !in t
      && var s := Apply(stack, t, size);
         Fold(stack, Tokens(path[index..]), size) == if s == None then None
           else Fold(s.value, Tokens(path[index + length..]), size)
  {
    var p := path[index..];
    TokenAt(p);
    assert p[..length] == path[index..index + length] && p[length..] == path[index + length..];
  }

  /** fs_resolve_path. */
  method ResolvePath(path: string, buffer: array<char>, size: int) returns (ok: bool)
    requires '\0' !in path && size <= buffer.Length
    modifies buffer
    ensures ok <==> Resolve(path, size).Some?
    ensures ok ==> Holds(buffer[..], Final(Resolve(path, size).value))
  {
    hide Fold, Tokens, Text, Final;
    if At(path, 0) != '/' {
      return false;
    }
    if size < 2 {
      return false;
    }
    buffer[0] := '/';
    buffer[1] := '\0';
    var index, n := 0, 1;
    ghost var stack: seq<string>, open := [], true;
    Start(buffer[..]);
    assert path[0..] == path;
    while index < |path| - 1
      invariant Going(path, size, index, buffer[..], n, stack, open)
      decreases |path| - index
    {
      var more;
      more, index, n, stack, open := OneName(path, buffer, size, index, n, stack);
      if !more {
        return false;
      }
    }
    NothingLeft(path, index, stack, size);
    FinalOf(stack);
    if n > 2 {
      if buffer[n - 1] == '/' {
        buffer[n - 1] := '\0';
      }
    }
    ok := true;
  }

  lemma Start(b: seq<char>)
    requires |b| >= 2 && b[0] == '/' && b[1] == '\0'
    ensures Built(b, 1, [], true)
  {
  }

  /** At the last character of the path no name is left. */
  lemma NothingLeft(path: string, index: nat, stack: seq<string>, size: nat)
    requires index <= |path| <= index + 1 && (index < |path| ==> path[index] == '/')
    ensures Fold(stack, Tokens(path[index..]), size) == Some(stack)
  {
    if index < |path| {
      SlashFirst(path, index);
      assert path[index + 1..] == [];
    } else {
      assert path[index..] == [];
    }
  }

  lemma FinalOf(stack: seq<string>)
    requires Proper(stack)
    ensures stack == [] ==> Text(stack) == Final(stack) == "/"
    ensures stack != [] ==>
      |Text(stack)| > 2 && Text(stack) == Final(stack) + "/" && Final(stack)[|Final(stack)| - 1] != '/'
  {
    if stack != [] {
      LastName(stack);
    }
  }

  // ----- one more component -----

  lemma {:induction false} FoldOne(stack: seq<string>, ts: seq<string>, t: string, size: int)
    ensures Fold(stack, ts + [t], size) ==
      var s := Fold(stack, ts, size); if s == None then None else Apply(s.value, t, size)
    decreases |ts|
  {
    if ts == [] {
      assert ts + [t] == [t] && [t][1..] == [];
    } else {
      assert (ts + [t])[1..] == ts[1..] + [t];
      var s := Apply(stack, ts[0], size);
      if s.Some? {
        FoldOne(s.value, ts[1..], t, size);
      }
    }
  }

  lemma {:induction false} TokensOne(p: string, t: string)
    requires t != [] && '/' !in t
    ensures Tokens(p + "/" + t) == Tokens(p) + [t]
    decreases |p|
  {
    var q := p + "/" + t;
    if p == [] {
      assert q[1..] == t;
      SlashNone(t);
      assert t[..|t|] == t && t[|t|..] == [];
    } else if p[0] == '/' {
      assert q[1..] == p[1..] + "/" + t;
      TokensOne(p[1..], t);
    } else {
      var k := FirstSlash(p);
      SlashSame(p, t);
      TokenAt(p);
      TokenAt(q);
      assert q[..k] == p[..k] && q[k..] == p[k..] + "/" + t;
      TokensOne(p[k..], t);
      assert [p[..k]] + (Tokens(p[k..]) + [t]) == Tokens(p) + [t];
    }
  }

  lemma SlashNone(t: string)
    requires '/' !in t
    ensures FirstSlash(t) == |t|
  {
  }

  lemma {:induction false} SlashSame(p: string, t: string)
    requires p != [] && '/' !in t
    ensures FirstSlash(p + "/" + t) == FirstSlash(p)
  {
    var q, k, m := p + "/" + t, FirstSlash(p), FirstSlash(p + "/" + t);
    assert q[|p|] == '/' && forall i :: 0 <= i < k ==> q[i] == p[i] != '/';
    assert k < |p| ==> q[k] == p[k];
  }

  /** What one more component does to a path that can be resolved: ".." takes the last name off,
      if there is one; "." nothing; a name without a leading dot is put at the end, if there is
      room for it, its slash and the closing zero. */
  lemma {:induction false} OneMore(path: string, t: string, size: int)
    requires Resolve(path, size).Some? && t != [] && '/' !in t
    ensures var st, r := Resolve(path, size).value, Resolve(path + "/" + t, size);
      && (t == ".." ==> r == Some(if st == [] then [] else st[..|st| - 1]))
      && (t == "." ==> r == Some(st))
      && (t[0] != '.' ==> r == if |Text(st)| + |t| + 2 <= size then Some(st + [t]) else None)
  {
    TokensOne(path, t);
    FoldOne([], Tokens(path), t, size);
    assert (path + "/" + t)[0] == path[0];
  }

  /** A name and ".." behind it cancel. */
  lemma {:induction false} UpCancels(path: string, t: string, size: int)
    requires Resolve(path, size).Some? && t != [] && '/' !in t && t[0] != '.'
    requires |Text(Resolve(path, size).value)| + |t| + 2 <= size
    ensures Resolve(path + "/" + t + "/" + "..", size) == Resolve(path, size)
  {
    OneMore(path, t, size);
    OneMore(path + "/" + t, "..", size);
    var st := Resolve(path, size).value;
    assert (st + [t])[..|st|] == st;
  }

  /** How the resolved path reads: the names with a slash in front of each, the root as a slash. */
  lemma {:induction false} FinalReads(st: seq<string>, t: string)
    ensures Final([]) == "/" && Final([t]) == "/" + t
    ensures st != [] ==> Final(st + [t]) == Final(st) + "/" + t
  {
    assert (st + [t])[..|st|] == st && [t][..0] == [];
    assert Text([t]) == "/" + t + "/";
    if st != [] {
      var a := Text(st);
      assert a == a[..|a| - 1] + "/";
      assert Text(st + [t]) == a + t + "/";
      assert (a + t + "/")[..|a + t|] == a + t;
    }
  }
}
