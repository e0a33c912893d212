/** The ring buffer, and the message queue that is kept in one. */
module Fifo {
  import opened Bytes
  import opened Layout
  import opened Bits

  class Ring {
    const data: array<byte>
    var readIndex: nat
    var writeIndex: nat
    var used: nat

    ghost predicate Valid()
      reads this
    {
      && used <= data.Length
      && (data.Length > 0 ==> readIndex < data.Length && writeIndex == Index(used))
    }

    /** Where the byte lies that is `i` places behind the first. */
    function Index(i: nat): nat
      reads `readIndex
    {
      if readIndex + i < data.Length then readIndex + i else if i <= data.Length then readIndex + i - data.Length else 0
    }

    /** The queue of bytes that the ring stands for. */
    ghost function Contents(): (s: seq<byte>)
      requires Valid()
      reads this, data
      ensures |s| == used
    {
      seq(used, i requires 0 <= i < used && Valid() reads this, data => data[Index(i)])
    }

    constructor (data: array<byte>)
      ensures Valid() && this.data == data && Contents() == []
    {
      this.data := data;
      readIndex, writeIndex, used := 0, 0, 0;
    }

    method Clear()
      modifies `readIndex, `writeIndex, `used
      ensures Valid() && Contents() == []
    {
      used, readIndex, writeIndex := 0, 0, 0;
    }

    function Room(): nat
      requires Valid()
      reads this
    {
      data.Length - used
    }

    method PutByte(b: byte)
      requires Valid() && used < data.Length
      modifies `writeIndex, `used, data
      ensures Valid() && Contents() == old(Contents()) + [b]
    {
      ghost var c := Contents();
      data[writeIndex] := b;
      used := used + 1;
      writeIndex := writeIndex + 1;
      WrapAround(writeIndex, data.Length);
      writeIndex := writeIndex % data.Length;
      forall i | 0 <= i < used ensures Contents()[i] == (c + [b])[i] {
        assert i < used - 1 ==> Index(i) != Index(used - 1);
      }
    }

    method TakeByte() returns (b: byte)
      requires Valid() && used > 0
      modifies `readIndex, `used
      ensures Valid() && b == old(Contents())[0] && Contents() == old(Contents())[1..]
    {
      ghost var c := Contents();
      b := data[readIndex];
      assert b == c[0];
      used := used - 1;
      readIndex := readIndex + 1;
      WrapAround(readIndex, data.Length);
      readIndex := readIndex % data.Length;
      forall i | 0 <= i < used ensures Contents()[i] == c[i + 1] {
      }
    }

    /** fifobuffer_enqueue: as much of `d` as fits; -1 if `d` is empty. */
    method Enqueue(d: seq<byte>) returns (n: int)
      requires Valid()
      modifies this, data
      ensures Valid()
      ensures n == if d == [] then -1 else if |d| <= old(Room()) then |d| else old(Room())
      ensures Contents() == if d == [] then old(Contents()) else old(Contents()) + d[..n]
    {
      if d == [] {
        return -1;
      }
      var i := 0;
      assert d[..0] == [];
      while used < data.Length && i < |d|
        invariant Valid() && 0 <= i <= |d| && used == old(used) + i && Contents() == old(Contents()) + d[..i]
        decreases |d| - i
      {
        PutByte(d[i]);
        assert d[..i + 1] == d[..i] + [d[i]];
        i := i + 1;
      }
      n := i;
    }

    /** fifobuffer_dequeue: up to `size` bytes; -1 if none are asked for. */
    method Dequeue(size: nat) returns (n: int, d: seq<byte>)
      requires Valid()
      modifies this
      ensures Valid()
      ensures n == if size == 0 then -1 else if size <= old(used) then size else old(used)
      ensures size == 0 ==> d == [] && Contents() == old(Contents())
      ensures size > 0 ==> d == old(Contents())[..n] && Contents() == old(Contents())[n..]
    {
      if size == 0 {
        return -1, [];
      }
      d := [];
      if used == 0 {
        return 0, [];
      }
      var i := 0;
      while used > 0 && i < size
        invariant Valid() && 0 <= i <= old(used) && i <= size && used == old(used) - i
        invariant d == old(Contents())[..i] && Contents() == old(Contents())[i..]
        decreases size - i
      {
        var b := TakeByte();
        assert old(Contents())[i..][1..] == old(Contents())[i + 1..];
        d := d + [b];
        i := i + 1;
      }
      n := i;
    }

    /** fifobuffer_enqueue_from_other: moves as much as fits from the front of another ring. */
    method EnqueueFrom(other: Ring) returns (n: nat)
      requires Valid() && other.Valid() && other != this && other.data != data
      modifies this, data, other
      ensures Valid() && other.Valid()
      ensures n == if old(other.used) <= old(Room()) then old(other.used) else old(Room())
      ensures Contents() == old(Contents()) + old(other.Contents())[..n]
        && other.Contents() == old(other.Contents())[n..]
      ensures Contents() + other.Contents() == old(Contents() + other.Contents())
    {
      ghost var c, o := Contents(), other.Contents();
      n := 0;
      if other.used > 0 {
        while used < data.Length && other.used > 0
          invariant Valid() && other.Valid() && 0 <= n <= |o| && used == old(used) + n && other.used == |o| - n
          invariant Contents() == c + o[..n] && other.Contents() == o[n..]
          decreases other.used
        {
          MoveParts(c, o, n);
          var b := other.TakeByte();
          PutByte(b);
          n := n + 1;
        }
      }
      assert c + o[..n] + o[n..] == c + o;
    }

    static lemma MoveParts(c: seq<byte>, o: seq<byte>, n: nat)
      requires n < |o|
      ensures o[n..][0] == o[n] && o[n..][1..] == o[n + 1..] && c + o[..n] + [o[n]] == c + o[..n + 1]
    {
    }
  }

  // ----- messages -----

  /** The bytes of some messages, one after the other. */
  function Flat(ms: seq<seq<byte>>): seq<byte> {
    if ms == [] then [] else Flat(ms[..|ms| - 1]) + ms[|ms| - 1]
  }

  ghost predicate Sized(ms: seq<seq<byte>>, size: nat) {
    forall i :: 0 <= i < |ms| ==> |ms[i]| == size
  }

  lemma {:induction false} FlatSize(ms: seq<seq<byte>>, size: nat)
    requires Sized(ms, size)
    ensures |Flat(ms)| == |ms| * size
  {
    if ms != [] {
      FlatSize(ms[..|ms| - 1], size);
      assert |ms| * size == (|ms| - 1) * size + size;
    }
  }

  lemma {:induction false} FlatFirst(ms: seq<seq<byte>>)
    requires ms != []
    ensures Flat(ms) == ms[0] + Flat(ms[1..])
    decreases |ms|
  {
    if |ms| == 1 {
      assert ms[..0] == [] && ms[1..] == [];
    } else {
      var n, init, tail := |ms| - 1, ms[..|ms| - 1], ms[1..];
      FlatFirst(init);
      assert init[0] == ms[0] && init[1..] == tail[..n - 1] && tail[n - 1] == ms[n];
      assert Flat(tail) == Flat(tail[..n - 1]) + ms[n];
    }
  }

  /** The message queue of a thread: its ring holds whole messages. */
  class MessageQueue {
    const ring: Ring
    const size: nat
    ghost var messages: seq<seq<byte>>

    /** The capacity is a multiple of the message size, as a thread is created with. */
    ghost predicate Valid()
      reads this, ring, ring.data
    {
      && ring.Valid() && size > 0 && ring.data.Length % size == 0
      && Sized(messages, size) && ring.Contents() == Flat(messages)
    }

    constructor (ring: Ring, size: nat)
      requires ring.Valid() && size > 0 && ring.data.Length % size == 0 && ring.Contents() == []
      ensures Valid() && this.ring == ring && this.size == size && messages == []
    {
      this.ring, this.size, messages := ring, size, [];
    }

    /** How many messages there is room for. */
    lemma Places()
      requires Valid()
      ensures ring.used == |messages| * size && |messages| <= ring.data.Length / size
      ensures |messages| < ring.data.Length / size <==> size <= ring.Room()
      ensures |messages| == ring.data.Length / size ==> ring.Room() == 0
      ensures ring.used / size == |messages|
    {
      FlatSize(messages, size);
      WholeParts(ring.used, |messages|, ring.data.Length, size);
    }

    /** message_send: the whole message is queued, or nothing of it when the queue is full. */
    method Send(message: seq<byte>)
      requires Valid() && |message| == size
      modifies `messages, ring, ring.data
      ensures Valid()
      ensures messages == if |old(messages)| < ring.data.Length / size then old(messages) + [message] else old(messages)
    {
      Places();
      var n := ring.Enqueue(message);
      if |messages| < ring.data.Length / size {
        assert (messages + [message])[..|messages|] == messages;
        messages := messages + [message];
      }
    }

    /** message_get_next: the oldest message, and how many are left; -1 if there was none. */
    method GetNext() returns (left: int, message: seq<byte>)
      requires Valid()
      modifies `messages, ring
      ensures Valid()
      ensures left == |old(messages)| - 1
      ensures old(messages) != [] ==> message == old(messages)[0] && messages == old(messages)[1..]
      ensures old(messages) == [] ==> messages == []
    {
      Places();
      left, message := ring.used / size, [];
      if left > 0 {
        FlatFirst(messages);
        var n;
        n, message := ring.Dequeue(size);
        messages := messages[1..];
        left := left - 1;
      } else {
        left := -1;
      }
    }
  }

  lemma WholeParts(u: nat, k: nat, c: nat, m: nat)
    requires m > 0 && c % m == 0 && u == k * m && u <= c
    ensures k <= c / m && (k < c / m <==> m <= c - u) && (k == c / m ==> c == u) && u / m == k
  {
    var q := c / m;
    assert c == m * q;
    assert u == m * k + 0;
    ModIs(u, m, k, 0);
    Monotone(m, k, q);
    Monotone(m, q, k);
  }

  lemma Monotone(m: nat, a: nat, b: nat)
    ensures a < b ==> m * a + m <= m * b
  {
    if a < b {
      MulMono(m, a + 1, b);
      MulSucc(m, a);
    }
  }

  /** An index that moved on by one, wrapped around. */
  lemma WrapAround(x: nat, n: nat)
    requires x <= n && n > 0
    ensures x % n == if x == n then 0 else x
  {
  }
}
