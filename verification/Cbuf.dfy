/** The circular buffer of `cbuf.cpp`: an array and two positions, one slot always free. */
module Cbuf {
  import opened Bytes

  /** A position past the end goes on at the start. */
  function Around(p: nat, size: nat): nat
    requires p < 2 * size
  {
    if p < size then p else p - size
  }

  function Length(b: nat, e: nat, size: nat): (n: nat)
    requires b < size && e < size
    ensures n < size && Around(b + n, size) == e
  {
    if b <= e then e - b else size - (b - e)
  }

  /** The byte `i` places on from `b`. */
  function Slot(s: seq<byte>, b: nat, i: int): byte
    requires b < |s| && 0 <= i < |s|
  {
    s[Around(b + i, |s|)]
  }

  /** The live part of a buffer, from `b` around to `e`. */
  function Live(s: seq<byte>, b: nat, e: nat): (r: seq<byte>)
    requires b < |s| && e < |s|
    ensures |r| == Length(b, e, |s|) && forall i :: 0 <= i < |r| ==> r[i] == Slot(s, b, i)
  {
    seq(Length(b, e, |s|), i requires 0 <= i < Length(b, e, |s|) => Slot(s, b, i))
  }

  lemma Skip(s: seq<byte>, b: nat, e: nat, n: nat)
    requires b < |s| && e < |s| && n <= Length(b, e, |s|)
    ensures Live(s, Around(b + n, |s|), e) == Live(s, b, e)[n..]
  {
    hide Live;
    var b' := Around(b + n, |s|);
    forall i | 0 <= i < Length(b, e, |s|) - n
      ensures Slot(s, b', i) == Slot(s, b, n + i)
    {
    }
  }

  /** In one piece, or around the end of the buffer. */
  lemma Pieces(s: seq<byte>, b: nat, e: nat, n: nat)
    requires b < |s| && e < |s| && n <= Length(b, e, |s|)
    ensures b + n <= |s| ==> s[b..b + n] == Live(s, b, e)[..n]
    ensures b + n > |s| ==> s[b..] + s[..b + n - |s|] == Live(s, b, e)[..n]
  {
    hide Live;
    var r := Live(s, b, e);
    forall i | 0 <= i < n
      ensures r[i] == s[Around(b + i, |s|)]
    {
      assert r[i] == Slot(s, b, i);
    }
  }

  /** Bytes written behind the live part extend it. */
  lemma Extend(s: seq<byte>, s': seq<byte>, b: nat, e: nat, src: seq<byte>)
    requires b < |s| == |s'| && e < |s| && Length(b, e, |s|) + |src| < |s|
    requires forall j :: 0 <= j < |src| ==> Slot(s', e, j) == src[j]
    requires forall i :: 0 <= i < Length(b, e, |s|) ==> Slot(s', b, i) == Slot(s, b, i)
    ensures Live(s', b, Around(e + |src|, |s|)) == Live(s, b, e) + src
  {
    hide Live;
    var n, e' := Length(b, e, |s|), Around(e + |src|, |s|);
    var r := Live(s', b, e');
    assert Length(b, e', |s|) == n + |src|;
    forall i | 0 <= i < n + |src|
      ensures r[i] == (Live(s, b, e) + src)[i]
    {
      assert r[i] == Slot(s', b, i);
      if i >= n {
        assert Slot(s', b, i) == Slot(s', e, i - n);
      }
    }
  }

  /** `src` lies from `e` on, around the end of the buffer if need be. */
  ghost predicate Written(s: seq<byte>, s': seq<byte>, e: nat, src: seq<byte>) {
    && |s'| == |s| && e < |s| && |src| < |s|
    && forall k :: 0 <= k < |s| ==>
         s'[k] == if e <= k < e + |src| then src[k - e] else if k + |s| < e + |src| then src[k + |s| - e] else s[k]
  }

  lemma ExtendWritten(s: seq<byte>, s': seq<byte>, b: nat, e: nat, src: seq<byte>)
    requires Written(s, s', e, src) && b < |s| && Length(b, e, |s|) + |src| < |s|
    ensures Live(s', b, Around(e + |src|, |s|)) == Live(s, b, e) + src
  {
    hide Live;
    forall j | 0 <= j < |src|
      ensures Slot(s', e, j) == src[j]
    {
    }
    forall i | 0 <= i < Length(b, e, |s|)
      ensures Slot(s', b, i) == Slot(s, b, i)
    {
    }
    Extend(s, s', b, e, src);
  }

  // ----- a bounded queue

  datatype Queue = Queue(items: seq<byte>, size: nat)

  datatype Op =
    | Put(c: byte)
    | PutAll(s: seq<byte>)
    | Get
    | GetAll(n: nat)
    | Look(n: nat)
    | Drop(n: nat)
    | Flush
    | Resize(n: nat, memory: bool)

  function Room(q: Queue): int {
    q.size - 1 - |q.items|
  }

  /** How many of the bytes offered fit. */
  function Taken(q: Queue, op: Op): (n: nat)
    requires Room(q) >= 0
    ensures n <= Room(q)
  {
    match op
    case Put(_) => Min(1, Room(q))
    case PutAll(s) => Min(|s|, Room(q))
    case _ => 0
  }

  /** The bytes an operation adds. */
  function Added(q: Queue, op: Op): seq<byte>
    requires Room(q) >= 0
  {
    match op
    case Put(c) => [c][..Taken(q, op)]
    case PutAll(s) => s[..Taken(q, op)]
    case _ => []
  }

  /** How many bytes an operation takes away. */
  function Removed(q: Queue, op: Op): (n: nat)
    ensures n <= |q.items|
  {
    match op
    case Get => Min(1, |q.items|)
    case GetAll(n) => Min(n, |q.items|)
    case Drop(n) => Min(n, |q.items|)
    case Flush => |q.items|
    case _ => 0
  }

  /** A bounded queue that holds one byte less than its size. */
  function Step(q: Queue, op: Op): (r: Queue)
    requires Room(q) >= 0
    ensures Room(r) >= 0
  {
    var size := if op.Resize? && op.memory && op.n > |q.items| then op.n else q.size;
    Queue(q.items[Removed(q, op)..] + Added(q, op), size)
  }

  /** What an operation hands out. */
  function Out(q: Queue, op: Op): seq<byte> {
    match op
    case Get => q.items[..Removed(q, op)]
    case GetAll(_) => q.items[..Removed(q, op)]
    case Look(n) => q.items[..Min(n, |q.items|)]
    case _ => []
  }

  /**
    What an operation on a queue `q` must come to: `taken` bytes in, `out` handed out, and `r` left. As much is put in,
    handed out or dropped as was asked for and is possible.
  */
  ghost predicate Means(q: Queue, op: Op, r: Queue, out: seq<byte>, taken: nat) {
    var room := q.size - 1 - |q.items|;
    (op.Resize? || r.size == q.size) &&
    match op
    case Put(c) => out == [] && taken == (if room > 0 then 1 else 0) && r.items == q.items + [c][..taken]
    case PutAll(s) =>
      && out == [] && taken <= |s| && taken <= room && (taken == |s| || taken == room)
      && r.items == q.items + s[..taken]
    case Get => out + r.items == q.items && |out| <= 1 && (out == [] ==> q.items == [])
    case GetAll(n) => out + r.items == q.items && |out| <= n && (|out| == n || r.items == [])
    case Look(n) => r.items == q.items && out <= q.items && |out| <= n && (|out| == n || out == q.items)
    case Drop(n) =>
      && out == [] && |r.items| <= |q.items| && q.items[|q.items| - |r.items|..] == r.items
      && |q.items| - |r.items| <= n && (|q.items| - |r.items| == n || r.items == [])
    case Flush => out == [] && r.items == []
    case Resize(n, memory) =>
      out == [] && r.items == q.items && r.size == if memory && n > |q.items| then n else q.size
  }

  lemma StepMeans(q: Queue, op: Op)
    requires Room(q) >= 0
    ensures Means(q, op, Step(q, op), Out(q, op), Taken(q, op))
  {
  }

  lemma GetMeans(q: Queue)
    requires Room(q) >= 0
    ensures q.items == [] ==> Step(q, Get) == q && Out(q, Get) == [] && Means(q, Get, q, [], 0)
    ensures q.items != [] ==>
              var r, out := Queue(q.items[1..], q.size), [q.items[0]];
              Step(q, Get) == r && Out(q, Get) == out && Means(q, Get, r, out, 0)
  {
    StepMeans(q, Get);
    hide Means;
    if q.items != [] {
      assert q.items[..1] == [q.items[0]];
    }
  }

  lemma GetAllMeans(q: Queue, n: nat)
    requires Room(q) >= 0
    ensures Out(q, GetAll(n)) == Out(q, Look(n)) == q.items[..Min(n, |q.items|)]
    ensures Step(q, GetAll(n)) == Queue(q.items[Min(n, |q.items|)..], q.size)
    ensures Means(q, GetAll(n), Step(q, GetAll(n)), Out(q, GetAll(n)), 0)
  {
    StepMeans(q, GetAll(n));
    hide Means;
  }

  lemma LookMeans(q: Queue, n: nat)
    requires Room(q) >= 0
    ensures Out(q, Look(n)) == q.items[..Min(n, |q.items|)] && Means(q, Look(n), q, Out(q, Look(n)), 0)
  {
    StepMeans(q, Look(n));
    LookStays(q, n);
  }

  lemma LookStays(q: Queue, n: nat)
    requires Room(q) >= 0
    ensures Step(q, Look(n)) == q
  {
  }

  function RunOps(q: Queue, ops: seq<Op>): (r: Queue)
    requires Room(q) >= 0
    ensures Room(r) >= 0
  {
    if ops == [] then q else Step(RunOps(q, ops[..|ops| - 1]), ops[|ops| - 1])
  }

  /** All bytes handed out, put in and taken away over a run. */
  function Outs(q: Queue, ops: seq<Op>): seq<byte>
    requires Room(q) >= 0
  {
    if ops == [] then [] else Outs(q, ops[..|ops| - 1]) + Out(RunOps(q, ops[..|ops| - 1]), ops[|ops| - 1])
  }

  function Ins(q: Queue, ops: seq<Op>): seq<byte>
    requires Room(q) >= 0
  {
    if ops == [] then [] else Ins(q, ops[..|ops| - 1]) + Added(RunOps(q, ops[..|ops| - 1]), ops[|ops| - 1])
  }

  function Gone(q: Queue, ops: seq<Op>): seq<byte>
    requires Room(q) >= 0
  {
    if ops == [] then [] else
    var before := RunOps(q, ops[..|ops| - 1]);
    Gone(q, ops[..|ops| - 1]) + before.items[..Removed(before, ops[|ops| - 1])]
  }

  /**
    Over any run nothing is lost, doubled or reordered: what is gone and what is left is what was there and what was
    put in.
  */
  lemma {:induction false} OrderKept(q: Queue, ops: seq<Op>)
    requires Room(q) >= 0
    ensures Gone(q, ops) + RunOps(q, ops).items == q.items + Ins(q, ops)
  {
    if ops != [] {
      var rest, op := ops[..|ops| - 1], ops[|ops| - 1];
      OrderKept(q, rest);
      StepKeepsOrder(q, Gone(q, rest), Ins(q, rest), RunOps(q, rest), op);
    }
  }

  lemma StepKeepsOrder(q: Queue, gone: seq<byte>, ins: seq<byte>, before: Queue, op: Op)
    requires Room(before) >= 0 && gone + before.items == q.items + ins
    ensures (gone + before.items[..Removed(before, op)]) + Step(before, op).items == q.items + (ins + Added(before, op))
  {
    hide Removed;
    hide Added;
    var k, added := Removed(before, op), Added(before, op);
    Regroup(gone, before.items[..k], before.items[k..], added);
    assert before.items[..k] + before.items[k..] == before.items;
    assert q.items + ins + added == q.items + (ins + added);
  }

  lemma Regroup(a: seq<byte>, b: seq<byte>, c: seq<byte>, d: seq<byte>)
    ensures (a + b) + (c + d) == a + (b + c) + d
  {
  }

  /** And without peeks, removals and flushes the reader gets exactly what is gone. */
  lemma {:induction false} ReadersGetAll(q: Queue, ops: seq<Op>)
    requires Room(q) >= 0
    requires forall i :: 0 <= i < |ops| ==> !ops[i].Look? && !ops[i].Drop? && !ops[i].Flush?
    ensures Outs(q, ops) == Gone(q, ops)
  {
    if ops != [] {
      ReadersGetAll(q, ops[..|ops| - 1]);
    }
  }

  class Cbuf {
    var buf: array<byte>
    var begin: nat
    var end: nat

    ghost predicate Valid()
      reads this
    {
      begin < buf.Length && end < buf.Length
    }

    ghost function Value(): (q: Queue)
      requires Valid()
      reads this, buf
      ensures Room(q) >= 0
    {
      Queue(Live(buf[..], begin, end), buf.Length)
    }

    constructor (size: nat)
      requires size >= 1
      ensures Valid() && fresh(buf) && Value() == Queue([], size)
    {
      buf := new byte[size](_ => 0);
      begin, end := 0, 0;
    }

    function Wrap(p: nat): nat
      reads this
    {
      if p == buf.Length then 0 else p
    }

    method Available() returns (n: nat)
      requires Valid()
      ensures n == |Value().items|
    {
      if end >= begin {
        return end - begin;
      }
      return buf.Length - (begin - end);
    }

    method RoomLeft() returns (n: nat)
      requires Valid()
      ensures n == Room(Value()) == buf.Length - 1 - |Value().items|
    {
      if end >= begin {
        return buf.Length - (end - begin) - 1;
      }
      return begin - end - 1;
    }

    /** `write(char)`. */
    method Write(c: byte) returns (n: nat)
      requires Valid()
      modifies this, buf
      ensures Valid() && buf == old(buf) && n == Taken(old(Value()), Put(c)) && Value() == Step(old(Value()), Put(c))
      ensures Means(old(Value()), Put(c), Value(), [], n)
    {
      hide Means;
      StepMeans(Value(), Put(c));
      if Wrap(end + 1) == begin {
        return 0;
      }
      ghost var before := buf[..];
      buf[end] := c;
      Extend(before, buf[..], begin, end, [c]);
      end := Wrap(end + 1);
      return 1;
    }

    /** `memcpy` into the buffer. */
    method CopyIn(at: nat, src: seq<byte>)
      requires at + |src| <= buf.Length
      modifies buf
      ensures forall k :: 0 <= k < buf.Length ==> buf[k] == if at <= k < at + |src| then src[k - at] else old(buf[k])
    {
      for i := 0 to |src|
        invariant forall k :: 0 <= k < buf.Length ==> buf[k] == if at <= k < at + i then src[k - at] else old(buf[k])
      {
        buf[at + i] := src[i];
      }
    }

    /** `read(char)`, -1 if there is nothing. */
    method Read() returns (c: int)
      requires Valid()
      modifies this
      ensures Valid() && buf == old(buf) && Value() == Step(old(Value()), Get)
      ensures if old(Value()).items == [] then c == -1 else c == old(Value()).items[0] && [c] == Out(old(Value()), Get)
      ensures Means(old(Value()), Get, Value(), if c < 0 then [] else [c], 0)
    {
      hide Means;
      hide Step;
      hide Out;
      hide Live;
      GetMeans(Value());
      if begin == end {
        return -1;
      }
      c := buf[begin];
      Skip(buf[..], begin, end, 1);
      begin := Wrap(begin + 1);
    }

    /** `peek(char)`, -1 if there is nothing. */
    method Peek() returns (c: int)
      requires Valid()
      ensures if Value().items == [] then c == -1 else c == Value().items[0]
    {
      if begin == end {
        return -1;
      }
      return buf[begin];
    }

    /** The copying of `peek`: around the end of the buffer if need be. */
    method CopyOut(n: nat) returns (dst: seq<byte>)
      requires Valid() && n <= |Value().items|
      ensures dst == Value().items[..n]
    {
      hide Live;
      hide Slot;
      hide Around;
      Pieces(buf[..], begin, end, n);
      var from, toRead := begin, n;
      dst := [];
      if end < begin && toRead > buf.Length - begin {
        var top := buf.Length - begin;
        dst := buf[begin..begin + top];
        from := 0;
        toRead := toRead - top;
      }
      dst := dst + buf[from..from + toRead];
    }

    /** `peek(dst, size)`. */
    method PeekAll(size: nat) returns (dst: seq<byte>)
      requires Valid()
      ensures dst == Out(Value(), Look(size))
      ensures Means(Value(), Look(size), Value(), dst, 0)
    {
      hide Live;
      hide Means;
      hide Out;
      LookMeans(Value(), size);
      var available := Available();
      dst := CopyOut(Min(size, available));
    }

    /** `_begin` moves on, around the end of the buffer if need be. */
    method Advance(n: nat)
      requires Valid() && n <= |Value().items|
      modifies `begin
      ensures Valid() && begin == Around(old(begin) + n, buf.Length)
    {
      var rest := n;
      if end < begin && rest > buf.Length - begin {
        var top := buf.Length - begin;
        begin := 0;
        rest := rest - top;
      }
      begin := Wrap(begin + rest);
    }

    /** `read(dst, size)`: what `peek(dst, size)` gives, and `_begin` moves on. */
    method ReadAll(size: nat) returns (dst: seq<byte>)
      requires Valid()
      modifies `begin
      ensures Valid() && dst == Out(old(Value()), GetAll(size)) && Value() == Step(old(Value()), GetAll(size))
      ensures Means(old(Value()), GetAll(size), Value(), dst, 0)
    {
      hide Live;
      hide Means;
      hide Step;
      hide Out;
      GetAllMeans(Value(), size);
      dst := PeekAll(size);
      Skip(buf[..], begin, end, |dst|);
      Advance(|dst|);
    }

    /** The bytes go in from `_end` on, around the end of the buffer if need be. */
    method Place(src: seq<byte>)
      requires Valid() && |src| < buf.Length && (end < begin ==> end + |src| < begin)
      modifies buf, `end
      ensures Valid() && end == Around(old(end) + |src|, buf.Length) && Written(old(buf[..]), buf[..], old(end), src)
    {
      var top := 0;
      if end >= begin && |src| > buf.Length - end {
        top := buf.Length - end;
        CopyIn(end, src[..top]);
        end := 0;
      }
      CopyIn(end, src[top..]);
      end := Wrap(end + (|src| - top));
    }

    /** `write(src, size)`. */
    method WriteAll(src: seq<byte>) returns (n: nat)
      requires Valid()
      modifies this, buf
      ensures Valid() && buf == old(buf) && n == Taken(old(Value()), PutAll(src)) &&
              Value() == Step(old(Value()), PutAll(src))
      ensures Means(old(Value()), PutAll(src), Value(), [], n)
    {
      hide Live;
      hide Written;
      hide Means;
      StepMeans(Value(), PutAll(src));
      var room := RoomLeft();
      n := Min(|src|, room);
      ghost var before, from := buf[..], end;
      Place(src[..n]);
      ExtendWritten(before, buf[..], begin, from, src[..n]);
    }

    method FlushAll()
      requires Valid()
      modifies this
      ensures Valid() && buf == old(buf) && Value() == Step(old(Value()), Flush)
      ensures Means(old(Value()), Flush, Value(), [], 0)
    {
      hide Means;
      StepMeans(Value(), Flush);
      begin, end := 0, 0;
    }

    /** `remove`: what is left. */
    method Remove(size: nat) returns (left: nat)
      requires Valid()
      modifies this
      ensures Valid() && buf == old(buf) && Value() == Step(old(Value()), Drop(size)) && left == |Value().items|
      ensures Means(old(Value()), Drop(size), Value(), [], 0)
    {
      hide Live;
      hide Slot;
      hide Around;
      hide Means;
      StepMeans(Value(), Drop(size));
      var available := Available();
      if size >= available {
        FlushAll();
        return 0;
      }
      Skip(buf[..], begin, end, size);
      Advance(size);
      left := Available();
    }

    /** `resize`: the new size, or the old one if data would be lost or memory is short. */
    method ResizeTo(newSize: nat, memory: bool) returns (size: nat)
      requires Valid()
      modifies this
      ensures Valid() && (buf == old(buf) || fresh(buf))
      ensures Value() == Step(old(Value()), Resize(newSize, memory)) && size == Value().size
      ensures Means(old(Value()), Resize(newSize, memory), Value(), [], 0)
    {
      hide Means;
      StepMeans(Value(), Resize(newSize, memory));
      var available := Available();
      if newSize <= available || newSize == buf.Length || !memory {
        return buf.Length;
      }
      var data := ReadAll(available);
      buf := new byte[newSize](i => if 0 <= i < |data| then data[i] else 0);
      begin, end := 0, available;
      assert buf[..available] == data;
      return newSize;
    }

    method Perform(op: Op) returns (out: seq<byte>)
      requires Valid()
      modifies this, buf
      ensures Valid() && (buf == old(buf) || fresh(buf))
      ensures Value() == Step(old(Value()), op) && out == Out(old(Value()), op)
    {
      hide Live;
      hide Step;
      out := [];
      match op {
        case Put(c) => var _ := Write(c);
        case PutAll(s) => var _ := WriteAll(s);
        case Get =>
          var c := Read();
          if c != -1 {
            out := [c];
          }
        case GetAll(n) => out := ReadAll(n);
        case Look(n) =>
          out := PeekAll(n);
          LookStays(Value(), n);
        case Drop(n) => var _ := Remove(n);
        case Flush => FlushAll();
        case Resize(n, memory) => var _ := ResizeTo(n, memory);
      }
    }

    /** Any operations in any order: the buffer does what the bounded queue does. */
    method PerformAll(ops: seq<Op>) returns (outs: seq<byte>)
      requires Valid()
      modifies this, buf
      ensures Valid() && Value() == RunOps(old(Value()), ops) && outs == Outs(old(Value()), ops)
    {
      hide Live;
      hide Step;
      hide Out;
      ghost var q := Value();
      outs := [];
      assert ops[..0] == [];
      for i := 0 to |ops|
        invariant Valid() && (buf == old(buf) || fresh(buf))
        invariant Value() == RunOps(q, ops[..i]) && outs == Outs(q, ops[..i])
      {
        assert ops[..i + 1][..i] == ops[..i];
        var out := Perform(ops[i]);
        outs := outs + out;
      }
      assert ops[..|ops|] == ops;
    }
  }
}
