/** The two rings a channel stores its messages in: pointer slots addressed modulo the capacity,
    and message bytes addressed by compare-and-subtract. Both hold the same queue. */
module ChannelRing {
  import opened Basics

  /** A ring as a value: `len` messages starting at slot `head`. */
  datatype Ring<T> = Ring(slots: seq<T>, head: nat, len: nat)

  ghost predicate RingOk<T>(r: Ring<T>) {
    |r.slots| > 0 && r.head < |r.slots| && r.len <= |r.slots|
  }

  function Wrap(i: nat, cap: nat): (r: nat)
    requires cap > 0
    ensures r < cap
  {
    i % cap
  }

  /** The queue a ring holds, oldest message first. */
  ghost function Queue<T>(r: Ring<T>): (q: seq<T>)
    requires RingOk(r)
    ensures |q| == r.len
  {
    seq(r.len, i requires 0 <= i < r.len => r.slots[Wrap(r.head + i, |r.slots|)])
  }

  function Put<T>(r: Ring<T>, x: T): Ring<T>
    requires RingOk(r) && r.len < |r.slots|
  {
    Ring(r.slots[Wrap(r.head + r.len, |r.slots|) := x], r.head, r.len + 1)
  }

  function Take<T>(r: Ring<T>): (T, Ring<T>)
    requires RingOk(r) && r.len > 0
  {
    (r.slots[r.head], Ring(r.slots, Wrap(r.head + 1, |r.slots|), r.len - 1))
  }

  /** For an index one wrap away at most, the remainder is a compare and a subtraction. */
  lemma WrapStep(a: nat, b: nat, cap: nat)
    requires cap > 0 && a < cap && b <= cap
    ensures Wrap(a + b, cap) == if a + b < cap then a + b else a + b - cap
  {
  }

  /** Two different places in the queue are two different slots. */
  lemma WrapInjective(head: nat, i: nat, j: nat, cap: nat)
    requires cap > 0 && head < cap && i < cap && j < cap && i != j
    ensures Wrap(head + i, cap) != Wrap(head + j, cap)
  {
    WrapStep(head, i, cap);
    WrapStep(head, j, cap);
  }

  /** Putting appends. */
  lemma PutAppends<T>(r: Ring<T>, x: T)
    requires RingOk(r) && r.len < |r.slots|
    ensures RingOk(Put(r, x)) && Queue(Put(r, x)) == Queue(r) + [x]
  {
    var r' := Put(r, x);
    var cap := |r.slots|;
    forall i | 0 <= i < r.len ensures Queue(r')[i] == Queue(r)[i] {
      WrapInjective(r.head, i, r.len, cap);
    }
  }

  /** Taking removes the oldest. */
  lemma TakeRemoves<T>(r: Ring<T>)
    requires RingOk(r) && r.len > 0
    ensures RingOk(Take(r).1) && Queue(r) == [Take(r).0] + Queue(Take(r).1)
  {
    var r' := Take(r).1;
    var cap := |r.slots|;
    WrapStep(r.head, 0, cap);
    WrapStep(r.head, 1, cap);
    forall i | 0 <= i < r'.len ensures Queue(r')[i] == Queue(r)[i + 1] {
      WrapStep(r'.head, i, cap);
      WrapStep(r.head, i + 1, cap);
    }
  }

  /** `slots`, `head`, `len` of a pointer channel. */
  class PointerRing<T(0)> {
    const slots: array<T>
    var head: nat
    var len: nat

    ghost predicate Valid()
      reads this, slots
    {
      slots.Length > 0 && head < slots.Length && len <= slots.Length
    }

    ghost function Value(): (r: Ring<T>)
      requires Valid()
      reads this, slots
      ensures RingOk(r) && |r.slots| == slots.Length
    {
      Ring(slots[..], head, len)
    }

    /** `chan_new`: a capacity below one is one. */
    constructor (capacity: int)
      ensures Valid() && fresh(slots) && slots.Length == (if capacity < 1 then 1 else capacity)
      ensures Queue(Value()) == []
    {
      slots := new T[if capacity < 1 then 1 else capacity];
      head, len := 0, 0;
    }

    /** The store of `chan_send`, once there is room. */
    method Send(msg: T)
      requires Valid() && len < slots.Length
      modifies this, slots
      ensures Valid() && Value() == Put(old(Value()), msg)
      ensures Queue(Value()) == old(Queue(Value())) + [msg]
    {
      PutAppends(Value(), msg);
      slots[(head + len) % slots.Length] := msg;
      len := len + 1;
    }

    /** The load of `chan_recv`, once there is a message. */
    method Recv() returns (msg: T)
      requires Valid() && len > 0
      modifies this
      ensures Valid() && (msg, Value()) == Take(old(Value()))
      ensures old(Queue(Value())) == [msg] + Queue(Value())
    {
      TakeRemoves(Value());
      msg := slots[head];
      head := (head + 1) % slots.Length;
      len := len - 1;
    }
  }

  /** The bytes of message `i` in a block of messages of `size` bytes. */
  ghost function Cell(data: seq<Byte>, size: nat, i: nat): (r: seq<Byte>)
    requires (i + 1) * size <= |data|
    ensures |r| == size
  {
    assert i * size <= (i + 1) * size;
    data[i * size..(i + 1) * size]
  }

  lemma CellBounds(i: nat, cap: nat, size: nat)
    requires i < cap
    ensures 0 <= i * size && (i + 1) * size == i * size + size <= cap * size
  {
  }

  lemma CellsApart(i: nat, j: nat, size: nat)
    requires i != j
    ensures (i + 1) * size <= j * size || (j + 1) * size <= i * size
  {
  }

  /** Copying a message into one cell changes that cell and no other. */
  lemma CellAfter(before: seq<Byte>, after: seq<Byte>, size: nat, cap: nat, at: nat, src: seq<Byte>, i: nat)
    requires at < cap && i < cap && |before| == cap * size && |src| == size && at * size + size <= |before|
    requires after == before[..at * size] + src + before[at * size + size..]
    ensures |after| == |before| && (i + 1) * size <= |before|
    ensures Cell(after, size, i) == if i == at then src else Cell(before, size, i)
  {
    CellBounds(i, cap, size);
    CellBounds(at, cap, size);
    if i != at {
      CellsApart(i, at, size);
      SliceOutside(before, after, at * size, src, i * size, i * size + size);
    }
  }

  lemma SliceOutside(before: seq<Byte>, after: seq<Byte>, at: nat, src: seq<Byte>, lo: nat, hi: nat)
    requires at + |src| <= |before| && after == before[..at] + src + before[at + |src|..]
    requires lo <= hi <= |before| && (hi <= at || at + |src| <= lo)
    ensures after[lo..hi] == before[lo..hi]
  {
    forall k | lo <= k < hi ensures after[k] == before[k] {
    }
  }

  /** `bytes`, `elem_size`, `head`, `len` of a plain-data channel whose ring is allocated. */
  class ByteRing {
    const bytes: array<Byte>
    const size: nat
    const cap: nat
    var head: nat
    var len: nat

    ghost predicate Valid()
      reads this, bytes
    {
      cap > 0 && size > 0 && head < cap && len <= cap && bytes.Length == cap * size
    }

    ghost function Value(): (r: Ring<seq<Byte>>)
      requires Valid()
      reads this, bytes
      ensures RingOk(r) && |r.slots| == cap
    {
      Ring(seq(cap, i requires 0 <= i < cap reads this, bytes requires bytes.Length == cap * size =>
                 CellBounds(i, cap, size); Cell(bytes[..], size, i)), head, len)
    }

    /** `chan_bytes_ready`: an element size below one is one. */
    constructor (capacity: int, elemSize: int)
      ensures Valid() && fresh(bytes)
      ensures cap == (if capacity < 1 then 1 else capacity) && size == (if elemSize < 1 then 1 else elemSize)
      ensures Queue(Value()) == []
    {
      cap := if capacity < 1 then 1 else capacity;
      size := if elemSize < 1 then 1 else elemSize;
      bytes := new Byte[(if capacity < 1 then 1 else capacity) * (if elemSize < 1 then 1 else elemSize)](_ => 0);
      head, len := 0, 0;
    }

    /** The copy in of `chan_send_copy`. */
    method SendCopy(src: seq<Byte>)
      requires Valid() && len < cap && |src| == size
      modifies this, bytes
      ensures Valid() && Value() == Put(old(Value()), src)
      ensures Queue(Value()) == old(Queue(Value())) + [src]
    {
      PutAppends(Value(), src);
      var tail := head + len;
      if tail >= cap {
        tail := tail - cap;
      }
      WrapStep(head, len, cap);
      CellBounds(tail, cap, size);
      ghost var before := bytes[..];
      CopyIn(tail * size, src);
      len := len + 1;
      forall i | 0 <= i < cap ensures Value().slots[i] == Put(old(Value()), src).slots[i] {
        CellBounds(i, cap, size);
        CellAfter(before, bytes[..], size, cap, tail, src, i);
      }
      assert Value().slots == Put(old(Value()), src).slots;
    }

    method CopyIn(at: nat, src: seq<Byte>)
      requires at + |src| <= bytes.Length
      modifies bytes
      ensures bytes[..] == old(bytes[..at]) + src + old(bytes[at + |src|..])
    {
      var i := 0;
      while i < |src|
        invariant i <= |src|
        invariant bytes[..] == old(bytes[..at]) + src[..i] + old(bytes[at + i..])
      {
        bytes[at + i] := src[i];
        i := i + 1;
      }
    }

    /** The copy out of `chan_recv_copy`. */
    method RecvCopy() returns (dst: seq<Byte>)
      requires Valid() && len > 0
      modifies this
      ensures Valid() && (dst, Value()) == Take(old(Value()))
      ensures old(Queue(Value())) == [dst] + Queue(Value())
    {
      TakeRemoves(Value());
      CellBounds(head, cap, size);
      dst := bytes[head * size..head * size + size];
      WrapStep(head, 1, cap);
      head := head + 1;
      if head == cap {
        head := 0;
      }
      len := len - 1;
      assert Value().slots == old(Value()).slots;
    }
  }
}
