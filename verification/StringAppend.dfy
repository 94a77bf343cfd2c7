/** The consuming append `s = s + a + b ...` over one flat byte memory: the base block may stay, grow
    in place or move, and the suffixes may be the base itself or views into it. */
module StringAppend {
  import opened Basics
  import opened BitCeil
  import opened ListBytes

  /** How the base is stored: in a pair or in read-only data, which are copied out, or in a block the
      String owns, exactly sized or grown by doubling. */
  datatype Kind = Inline | Borrowed | Plain | Geometric

  /** `len` bytes at `at`, in storage of `cap` bytes that has room for the terminator. */
  datatype Str = Str(at: nat, len: nat, cap: nat, kind: Kind)

  datatype Part = Part(at: nat, len: int)

  datatype Outcome = Failed | Appended(s: Str)

  const MAX_PARTS: nat := 5
  const INT32_MAX: nat := 0x7FFF_FFFF

  predicate Held(mem: seq<Byte>, s: Str) {
    s.at + s.cap <= |mem| && s.len < s.cap
  }

  /** A geometric String has at least the capacity that is recomputed from its length. */
  predicate StrOk(mem: seq<Byte>, s: Str) {
    Held(mem, s) && (s.kind.Geometric? ==> s.cap >= Capacity(s.len + 1))
  }

  predicate View(base: Str, p: Part) {
    base.at <= p.at && p.at + p.len <= base.at + base.len
  }

  predicate Apart(at: nat, n: nat, p: Part) {
    p.at + p.len <= at || at + n <= p.at
  }

  /** A suffix is a view into the base or lies outside the base's storage. */
  predicate PartOk(mem: seq<Byte>, base: Str, p: Part) {
    p.len > 0 ==> p.at + p.len <= |mem| && (View(base, p) || Apart(base.at, base.cap, p))
  }

  predicate PartsOk(mem: seq<Byte>, base: Str, parts: seq<Part>) {
    forall i {:trigger PartOk(mem, base, parts[i])} :: 0 <= i < |parts| ==> PartOk(mem, base, parts[i])
  }

  /** What a suffix spells. */
  ghost function Text(mem: seq<Byte>, p: Part): seq<Byte> {
    if p.len > 0 && p.at + p.len <= |mem| then mem[p.at..p.at + p.len] else []
  }

  ghost function Texts(mem: seq<Byte>, parts: seq<Part>): seq<Byte> {
    if parts == [] then [] else Texts(mem, parts[..|parts| - 1]) + Text(mem, parts[|parts| - 1])
  }

  function Total(len: nat, parts: seq<Part>): int {
    if parts == [] then len else Total(len, parts[..|parts| - 1]) + parts[|parts| - 1].len
  }

  predicate NoneNegative(parts: seq<Part>) {
    forall i :: 0 <= i < |parts| ==> parts[i].len >= 0
  }

  predicate Acceptable(len: nat, parts: seq<Part>) {
    1 <= |parts| <= MAX_PARTS && NoneNegative(parts) && Total(len, parts) <= INT32_MAX
  }

  /** The base is kept where it is exactly when the capacity recomputed from its length suffices. */
  predicate Fits(base: Str, total: int) {
    base.kind.Geometric? && Capacity(base.len + 1) >= total + 1
  }

  predicate CopiesOut(base: Str) {
    base.kind.Inline? || base.kind.Borrowed?
  }

  /** What the allocator promises of the address it answers for a block of `n` bytes: nothing else
      the append still reads is there; only a resize may answer the old address. */
  predicate Granted(mem: seq<Byte>, base: Str, parts: seq<Part>, room: nat, n: nat) {
    && room + n <= |mem|
    && ((!CopiesOut(base) && room == base.at) || room + n <= base.at || base.at + base.cap <= room)
    && (forall i {:trigger View(base, parts[i])} :: 0 <= i < |parts| && parts[i].len > 0 && !View(base, parts[i]) ==> Apart(room, n, parts[i]))
  }

  /** The block asked for, should the base have to grow. */
  function Grown(len: nat, parts: seq<Part>): nat {
    if Total(len, parts) < 0 then 16 else Capacity(Total(len, parts) + 1)
  }

  /** The bytes a move of the base copies to make room: those of a copied-out base, or as much of the
      old block as the new one takes, unless the resize stays in place. */
  function MovedBytes(base: Str, room: nat, grown: nat): nat {
    if CopiesOut(base) then base.len
    else if room == base.at then 0
    else if base.cap < grown then base.cap else grown
  }

  /** All bytes one append copies. */
  function CopiedBytes(base: Str, parts: seq<Part>, room: nat): int {
    Total(base.len, parts) - base.len
    + if Fits(base, Total(base.len, parts)) then 0 else MovedBytes(base, room, Grown(base.len, parts))
  }

  predicate Possible(mem: seq<Byte>, base: Str, parts: seq<Part>, room: nat) {
    && PartsOk(mem, base, parts)
    && (Acceptable(base.len, parts) && !Fits(base, Total(base.len, parts)) ==>
          Granted(mem, base, parts, room, Grown(base.len, parts)))
  }

  /** `str_append_reuse_many`. `room` is the allocator's answer, should the base have to grow; `copied`
      counts the bytes every copy writes. */
  method AppendMany(mem: array<Byte>, base: Str, parts: seq<Part>, room: nat) returns (r: Outcome, ghost copied: nat)
    requires StrOk(mem[..], base) && Possible(mem[..], base, parts, room)
    modifies mem
    ensures r.Failed? <==> !Acceptable(base.len, parts)
    ensures copied == if r.Failed? then 0 else CopiedBytes(base, parts, room)
    ensures r.Failed? ==> mem[..] == old(mem[..])
    ensures r.Appended? ==> StrOk(mem[..], r.s) && r.s.kind.Geometric? && r.s.len == Total(base.len, parts)
    ensures r.Appended? ==> Reads(mem, r.s, old(mem[base.at..base.at + base.len]) + old(Texts(mem[..], parts)))
    ensures r.Appended? ==> r.s.at == if Fits(base, Total(base.len, parts)) then base.at else room
    ensures r.Appended? ==> SameOutside(old(mem[..]), mem[..], base.at, base.cap, r.s.at, r.s.cap)
  {
    copied := 0;
    if |parts| < 1 || |parts| > MAX_PARTS {
      return Failed, 0;
    }
    var ok, total := Measure(base.len, parts);
    if !ok {
      return Failed, 0;
    }
    TotalBound(base.len, parts);
    var have := RoundUp(base.len + 1);
    if base.kind.Geometric? && have >= total + 1 {
      CapacityKept(base.len, total);
      copied := KeepPlace(mem, base, parts, total);
      return Appended(Str(base.at, total, base.cap, Geometric)), copied;
    }
    var grown := RoundUp(total + 1);
    copied := ChangePlace(mem, base, parts, total, room, grown);
    r := Appended(Str(room, total, grown, Geometric));
  }

  /** Memory outside the two ranges is as it was. */
  ghost predicate SameOutside(a: seq<Byte>, b: seq<Byte>, at: nat, n: nat, at': nat, n': nat) {
    |a| == |b| && forall x :: 0 <= x < |a| && !(at <= x < at + n) && !(at' <= x < at' + n') ==> b[x] == a[x]
  }

  /** The String spells `text` and is terminated. */
  ghost predicate Reads(mem: array<Byte>, s: Str, text: seq<Byte>)
    reads mem
  {
    s.at + s.len < mem.Length && mem[s.at..s.at + s.len] == text && mem[s.at + s.len] == 0
  }

  method KeepPlace(mem: array<Byte>, base: Str, parts: seq<Part>, total: nat) returns (ghost copied: nat)
    requires Held(mem[..], base) && PartsOk(mem[..], base, parts) && NoneNegative(parts)
    requires base.len <= total == Total(base.len, parts) < base.cap
    modifies mem
    ensures copied == total - base.len
    ensures SameOutside(old(mem[..]), mem[..], base.at, base.cap, base.at, base.cap)
    ensures Reads(mem, Str(base.at, total, base.cap, Geometric), old(mem[base.at..base.at + base.len]) + old(Texts(mem[..], parts)))
  {
    Unmoved(mem[..], base, parts);
    copied := Finish(mem, base.at, base.cap, base.len, parts, mem[..], parts, mem[base.at..base.at + base.len]);
  }

  lemma Unmoved(m: seq<Byte>, base: Str, parts: seq<Part>)
    requires PartsOk(m, base, parts) && NoneNegative(parts)
    ensures Ready(m, parts, m, parts, base.at, base.cap, base.len)
  {
    forall i | 0 <= i < |parts| ensures SameText(m, parts[i], m, parts[i]) && Placed(base.at, base.cap, base.len, parts[i]) {
      assert PartOk(m, base, parts[i]);
    }
  }

  method ChangePlace(mem: array<Byte>, base: Str, parts: seq<Part>, total: nat, room: nat, grown: nat) returns (ghost copied: nat)
    requires Held(mem[..], base) && PartsOk(mem[..], base, parts) && NoneNegative(parts)
    requires base.len <= total == Total(base.len, parts) < grown && Granted(mem[..], base, parts, room, grown)
    modifies mem
    ensures copied == MovedBytes(base, room, grown) + (total - base.len)
    ensures SameOutside(old(mem[..]), mem[..], base.at, base.cap, room, grown)
    ensures Reads(mem, Str(room, total, grown, Geometric), old(mem[base.at..base.at + base.len]) + old(Texts(mem[..], parts)))
  {
    ghost var before, head := mem[..], mem[base.at..base.at + base.len];
    ghost var making, ending;
    var moved;
    moved, making := Grow(mem, base, parts, room, grown);
    ending := Finish(mem, room, grown, base.len, moved, before, parts, head);
    copied := making + ending;
  }

  /** Copies every suffix behind the first `left` bytes and ends the String. */
  method Finish(mem: array<Byte>, at: nat, cap: nat, left: nat, parts: seq<Part>, ghost before: seq<Byte>, ghost was: seq<Part>, ghost head: seq<Byte>)
    returns (ghost copied: nat)
    requires at + cap <= mem.Length && left <= Total(left, parts) < cap && mem[at..at + left] == head
    requires Ready(before, was, mem[..], parts, at, cap, left)
    modifies mem
    ensures copied == Total(left, parts) - left
    ensures SameOutside(old(mem[..]), mem[..], at, cap, at, cap)
    ensures Reads(mem, Str(at, Total(left, parts), cap, Geometric), head + Texts(before, was))
  {
    copied := CopyParts(mem, at, cap, left, parts, before, was);
    Terminate(mem, at, Total(left, parts));
  }

  method Terminate(mem: array<Byte>, at: nat, total: nat)
    requires at + total < mem.Length
    modifies mem
    ensures forall x :: 0 <= x < mem.Length && x != at + total ==> mem[x] == old(mem[x])
    ensures mem[at + total] == 0 && mem[at..at + total] == old(mem[at..at + total])
  {
    mem[at + total] := 0;
  }

  /** The length check: every suffix non-negative, the sum within 31 bits at every step. */
  method Measure(len: nat, parts: seq<Part>) returns (ok: bool, total: nat)
    ensures ok && 1 <= |parts| <= MAX_PARTS ==> Acceptable(len, parts) && total == Total(len, parts)
    ensures !ok && 1 <= |parts| <= MAX_PARTS ==> !Acceptable(len, parts)
  {
    total := len;
    var i := 0;
    while i < |parts|
      invariant 0 <= i <= |parts| && total == Total(len, parts[..i])
      invariant forall j :: 0 <= j < i ==> parts[j].len >= 0
      invariant total <= INT32_MAX || i == 0
    {
      assert parts[..i + 1][..i] == parts[..i];
      if parts[i].len < 0 {
        return false, 0;
      }
      if parts[i].len > INT32_MAX - total {
        TotalMono(len, parts, i + 1);
        return false, 0;
      }
      total := total + parts[i].len;
      i := i + 1;
    }
    assert parts[..i] == parts;
    ok := true;
  }

  lemma {:induction false} TotalMono(len: nat, parts: seq<Part>, k: nat)
    requires k <= |parts|
    ensures NoneNegative(parts) ==> Total(len, parts[..k]) <= Total(len, parts)
  {
    if k == |parts| {
      assert parts[..k] == parts;
    } else {
      var front := parts[..|parts| - 1];
      TotalMono(len, front, k);
      assert front[..k] == parts[..k];
    }
  }

  lemma {:induction false} TotalBound(len: nat, parts: seq<Part>)
    requires NoneNegative(parts)
    ensures Total(len, parts) >= len
  {
    if parts != [] {
      TotalBound(len, parts[..|parts| - 1]);
    }
  }

  /** The capacity recomputed from a length still fits after an append that fitted it. */
  lemma CapacityKept(len: nat, total: nat)
    requires len <= total && Capacity(len + 1) >= total + 1
    ensures Capacity(len + 1) >= Capacity(total + 1)
  {
    DoubleUpStays(16, len + 1, total + 1);
  }

  // ----- copying the suffixes -----

  /** A copy, and how many bytes it wrote. */
  method Move(mem: array<Byte>, dst: nat, src: nat, n: nat) returns (ghost copied: nat)
    requires dst + n <= mem.Length && src + n <= mem.Length
    modifies mem
    ensures copied == n
    ensures forall p :: dst <= p < dst + n ==> mem[p] == old(mem[p - dst + src])
    ensures forall p :: 0 <= p < dst || dst + n <= p < mem.Length ==> mem[p] == old(mem[p])
  {
    MemMove(mem, dst, src, n);
    copied := n;
  }

  /** `now` spells in `mem` what `was` spelled in `before`. */
  ghost predicate SameText(before: seq<Byte>, was: Part, mem: seq<Byte>, now: Part) {
    && was.len == now.len
    && (now.len > 0 ==> was.at + was.len <= |before| && now.at + now.len <= |mem|
                        && mem[now.at..now.at + now.len] == before[was.at..was.at + was.len])
  }

  /** A suffix is inside the first `left` bytes of the block or outside the block. */
  ghost predicate Placed(at: nat, cap: nat, left: nat, p: Part) {
    p.len > 0 ==> (at <= p.at && p.at + p.len <= at + left) || Apart(at, cap, p)
  }

  ghost predicate Ready(before: seq<Byte>, was: seq<Part>, mem: seq<Byte>, now: seq<Part>, at: nat, cap: nat, left: nat) {
    && |was| == |now| && NoneNegative(now)
    && (forall i {:trigger SameText(before, was[i], mem, now[i])} :: 0 <= i < |now| ==> SameText(before, was[i], mem, now[i]) && Placed(at, cap, left, now[i]))
  }

  /** Byte `x` of `m'` is that of `m` with `text` written over the bytes from `at`. */
  ghost predicate ByteOf(m: seq<Byte>, at: nat, text: seq<Byte>, m': seq<Byte>, x: nat)
    requires x < |m| == |m'|
  {
    m'[x] == if at <= x < at + |text| then text[x - at] else m[x]
  }

  /** `m'` is `m` with `text` written over the bytes from `at`. */
  ghost predicate Written(m: seq<Byte>, at: nat, text: seq<Byte>, m': seq<Byte>) {
    |m'| == |m| && at + |text| <= |m| && forall x: nat {:trigger ByteOf(m, at, text, m', x)} :: x < |m| ==> ByteOf(m, at, text, m', x)
  }

  lemma NothingWritten(m: seq<Byte>, at: nat)
    requires at <= |m|
    ensures Written(m, at, [], m)
  {
  }

  lemma WrittenIs(m: seq<Byte>, at: nat, src: nat, n: nat, m': seq<Byte>)
    requires |m'| == |m| && at + n <= |m| && src + n <= |m|
    requires forall p :: at <= p < at + n ==> m'[p] == m[p - at + src]
    requires forall p :: 0 <= p < at || at + n <= p < |m| ==> m'[p] == m[p]
    ensures Written(m, at, m[src..src + n], m')
  {
  }

  /** What a write behind the first `left` bytes of a block does to it and to the rest. */
  lemma WrittenBlock(m: seq<Byte>, at: nat, left: nat, cap: nat, text: seq<Byte>, m': seq<Byte>)
    requires left + |text| <= cap && at + cap <= |m| && Written(m, at + left, text, m')
    ensures m'[at..at + (left + |text|)] == m[at..at + left] + text
    ensures SameOutside(m, m', at, cap, at, cap)
  {
    forall x: nat | x < |m| ensures m'[x] == if at + left <= x < at + left + |text| then text[x - at - left] else m[x] {
      assert ByteOf(m, at + left, text, m', x);
    }
  }

  /** The copy loop: each suffix lands behind what was copied so far, and none is overwritten before
      it is read. */
  method CopyParts(mem: array<Byte>, at: nat, cap: nat, left: nat, parts: seq<Part>, ghost before: seq<Byte>, ghost was: seq<Part>)
    returns (ghost copied: nat)
    requires at + cap <= mem.Length && left <= Total(left, parts) < cap
    requires Ready(before, was, mem[..], parts, at, cap, left)
    modifies mem
    ensures copied == Total(left, parts) - left
    ensures SameOutside(old(mem[..]), mem[..], at, cap, at, cap)
    ensures mem[at..at + Total(left, parts)] == old(mem[at..at + left]) + Texts(before, was)
  {
    ghost var start, done: seq<Byte> := mem[..], [];
    var end, i := left, 0;
    copied := 0;
    NothingWritten(start, at + left);
    while i < |parts|
      invariant 0 <= i <= |parts| && left <= end == Total(left, parts[..i]) <= Total(left, parts)
      invariant copied == |done| == end - left && done == Texts(before, was[..i])
      invariant Written(start, at + left, done, mem[..])
    {
      NextPart(left, parts, before, was, i);
      ghost var one;
      done, one := CopyNext(mem, at, cap, left, end, parts, i, before, was, start, done);
      copied := copied + one;
      end := end + parts[i].len;
      i := i + 1;
    }
    assert parts[..i] == parts && was[..i] == was;
    WrittenBlock(start, at, left, cap, done, mem[..]);
  }

  lemma Joined(a: seq<Byte>, b: seq<Byte>, c: seq<Byte>)
    ensures a + b + c == a + (b + c)
  {
  }

  lemma WrittenTwice(m: seq<Byte>, at: nat, a: seq<Byte>, m': seq<Byte>, b: seq<Byte>, m'': seq<Byte>, to: nat, all: seq<Byte>)
    requires Written(m, at, a, m') && Written(m', to, b, m'') && to == at + |a| && all == a + b
    ensures Written(m, at, all, m'')
  {
    forall x: nat | x < |m| ensures ByteOf(m, at, all, m'', x) {
      assert ByteOf(m, at, a, m', x) && ByteOf(m', to, b, m'', x);
    }
  }

  lemma NextPart(left: nat, parts: seq<Part>, before: seq<Byte>, was: seq<Part>, i: nat)
    requires |was| == |parts| && i < |parts| && NoneNegative(parts)
    ensures Total(left, parts[..i]) + parts[i].len == Total(left, parts[..i + 1]) <= Total(left, parts)
    ensures Texts(before, was[..i + 1]) == Texts(before, was[..i]) + Text(before, was[i])
  {
    assert parts[..i + 1][..i] == parts[..i] && was[..i + 1][..i] == was[..i];
    TotalMono(left, parts, i + 1);
  }

  method CopyNext(mem: array<Byte>, at: nat, cap: nat, left: nat, end: nat, parts: seq<Part>, i: nat,
                  ghost before: seq<Byte>, ghost was: seq<Part>, ghost start: seq<Byte>, ghost done: seq<Byte>)
    returns (ghost more: seq<Byte>, ghost copied: nat)
    requires i < |parts| && Ready(before, was, start, parts, at, cap, left) && |start| == mem.Length
    requires at + cap <= mem.Length && end == left + |done| && end + parts[i].len <= cap && Written(start, at + left, done, mem[..])
    modifies mem
    ensures copied == parts[i].len && more == done + Text(before, was[i]) && |more| == |done| + parts[i].len && Written(start, at + left, more, mem[..])
  {
    ghost var m := mem[..];
    ReadyKept(before, was, start, m, parts, at, cap, left, done, i);
    copied := CopyPart(mem, at + end, parts[i], before, was[i]);
    more := done + Text(before, was[i]);
    WrittenTwice(start, at + left, done, m, Text(before, was[i]), mem[..], at + end, more);
  }

  method CopyPart(mem: array<Byte>, to: nat, p: Part, ghost before: seq<Byte>, ghost was: Part) returns (ghost copied: nat)
    requires p.len >= 0 && to + p.len <= mem.Length && SameText(before, was, mem[..], p)
    modifies mem
    ensures copied == p.len == |Text(before, was)| && Written(old(mem[..]), to, Text(before, was), mem[..])
  {
    copied := 0;
    if p.len > 0 {
      copied := Move(mem, to, p.at, p.len);
      WrittenIs(old(mem[..]), to, p.at, p.len, mem[..]);
    } else {
      NothingWritten(mem[..], to);
    }
  }

  /** Writing behind the first `left` bytes of the block disturbs no suffix. */
  lemma ReadyKept(before: seq<Byte>, was: seq<Part>, m: seq<Byte>, m': seq<Byte>, parts: seq<Part>, at: nat, cap: nat, left: nat, text: seq<Byte>, i: nat)
    requires Ready(before, was, m, parts, at, cap, left) && i < |parts|
    requires Written(m, at + left, text, m') && left + |text| <= cap && at + cap <= |m|
    ensures SameText(before, was[i], m', parts[i])
  {
    var p := parts[i];
    assert SameText(before, was[i], m, p) && Placed(at, cap, left, p);
    if p.len > 0 {
      forall x: nat | p.at <= x < p.at + p.len ensures m'[x] == m[x] {
        assert ByteOf(m, at + left, text, m', x);
      }
      SliceSame(m, m', p.at, p.len);
    }
  }

  // ----- making room -----

  /** `str_append_grow` past its early return: the base's bytes in their new place, and every suffix
      that pointed into them rebased. */
  method Grow(mem: array<Byte>, base: Str, parts: seq<Part>, room: nat, grown: nat)
    returns (moved: seq<Part>, ghost copied: nat)
    requires Held(mem[..], base) && PartsOk(mem[..], base, parts) && NoneNegative(parts) && grown > base.len
    requires Granted(mem[..], base, parts, room, grown)
    modifies mem
    ensures copied == MovedBytes(base, room, grown)
    ensures mem[room..room + base.len] == old(mem[base.at..base.at + base.len])
    ensures SameOutside(old(mem[..]), mem[..], base.at, base.cap, room, grown)
    ensures Ready(old(mem[..]), parts, mem[..], moved, room, grown, base.len)
    ensures Total(base.len, moved) == Total(base.len, parts)
  {
    ghost var m := mem[..];
    copied := 0;
    if CopiesOut(base) {
      copied := Move(mem, room, base.at, base.len);
    } else if room != base.at {
      var keep := if base.cap < grown then base.cap else grown;
      copied := Move(mem, room, base.at, keep);
      Abandon(mem, base.at, base.cap);
    }
    assert mem[room..room + base.len] == m[base.at..base.at + base.len];
    moved := Rebase(base, parts, room);
    RebaseTotal(base, parts, room);
    forall i | 0 <= i < |parts|
      ensures SameText(m, parts[i], mem[..], moved[i]) && Placed(room, grown, base.len, moved[i])
    {
      assert PartOk(m, base, parts[i]);
      RebasedText(m, mem[..], base, parts[i], room, grown);
    }
  }

  /** A block given back may hold anything. */
  method Abandon(mem: array<Byte>, at: nat, n: nat)
    requires at + n <= mem.Length
    modifies mem
    ensures forall p :: 0 <= p < at || at + n <= p < mem.Length ==> mem[p] == old(mem[p])
  {
    var i := 0;
    while i < n
      invariant i <= n
      invariant forall p :: 0 <= p < at || at + n <= p < mem.Length ==> mem[p] == old(mem[p])
    {
      mem[at + i] := *;
      i := i + 1;
    }
  }

  /** The address test of the source: at or past the base, and not past its terminator. */
  function RebaseOne(base: Str, p: Part, room: nat): Part {
    if base.at <= p.at <= base.at + base.len then Part(room + (p.at - base.at), p.len) else p
  }

  function Rebase(base: Str, parts: seq<Part>, room: nat): (r: seq<Part>)
    ensures |r| == |parts| && forall i :: 0 <= i < |parts| ==> r[i] == RebaseOne(base, parts[i], room)
  {
    seq(|parts|, i requires 0 <= i < |parts| => RebaseOne(base, parts[i], room))
  }

  lemma {:induction false} RebaseTotal(base: Str, parts: seq<Part>, room: nat)
    ensures Total(base.len, Rebase(base, parts, room)) == Total(base.len, parts)
  {
    if parts != [] {
      var front := parts[..|parts| - 1];
      RebaseTotal(base, front, room);
      assert Rebase(base, parts, room)[..|parts| - 1] == Rebase(base, front, room);
    }
  }

  lemma SliceSame(m: seq<Byte>, m': seq<Byte>, at: nat, n: nat)
    requires |m'| == |m| && at + n <= |m| && forall x :: at <= x < at + n ==> m'[x] == m[x]
    ensures m'[at..at + n] == m[at..at + n]
  {
  }

  lemma SubSlice(m: seq<Byte>, at: nat, n: nat, o: nat, k: nat)
    requires o + k <= n && at + n <= |m|
    ensures m[at..at + n][o..o + k] == m[at + o..at + o + k]
  {
    var whole := m[at..at + n];
    var left, right := whole[o..o + k], m[at + o..at + o + k];
    forall i | 0 <= i < k ensures left[i] == right[i] {
      assert whole[o + i] == m[at + (o + i)];
    }
  }

  lemma RebasedText(m: seq<Byte>, m': seq<Byte>, base: Str, p: Part, room: nat, grown: nat)
    requires |m'| == |m| && Held(m, base) && PartOk(m, base, p) && base.len < grown && room + grown <= |m|
    requires m'[room..room + base.len] == m[base.at..base.at + base.len]
    requires p.len > 0 && !View(base, p) ==> Apart(room, grown, p)
    requires forall x :: 0 <= x < |m| && !(room <= x < room + grown) && !(base.at <= x < base.at + base.cap) ==> m'[x] == m[x]
    ensures SameText(m, p, m', RebaseOne(base, p, room)) && Placed(room, grown, base.len, RebaseOne(base, p, room))
  {
    var q := RebaseOne(base, p, room);
    if p.len > 0 {
      if View(base, p) {
        var o := p.at - base.at;
        assert base.at + o == p.at && room + o == q.at && o + p.len <= base.len;
        SubSlice(m', room, base.len, o, p.len);
        SubSlice(m, base.at, base.len, o, p.len);
      } else {
        SliceSame(m, m', p.at, p.len);
      }
    }
  }

  // ----- whole runs of appends -----

  /** One append of a run: its suffixes, and the allocator's answer should the String have to grow. */
  datatype Step = Step(parts: seq<Part>, room: nat)

  datatype Snapshot = Snapshot(mem: seq<Byte>, s: Str)
  {
    ghost predicate Ok() {
      StrOk(mem, s)
    }

    ghost function Spelled(): seq<Byte>
      requires Ok()
    {
      mem[s.at..s.at + s.len]
    }

    /** The program can have these suffixes and this address, and the append accepts them. */
    ghost predicate Takes(step: Step) {
      Possible(mem, s, step.parts, step.room) && Acceptable(s.len, step.parts)
    }

    ghost function Added(step: Step): seq<Byte> {
      if Takes(step) then Texts(mem, step.parts) else []
    }

    ghost function Cost(step: Step): int {
      if Takes(step) then CopiedBytes(s, step.parts, step.room) else 0
    }
  }

  /** One append appends its suffixes; one that is refused changes nothing. */
  ghost predicate Turn(a: Snapshot, step: Step, b: Snapshot) {
    && a.Ok() && b.Ok() && b.Spelled() == a.Spelled() + a.Added(step)
    && if a.Takes(step) then b.s.kind.Geometric? && b.s.len == Total(a.s.len, step.parts) else b == a
  }

  /** The states of a run of appends to one String. */
  ghost predicate IsRun(trace: seq<Snapshot>, steps: seq<Step>) {
    && |trace| == |steps| + 1
    && (if steps == [] then trace[0].Ok() else Turn(trace[0], steps[0], trace[1]) && IsRun(trace[1..], steps[1..]))
  }

  /** Everything a run appends. */
  ghost function AllAdded(trace: seq<Snapshot>, steps: seq<Step>): seq<Byte>
    requires |trace| == |steps| + 1
  {
    if steps == [] then [] else trace[0].Added(steps[0]) + AllAdded(trace[1..], steps[1..])
  }

  /** Every byte a run copies, for suffixes and for moves. */
  ghost function AllCopied(trace: seq<Snapshot>, steps: seq<Step>): int
    requires |trace| == |steps| + 1
  {
    if steps == [] then 0 else trace[0].Cost(steps[0]) + AllCopied(trace[1..], steps[1..])
  }

  /** A run of appends: each turn is one append, and all bytes ever copied are linear in the final
      length. */
  method AppendAll(mem: array<Byte>, base: Str, steps: seq<Step>) returns (s: Str, ghost trace: seq<Snapshot>, ghost copied: int)
    requires StrOk(mem[..], base)
    modifies mem
    ensures IsRun(trace, steps) && trace[0] == Snapshot(old(mem[..]), base) && trace[|steps|] == Snapshot(mem[..], s)
    ensures StrOk(mem[..], s)
    ensures mem[s.at..s.at + s.len] == old(mem[base.at..base.at + base.len]) + AllAdded(trace, steps)
    ensures copied == AllCopied(trace, steps) <= 5 * s.len + 36
    decreases |steps|
  {
    ghost var first := Snapshot(mem[..], base);
    if steps == [] {
      s, trace, copied := base, [first], 0;
    } else {
      var next;
      ghost var one, rest, more;
      next, one := AppendOne(mem, base, steps[0]);
      s, rest, more := AppendAll(mem, next, steps[1..]);
      trace, copied := [first] + rest, one + more;
      assert trace[1..] == rest;
    }
    RunText(trace, steps);
    RunIsLinear(trace, steps);
  }

  method AppendOne(mem: array<Byte>, s: Str, step: Step) returns (next: Str, ghost copied: int)
    requires StrOk(mem[..], s)
    modifies mem
    ensures Turn(Snapshot(old(mem[..]), s), step, Snapshot(mem[..], next))
    ensures copied == Snapshot(old(mem[..]), s).Cost(step)
  {
    next, copied := s, 0;
    if Possible(mem[..], s, step.parts, step.room) {
      var r;
      r, copied := AppendMany(mem, s, step.parts, step.room);
      if r.Appended? {
        next := r.s;
        TurnTaken(Snapshot(old(mem[..]), s), step, Snapshot(mem[..], next));
      }
    }
  }

  lemma TurnTaken(a: Snapshot, step: Step, b: Snapshot)
    requires a.Ok() && a.Takes(step) && b.Ok() && b.s.kind.Geometric? && b.s.len == Total(a.s.len, step.parts)
    requires b.Spelled() == a.Spelled() + Texts(a.mem, step.parts)
    ensures Turn(a, step, b) && a.Cost(step) == CopiedBytes(a.s, step.parts, step.room)
  {
  }

  lemma {:induction false} RunText(trace: seq<Snapshot>, steps: seq<Step>)
    requires IsRun(trace, steps)
    ensures trace[0].Ok() && trace[|steps|].Ok() && trace[|steps|].Spelled() == trace[0].Spelled() + AllAdded(trace, steps)
  {
    if steps != [] {
      RunText(trace[1..], steps[1..]);
      Joined(trace[0].Spelled(), trace[0].Added(steps[0]), AllAdded(trace[1..], steps[1..]));
    }
  }

  /** All bytes any run of appends copies are linear in the length it ends with. */
  lemma RunIsLinear(trace: seq<Snapshot>, steps: seq<Step>)
    requires IsRun(trace, steps)
    ensures AllCopied(trace, steps) <= 5 * trace[|steps|].s.len + 36
  {
    var moves := RunPaid(trace, steps, 0);
    PaidIsLinear(trace[|steps|].s, moves);
  }

  lemma {:induction false} RunPaid(trace: seq<Snapshot>, steps: seq<Step>, before: nat) returns (moves: nat)
    requires IsRun(trace, steps) && Paid(trace[0].s, before)
    ensures Paid(trace[|steps|].s, moves) && before + AllCopied(trace, steps) == moves + trace[|steps|].s.len - trace[0].s.len
  {
    moves := before;
    if steps != [] {
      moves := TurnPaid(trace[0], steps[0], trace[1], before);
      moves := RunPaid(trace[1..], steps[1..], moves);
    }
  }

  lemma TurnPaid(a: Snapshot, step: Step, b: Snapshot, before: nat) returns (moves: nat)
    requires Turn(a, step, b) && Paid(a.s, before)
    ensures Paid(b.s, moves) && before + a.Cost(step) == moves + b.s.len - a.s.len
  {
    moves := before;
    if a.Takes(step) {
      Payment(a.s, step.parts, step.room, before);
      moves := before + (a.Cost(step) - (b.s.len - a.s.len));
    }
  }

  /** The moves so far, against the capacity recomputed from the length. */
  ghost predicate Paid(s: Str, moves: nat) {
    if s.kind.Geometric? then moves <= 2 * Capacity(s.len + 1) else moves == 0
  }

  /** Each move copies at most the new block, and new blocks at least double. */
  lemma Payment(base: Str, parts: seq<Part>, room: nat, moves: nat)
    requires Acceptable(base.len, parts) && Paid(base, moves)
    ensures base.len <= Total(base.len, parts)
    ensures var moved := CopiedBytes(base, parts, room) - (Total(base.len, parts) - base.len);
            0 <= moved && moves + moved <= 2 * Capacity(Total(base.len, parts) + 1)
  {
    var total := Total(base.len, parts);
    TotalBound(base.len, parts);
    if Fits(base, total) {
      DoubleUpMono(16, base.len + 1, total + 1);
    } else {
      MovePaid(base, total, room, moves);
    }
  }

  lemma MovePaid(base: Str, total: nat, room: nat, moves: nat)
    requires base.len <= total <= INT32_MAX && Paid(base, moves) && !Fits(base, total)
    ensures moves + MovedBytes(base, room, Capacity(total + 1)) <= 2 * Capacity(total + 1)
  {
    if base.kind.Geometric? {
      DoubleUpTwice(16, base.len + 1, total + 1);
    }
  }

  lemma PaidIsLinear(s: Str, moves: nat)
    requires Paid(s, moves)
    ensures moves <= 4 * s.len + 36
  {
    DoubleUpLinear(16, s.len + 1);
  }
}
