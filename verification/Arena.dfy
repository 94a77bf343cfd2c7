/** Regions: a stack of arenas, each a list of chunks served by bumping, over a small pool of chunks
    that pops refill. */
module Arena {

  const CHUNK_MIN: nat := 8192
  const MAX_DEPTH: nat := 64
  const POOL_MAX: nat := 8
  const WORD: nat := 0x1_0000_0000_0000_0000
  /** No C object is larger. */
  const MAX_OBJECT: nat := 0x7FFF_FFFF_FFFF_FFFF

  /** The storage of a chunk. How much of it is used is kept per chunk in the state. */
  datatype Chunk = Chunk(base: nat, cap: nat)

  /** A block handed out from region `slot`, at `off` in `chunk`, `len` bytes long for a request of
      `size` bytes. */
  datatype Block = Block(slot: nat, chunk: Chunk, off: nat, len: nat, size: nat)

  datatype Served = FromHeap | FromRegion(at: nat)

  datatype Room = NoRoom | At(base: nat)

  // ----- sizes in machine words -----

  /** `(size + 15) & ~15`, in 64 bits. */
  function Need(size: nat): nat {
    (size + 15) % WORD / 16 * 16
  }

  function Plus(a: nat, b: nat): nat {
    (a + b) % WORD
  }

  /** Within 16 bytes of the address space's end the rounding itself wraps. */
  lemma NeedCovers(size: nat)
    requires size <= WORD - 16
    ensures size <= Need(size) <= size + 15 && Need(size) % 16 == 0
  {
  }

  lemma NoWrap(used: nat, size: nat)
    requires used % 16 == 0 && used + size <= WORD - 16
    ensures Plus(used, Need(size)) == used + Need(size)
  {
    NeedCovers(size);
  }

  /** The wrapping guard admits only requests that fit exactly when the request and the used bytes
      stay 16 short of the address space. */
  lemma GuardExact(used: nat, cap: nat, size: nat)
    requires used <= cap <= MAX_OBJECT && used % 16 == 0 && size < WORD
    ensures (Plus(used, Need(size)) <= cap ==> used + size <= cap) <==> used + size <= WORD - 16
  {
  }

  /** A request the guard wrongly admits: it is served where fewer bytes remain than it asks for. */
  lemma GuardFooled()
    ensures Plus(32, Need(WORD - 32)) <= CHUNK_MIN && 32 + (WORD - 32) > CHUNK_MIN
  {
  }

  // ----- where the chunks are -----

  datatype Place = InRegion(slot: nat) | InPool

  ghost predicate Differ(list: seq<Chunk>, i: int, j: int) {
    0 <= i < j < |list| ==> list[i] != list[j]
  }

  ghost predicate Distinct(list: seq<Chunk>) {
    forall i, j {:trigger Differ(list, i, j)} :: Differ(list, i, j)
  }

  /** `place` names the one list that holds each chunk. */
  ghost predicate Placed(regions: seq<seq<Chunk>>, pool: seq<Chunk>, place: map<Chunk, Place>) {
    && (forall s, c {:trigger c in regions[s]} :: 0 <= s < |regions| && c in regions[s] ==> c in place && place[c] == InRegion(s))
    && (forall c {:trigger c in pool} :: c in pool ==> c in place && place[c] == InPool)
    && (forall c :: c in place ==> if place[c].InPool? then c in pool else place[c].slot < |regions| && c in regions[place[c].slot])
    && (forall s :: 0 <= s < |regions| ==> Distinct(regions[s]))
    && Distinct(pool)
  }

  predicate Apart(c: Chunk, d: Chunk) {
    c.base + c.cap <= d.base || d.base + d.cap <= c.base
  }

  /** No two chunks overlap. */
  ghost predicate Spaced(owned: set<Chunk>) {
    && (forall c, d {:trigger Apart(c, d)} :: c in owned && d in owned && c != d ==> Apart(c, d))
    && (forall c :: c in owned ==> CHUNK_MIN <= c.cap <= MAX_OBJECT)
  }

  ghost predicate Metered(owned: set<Chunk>, used: map<Chunk, nat>) {
    forall c :: c in owned ==> c in used && used[c] <= c.cap
  }

  ghost predicate Lined(c: Chunk, used: map<Chunk, nat>) {
    c.base % 16 == 0 && (c in used ==> used[c] % 16 == 0)
  }

  /** Chunks start on 16-byte boundaries and are used in steps of 16 bytes. */
  ghost predicate AllLined(owned: set<Chunk>, used: map<Chunk, nat>) {
    forall c {:trigger Lined(c, used)} :: c in owned ==> Lined(c, used)
  }

  lemma Line(owned: set<Chunk>, used: map<Chunk, nat>, c: Chunk, n: nat)
    requires AllLined(owned, used) && c.base % 16 == 0 && n % 16 == 0
    ensures AllLined(owned + {c}, used[c := n])
  {
    forall d | d in owned + {c} ensures Lined(d, used[c := n]) {
      assert d in owned ==> Lined(d, used);
    }
  }

  ghost predicate PoolOk(pool: seq<Chunk>, poolCount: nat) {
    poolCount == |pool| <= POOL_MAX && forall i :: 0 <= i < |pool| ==> pool[i].cap == CHUNK_MIN
  }

  lemma Meter(owned: set<Chunk>, used: map<Chunk, nat>, c: Chunk, n: nat)
    requires Metered(owned, used) && n <= c.cap
    ensures Metered(owned + {c}, used[c := n]) && (c in owned ==> Metered(owned, used[c := n]))
  {
  }

  lemma Space(owned: set<Chunk>, c: Chunk)
    requires Spaced(owned) && CHUNK_MIN <= c.cap <= MAX_OBJECT && forall d :: d in owned ==> Apart(d, c)
    ensures Spaced(owned + {c}) && c !in owned
  {
  }

  lemma FirstOf(list: seq<Chunk>)
    requires list != [] && Distinct(list)
    ensures Distinct(list[1..]) && forall c :: c in list[1..] <==> c in list && c != list[0]
  {
    var rest := list[1..];
    forall i, j ensures Differ(rest, i, j) {
      assert Differ(list, i + 1, j + 1);
    }
    forall i | 0 <= i < |rest| ensures rest[i] != list[0] {
      assert Differ(list, 0, i + 1);
    }
    forall c | c in list && c != list[0] ensures c in list[1..] {
      var i :| 0 <= i < |list| && list[i] == c;
      assert list[1..][i - 1] == c;
    }
  }

  lemma Prepended(list: seq<Chunk>, c: Chunk)
    requires Distinct(list) && c !in list
    ensures Distinct([c] + list) && forall d :: d in [c] + list <==> d == c || d in list
  {
    forall i, j ensures Differ([c] + list, i, j) {
      assert Differ(list, i - 1, j - 1);
    }
  }

  /** The pool's first chunk becomes the only one of a region behind the others. */
  lemma Unpooled(regions: seq<seq<Chunk>>, pool: seq<Chunk>, place: map<Chunk, Place>)
    requires Placed(regions, pool, place) && pool != []
    ensures Placed(regions + [[pool[0]]], pool[1..], place[pool[0] := InRegion(|regions|)])
  {
    FirstOf(pool);
    assert pool[0] in pool;
  }

  lemma Made(regions: seq<seq<Chunk>>, pool: seq<Chunk>, place: map<Chunk, Place>, c: Chunk)
    requires Placed(regions, pool, place) && c !in place
    ensures Placed(regions + [[c]], pool, place[c := InRegion(|regions|)])
  {
  }

  lemma Attached(regions: seq<seq<Chunk>>, pool: seq<Chunk>, place: map<Chunk, Place>, c: Chunk, slot: nat)
    requires Placed(regions + [[c]], pool, place) && slot < |regions|
    ensures Placed(regions[slot := [c] + regions[slot]], pool, place[c := InRegion(slot)])
  {
    var all := regions + [[c]];
    assert c in all[|regions|];
    assert all[slot] == regions[slot];
    assert place[c] == InRegion(|regions|);
    assert forall d :: d in all[slot] ==> d in place && place[d] == InRegion(slot);
    Prepended(regions[slot], c);
    forall s, d | 0 <= s < |regions| && d in regions[s] ensures d in place && place[d] == InRegion(s) && d != c {
      assert d in all[s];
    }
    forall s | 0 <= s < |regions| ensures Distinct(regions[s]) {
      assert all[s] == regions[s];
    }
  }

  lemma RetiredToPool(regions: seq<seq<Chunk>>, list: seq<Chunk>, pool: seq<Chunk>, place: map<Chunk, Place>)
    requires list != [] && Placed(regions + [list], pool, place)
    ensures Placed(regions + [list[1..]], [list[0]] + pool, place[list[0] := InPool])
  {
    FirstInHand(regions, list, pool, place);
    Prepended(pool, list[0]);
  }

  lemma RetiredForGood(regions: seq<seq<Chunk>>, list: seq<Chunk>, pool: seq<Chunk>, place: map<Chunk, Place>)
    requires list != [] && Placed(regions + [list], pool, place)
    ensures Placed(regions + [list[1..]], pool, place - {list[0]})
  {
    FirstInHand(regions, list, pool, place);
  }

  lemma FirstInHand(regions: seq<seq<Chunk>>, list: seq<Chunk>, pool: seq<Chunk>, place: map<Chunk, Place>)
    requires list != [] && Placed(regions + [list], pool, place)
    ensures Distinct(list[1..]) && forall c :: c in list[1..] <==> c in list && c != list[0]
    ensures forall c :: c in list ==> c in place && place[c] == InRegion(|regions|)
    ensures forall s, c {:trigger c in regions[s]} :: 0 <= s < |regions| && c in regions[s] ==> c in place && place[c] == InRegion(s)
    ensures forall s :: 0 <= s < |regions| ==> Distinct(regions[s])
  {
    var all := regions + [list];
    assert all[|regions|] == list;
    FirstOf(list);
    forall s | 0 <= s < |regions| ensures Distinct(regions[s]) {
      assert all[s] == regions[s];
    }
    forall s, c | 0 <= s < |regions| && c in regions[s] ensures c in place && place[c] == InRegion(s) {
      assert c in all[s];
    }
  }

  lemma NothingInHand(regions: seq<seq<Chunk>>, pool: seq<Chunk>, place: map<Chunk, Place>)
    requires Placed(regions + [[]], pool, place)
    ensures Placed(regions, pool, place)
  {
    var all := regions + [[]];
    forall s | 0 <= s < |regions| ensures Distinct(regions[s]) {
      assert all[s] == regions[s];
    }
    forall s, c | 0 <= s < |regions| && c in regions[s] ensures c in place && place[c] == InRegion(s) {
      assert c in all[s];
    }
  }

  lemma Entered(regions: seq<seq<Chunk>>, pool: seq<Chunk>, place: map<Chunk, Place>)
    requires Placed(regions, pool, place)
    ensures Placed(regions + [[]], pool, place)
  {
  }

  lemma PoolDropped(regions: seq<seq<Chunk>>, pool: seq<Chunk>, place: map<Chunk, Place>)
    requires Placed(regions, pool, place) && pool != []
    ensures Placed(regions, pool[1..], place - {pool[0]})
  {
    FirstOf(pool);
    assert pool[0] in pool;
  }

  // ----- how many there are -----

  ghost function Chunks(regions: seq<seq<Chunk>>): nat {
    if regions == [] then 0 else Chunks(regions[..|regions| - 1]) + |regions[|regions| - 1]|
  }

  lemma ChunksBehind(regions: seq<seq<Chunk>>, list: seq<Chunk>)
    ensures Chunks(regions + [list]) == Chunks(regions) + |list|
  {
  }

  lemma CountHand(regions: seq<seq<Chunk>>, list: seq<Chunk>)
    requires list != []
    ensures Chunks(regions + [list]) == Chunks(regions + [list[1..]]) + 1
  {
  }

  lemma {:induction false} ChunksAttached(regions: seq<seq<Chunk>>, slot: nat, c: Chunk)
    requires slot < |regions|
    ensures Chunks(regions[slot := [c] + regions[slot]]) == Chunks(regions) + 1
  {
    var n := |regions| - 1;
    var grown := regions[slot := [c] + regions[slot]];
    if slot < n {
      ChunksAttached(regions[..n], slot, c);
      assert grown[..n] == regions[..n][slot := [c] + regions[slot]];
    } else {
      assert grown[..n] == regions[..n];
    }
  }

  // ----- the blocks handed out -----

  /** A block lies in the used part of a chunk of its own region. */
  ghost predicate Backed(place: map<Chunk, Place>, used: map<Chunk, nat>, depth: nat, b: Block) {
    && b.slot < depth && b.chunk in place && place[b.chunk] == InRegion(b.slot) && b.chunk in used
    && b.off + b.len <= used[b.chunk] && b.size <= b.len
  }

  ghost predicate AllBacked(place: map<Chunk, Place>, used: map<Chunk, nat>, depth: nat, blocks: seq<Block>) {
    && (forall i :: 0 <= i < |blocks| ==> Backed(place, used, depth, blocks[i]))
    && Bumped(blocks)
  }

  /** No byte in common. */
  ghost predicate Disjoint(a: Block, b: Block) {
    a.chunk.base + a.off + a.len <= b.chunk.base + b.off || b.chunk.base + b.off + b.len <= a.chunk.base + a.off
  }

  /** In one chunk, a later block is behind an earlier one. */
  ghost predicate Bumped(blocks: seq<Block>) {
    forall i, j :: 0 <= i < j < |blocks| && blocks[i].chunk == blocks[j].chunk ==> blocks[i].off + blocks[i].len <= blocks[j].off
  }

  /** Moving or giving back a chunk that no block is in, while used parts of the others stay. */
  lemma StillBacked(place: map<Chunk, Place>, used: map<Chunk, nat>, place': map<Chunk, Place>, used': map<Chunk, nat>, depth: nat, depth': nat, blocks: seq<Block>)
    requires AllBacked(place, used, depth, blocks) && depth <= depth'
    requires forall c :: c in place && place[c].InRegion? && place[c].slot < depth ==> c in place' && place'[c] == place[c]
    requires forall c :: c in place && place[c].InRegion? && place[c].slot < depth && c in used ==> c in used' && used'[c] >= used[c]
    ensures AllBacked(place', used', depth', blocks)
  {
  }

  lemma HandedOut(place: map<Chunk, Place>, used: map<Chunk, nat>, depth: nat, blocks: seq<Block>, b: Block)
    requires AllBacked(place, used, depth, blocks) && b.chunk in used && b.off == used[b.chunk]
    requires Backed(place, used[b.chunk := b.off + b.len], depth, b)
    ensures AllBacked(place, used[b.chunk := b.off + b.len], depth, blocks + [b])
  {
  }

  /** The blocks of the regions below `depth`. */
  ghost function Below(blocks: seq<Block>, depth: nat): seq<Block> {
    if blocks == [] then [] else
      var last := blocks[|blocks| - 1];
      Below(blocks[..|blocks| - 1], depth) + if last.slot < depth then [last] else []
  }

  /** A pop keeps exactly the blocks of the outer regions, in order. */
  lemma {:induction false} BelowExact(blocks: seq<Block>, depth: nat)
    requires Bumped(blocks)
    ensures Bumped(Below(blocks, depth))
    ensures forall b :: b in Below(blocks, depth) <==> b in blocks && b.slot < depth
  {
    if blocks != [] {
      var front, last := blocks[..|blocks| - 1], blocks[|blocks| - 1];
      assert blocks == front + [last];
      BelowExact(front, depth);
      var kept := Below(front, depth);
      forall i | 0 <= i < |kept| && kept[i].chunk == last.chunk ensures kept[i].off + kept[i].len <= last.off {
        assert kept[i] in front;
        var k :| 0 <= k < |front| && front[k] == kept[i];
        assert blocks[k] == kept[i];
      }
    }
  }

  lemma BelowBacked(blocks: seq<Block>, place: map<Chunk, Place>, used: map<Chunk, nat>, depth: nat)
    requires AllBacked(place, used, depth + 1, blocks)
    ensures AllBacked(place, used, depth, Below(blocks, depth))
  {
    BelowExact(blocks, depth);
    var kept := Below(blocks, depth);
    forall i | 0 <= i < |kept| ensures Backed(place, used, depth, kept[i]) {
      assert kept[i] in blocks;
      var k :| 0 <= k < |blocks| && blocks[k] == kept[i];
      assert Backed(place, used, depth + 1, blocks[k]);
    }
  }

  /** Where a pop puts a region's chunks: into the pool while there is room and the size is the
      default one, else back to the system. */
  function PoolAfter(list: seq<Chunk>, pool: seq<Chunk>): (r: seq<Chunk>)
    ensures |r| <= |list| + |pool|
  {
    if list == [] then pool
    else PoolAfter(list[1..], if list[0].cap == CHUNK_MIN && |pool| < POOL_MAX then [list[0]] + pool else pool)
  }

  /** How many chunks have the default size. */
  function Defaults(list: seq<Chunk>): nat {
    if list == [] then 0 else (if list[0].cap == CHUNK_MIN then 1 else 0) + Defaults(list[1..])
  }

  /** The pool gains as many of the region's default-size chunks as there is room for, in front of what
      it had, and gains nothing else. */
  lemma {:induction false} PoolAfterIs(list: seq<Chunk>, pool: seq<Chunk>)
    requires |pool| <= POOL_MAX
    ensures var r := PoolAfter(list, pool);
            && |r| == (if |pool| + Defaults(list) < POOL_MAX then |pool| + Defaults(list) else POOL_MAX)
            && r[|r| - |pool|..] == pool && forall c :: c in r[..|r| - |pool|] ==> c in list && c.cap == CHUNK_MIN
  {
    if list != [] {
      var next := if list[0].cap == CHUNK_MIN && |pool| < POOL_MAX then [list[0]] + pool else pool;
      PoolAfterIs(list[1..], next);
      var r := PoolAfter(list, pool);
      assert r[|r| - |pool|..] == r[|r| - |next|..][|next| - |pool|..];
      forall c | c in r[..|r| - |pool|] ensures c in list && c.cap == CHUNK_MIN {
        var k :| 0 <= k < |r| - |pool| && r[k] == c;
        if k < |r| - |next| {
          assert c in r[..|r| - |next|] && c in list[1..];
        } else {
          assert next == r[|r| - |next|..] && c == next[0] == list[0];
        }
      }
    }
  }

  /** A thread's regions: `used` is how far each chunk has been bumped. */
  datatype Snapshot = Snapshot(stack: seq<seq<Chunk>>, pool: seq<Chunk>, used: map<Chunk, nat>, blocks: seq<Block>, made: nat, given: nat)

  /** The chunk in front of a region's list has the room. */
  predicate Fits(list: seq<Chunk>, used: map<Chunk, nat>, size: nat) {
    list != [] && list[0] in used && Plus(used[list[0]], Need(size)) <= list[0].cap
  }

  /** What `GuardExact` asks of a request to a region with these chunks. */
  predicate Safe(list: seq<Chunk>, used: map<Chunk, nat>, size: nat) {
    (if list != [] && list[0] in used then used[list[0]] else 0) + size <= WORD - 16
  }

  /** A request served from the region's newest chunk. */
  function Handed(a: Snapshot, index: nat, size: nat): Snapshot
    requires index < |a.stack| && a.stack[index] != [] && a.stack[index][0] in a.used
  {
    var c := a.stack[index][0];
    a.(used := a.used[c := a.used[c] + Need(size)], blocks := a.blocks + [Block(index, c, a.used[c], Need(size), size)])
  }

  /** A chunk with nothing used becomes the region's newest. */
  function Opened(a: Snapshot, index: nat, c: Chunk): Snapshot
    requires index < |a.stack|
  {
    a.(stack := a.stack[index := [c] + a.stack[index]], used := a.used[c := 0])
  }

  /** What a request does: the newest chunk serves it, else a pooled one, else a new one, else the region
      does not and nothing has changed. */
  function Allocated(a: Snapshot, index: nat, size: nat, room: Room): Snapshot
    requires index < |a.stack|
  {
    if Fits(a.stack[index], a.used, size) then Handed(a, index, size)
    else if HasChunk(a.pool, Need(size), room) then Handed(Extended(a, index, Need(size), room), index, size)
    else a
  }

  predicate HasChunk(pool: seq<Chunk>, need: nat, room: Room) {
    (need <= CHUNK_MIN && pool != []) || room.At?
  }

  /** The request gets a block. */
  predicate Serves(a: Snapshot, index: nat, size: nat, room: Room)
    requires index < |a.stack|
  {
    Fits(a.stack[index], a.used, size) || HasChunk(a.pool, Need(size), room)
  }

  /** A pooled chunk, else a new one, becomes the region's newest. */
  function Extended(a: Snapshot, index: nat, need: nat, room: Room): Snapshot
    requires index < |a.stack| && HasChunk(a.pool, need, room)
  {
    if need <= CHUNK_MIN && a.pool != [] then Opened(a.(pool := a.pool[1..]), index, a.pool[0])
    else Opened(a.(made := a.made + 1), index, Chunk(room.base, State.Capacity(need)))
  }

  /** Whatever is asked for: no other region changes and no earlier block; a chunk leaves the pool only from
      its front, and only to serve; a new one is made only when no pooled one will do; and there is no
      block, and no change, exactly when the newest chunk, the pool and the system all fail. */
  lemma DrawnFrom(a: Snapshot, index: nat, size: nat, room: Room)
    requires index < |a.stack|
    ensures var b, none := Allocated(a, index, size, room), Need(size) > CHUNK_MIN || a.pool == [];
            && b.stack == a.stack[index := b.stack[index]] && b.given == a.given
            && a.blocks <= b.blocks && (b == a <==> |b.blocks| == |a.blocks|)
            && (b == a <==> !Serves(a, index, size, room)) && (b == a <==> !Fits(a.stack[index], a.used, size) && none && room.NoRoom?)
            && (b.pool != a.pool ==> !none && b.pool == a.pool[1..] && b.stack[index] == [a.pool[0]] + a.stack[index] && b.made == a.made)
            && (b.made != a.made ==> none && room.At? && b.pool == a.pool && b.made == a.made + 1
                                     && b.stack[index] == [Chunk(room.base, State.Capacity(Need(size)))] + a.stack[index])
            && (b.pool == a.pool && b.made == a.made ==> b.stack == a.stack)
  {
    if !Fits(a.stack[index], a.used, size) && Need(size) <= CHUNK_MIN && a.pool != [] {
      assert |a.pool[1..]| < |a.pool|;
    }
  }

  class State {
    var stack: seq<seq<Chunk>>
    var pool: seq<Chunk>
    var poolCount: nat
    var used: map<Chunk, nat>
    ghost var place: map<Chunk, Place>
    ghost var blocks: seq<Block>
    ghost var made: nat
    ghost var given: nat

    /** Every chunk made and not given back is in one region, in the pool, or in hand as if in a
        region behind the others. */
    ghost predicate Ok(regions: seq<seq<Chunk>>)
      reads this
    {
      && |stack| <= MAX_DEPTH && PoolOk(pool, poolCount)
      && Placed(regions, pool, place) && made == given + Chunks(regions) + |pool|
      && Spaced(place.Keys) && Metered(place.Keys, used) && AllLined(place.Keys, used)
      && AllBacked(place, used, |stack|, blocks)
    }

    ghost predicate Valid()
      reads this
    {
      Ok(stack)
    }

    constructor ()
      ensures Valid() && stack == [] && pool == [] && blocks == [] && made == given == 0
    {
      stack, pool, poolCount, used := [], [], 0, map[];
      place, blocks, made, given := map[], [], 0, 0;
    }

    ghost function Snap(): Snapshot
      reads this
    {
      Snapshot(stack, pool, used, blocks, made, given)
    }

    /** What the system allocator promises of the storage it answers. */
    ghost predicate Granted(room: Room, cap: nat)
      reads this
    {
      room.At? ==> room.base % 16 == 0 && cap <= MAX_OBJECT && forall c :: c in place.Keys ==> Apart(c, Chunk(room.base, cap))
    }

    /** No more than the request needs, and no less than the default. */
    static function Capacity(need: nat): (r: nat)
      ensures r >= need && r >= CHUNK_MIN && (r == need || r == CHUNK_MIN)
    {
      if need > CHUNK_MIN then need else CHUNK_MIN
    }

    /** `arena_chunk_new`. */
    method NewChunk(need: nat, room: Room) returns (got: bool, c: Chunk)
      requires Valid() && Granted(room, Capacity(need))
      modifies this`pool, this`poolCount, this`used, this`place, this`made
      ensures !got ==> Valid() && pool == old(pool) && made == old(made)
      ensures !got <==> room.NoRoom? && (need > CHUNK_MIN || old(pool) == [])
      ensures got ==> Ok(stack + [[c]]) && c.cap >= need && used == old(used)[c := 0]
      ensures !got ==> used == old(used)
      ensures got && need <= CHUNK_MIN && old(pool) != [] ==> pool == old(pool)[1..] && c == old(pool)[0] && made == old(made)
      ensures got && !(need <= CHUNK_MIN && old(pool) != []) ==> pool == old(pool) && made == old(made) + 1
      ensures got && !(need <= CHUNK_MIN && old(pool) != []) ==> c == Chunk(room.base, Capacity(need))
    {
      if need <= CHUNK_MIN && pool != [] {
        c := Unpool();
        return true, c;
      }
      c := Chunk(0, 0);
      if room.NoRoom? {
        return false, c;
      }
      c := Chunk(room.base, Capacity(need));
      Make(c);
      got := true;
    }

    method Unpool() returns (c: Chunk)
      requires Valid() && pool != []
      modifies this`pool, this`poolCount, this`used, this`place
      ensures pool == old(pool)[1..] && c == old(pool)[0] && used == old(used)[c := 0]
      ensures Ok(stack + [[c]]) && c.cap == CHUNK_MIN
    {
      c := pool[0];
      assert c in pool;
      Unpooled(stack, pool, place);
      ChunksBehind(stack, [c]);
      Meter(place.Keys, used, c, 0);
      assert Lined(c, used);
      Line(place.Keys, used, c, 0);
      ghost var moved := place[c := InRegion(|stack|)];
      assert moved.Keys == place.Keys == place.Keys + {c};
      StillBacked(place, used, moved, used[c := 0], |stack|, |stack|, blocks);
      pool, poolCount, used, place := pool[1..], poolCount - 1, used[c := 0], moved;
    }

    method Make(c: Chunk)
      requires Valid() && c.base % 16 == 0 && CHUNK_MIN <= c.cap <= MAX_OBJECT && forall d :: d in place.Keys ==> Apart(d, c)
      modifies this`used, this`place, this`made
      ensures made == old(made) + 1 && used == old(used)[c := 0]
      ensures Ok(stack + [[c]])
    {
      Space(place.Keys, c);
      Meter(place.Keys, used, c, 0);
      Line(place.Keys, used, c, 0);
      Made(stack, pool, place, c);
      ChunksBehind(stack, [c]);
      used := used[c := 0];
      made := made + 1;
      place := place[c := InRegion(|stack|)];
      assert place.Keys == old(place.Keys) + {c};
      StillBacked(old(place), old(used), place, used, |stack|, |stack|, blocks);
    }

    /** `arena_push`; false is the "nested too deep" exit. */
    method Push() returns (ok: bool)
      requires Valid()
      modifies this
      ensures Valid() && ok == (old(|stack|) < MAX_DEPTH)
      ensures stack == if ok then old(stack) + [[]] else old(stack)
      ensures blocks == old(blocks) && pool == old(pool) && used == old(used) && made == old(made) && given == old(given)
    {
      ok := |stack| < MAX_DEPTH;
      if ok {
        Entered(stack, pool, place);
        ChunksBehind(stack, []);
        StillBacked(place, used, place, used, |stack|, |stack| + 1, blocks);
        stack := stack + [[]];
      }
    }

    /** `arena_pop`: only the innermost region's blocks go. */
    method Pop()
      requires Valid()
      modifies this
      ensures Valid() && made == old(made) && given >= old(given)
      ensures old(stack) == [] ==> stack == [] && pool == old(pool) && blocks == old(blocks) && given == old(given)
      ensures old(stack) != [] ==> stack == old(stack)[..old(|stack|) - 1] && blocks == Below(old(blocks), old(|stack|) - 1)
      ensures old(stack) != [] ==> pool == PoolAfter(old(stack)[old(|stack|) - 1], old(pool))
      ensures used == old(used) && given + |pool| == old(given) + old(|pool|) + if old(stack) == [] then 0 else |old(stack)[old(|stack|) - 1]|
    {
      if stack == [] {
        return;
      }
      var list := Detach();
      RetireAll(list);
    }

    /** The innermost region leaves the stack, its chunks in hand and its blocks gone. */
    method Detach() returns (list: seq<Chunk>)
      requires Valid() && stack != []
      modifies this`stack, this`blocks
      ensures list == old(stack)[old(|stack|) - 1] && stack == old(stack)[..old(|stack|) - 1]
      ensures blocks == Below(old(blocks), old(|stack|) - 1)
      ensures Ok(stack + [list])
    {
      ghost var depth := |stack| - 1;
      list := stack[|stack| - 1];
      BelowBacked(blocks, place, used, depth);
      assert stack == stack[..depth] + [list];
      blocks, stack := Below(blocks, depth), stack[..|stack| - 1];
    }

    method RetireAll(hand: seq<Chunk>)
      requires Ok(stack + [hand])
      modifies this`pool, this`poolCount, this`given, this`place
      ensures Valid()
      ensures pool == PoolAfter(hand, old(pool)) && given >= old(given) && given + |pool| == old(given) + old(|pool|) + |hand|
    {
      var list := hand;
      while list != []
        invariant Ok(stack + [list])
        invariant PoolAfter(list, pool) == PoolAfter(hand, old(pool)) && given >= old(given)
        invariant given + |pool| + |list| == old(given) + old(|pool|) + |hand|
        decreases |list|
      {
        Retire(list);
        list := list[1..];
      }
      NothingInHand(stack, pool, place);
      ChunksBehind(stack, []);
    }

    /** The first chunk in hand goes to the pool or back to the system. */
    method Retire(list: seq<Chunk>)
      requires list != [] && Ok(stack + [list])
      modifies this`pool, this`poolCount, this`given, this`place
      ensures Ok(stack + [list[1..]])
      ensures PoolAfter(list[1..], pool) == PoolAfter(list, old(pool)) && given >= old(given)
      ensures given + |pool| == old(given) + old(|pool|) + 1
    {
      if list[0].cap == CHUNK_MIN && poolCount < POOL_MAX {
        ToPool(list);
      } else {
        ToSystem(list);
      }
    }

    method ToPool(list: seq<Chunk>)
      requires list != [] && Ok(stack + [list]) && list[0].cap == CHUNK_MIN && poolCount < POOL_MAX
      modifies this`pool, this`poolCount, this`place
      ensures Ok(stack + [list[1..]])
      ensures pool == [list[0]] + old(pool)
    {
      var c := list[0];
      FirstInHand(stack, list, pool, place);
      CountHand(stack, list);
      RetiredToPool(stack, list, pool, place);
      ghost var moved := place[c := InPool];
      assert moved.Keys == place.Keys;
      StillBacked(place, used, moved, used, |stack|, |stack|, blocks);
      pool, poolCount, place := [c] + pool, poolCount + 1, moved;
    }

    method ToSystem(list: seq<Chunk>)
      requires list != [] && Ok(stack + [list])
      modifies this`given, this`place
      ensures Ok(stack + [list[1..]]) && given == old(given) + 1
    {
      var c := list[0];
      FirstInHand(stack, list, pool, place);
      CountHand(stack, list);
      RetiredForGood(stack, list, pool, place);
      Dropped(c);
      given, place := given + 1, place - {c};
    }

    /** The newest chunk has the room exactly when a multiple of 16 that covers the request is left in it. */
    lemma FitsIff(index: nat, size: nat)
      requires Valid() && index < |stack| && Safe(stack[index], used, size)
      ensures Fits(stack[index], used, size) <==>
              stack[index] != [] && exists m: nat :: size <= m && m % 16 == 0 && used[Newest(index)] + m <= Newest(index).cap
    {
      NeedCovers(size);
      if stack[index] != [] {
        assert Lined(Newest(index), used);
        NoWrap(used[Newest(index)], size);
        assert Need(size) % 16 == 0;
      }
    }

    /** Where a request is served: by the newest chunk when 15 bytes more than it needs are left there, not
        by it when the request is too large for what is left, and always right behind what the chunk has
        handed out before. */
    lemma ServedWhere(index: nat, size: nat, room: Room)
      requires Valid() && index < |stack| && Safe(stack[index], used, size)
      ensures var b := Allocated(Snap(), index, size, room);
              && (stack[index] != [] && used[Newest(index)] + size + 15 <= Newest(index).cap ==>
                    b == Snap().(used := b.used, blocks := b.blocks) && b.blocks != blocks)
              && (stack[index] == [] || used[Newest(index)] + size > Newest(index).cap ==>
                    b == Snap() || |b.stack[index]| == |stack[index]| + 1)
              && (b.blocks != blocks ==>
                    |b.blocks| == |blocks| + 1 && b.blocks[..|blocks|] == blocks
                    && var k := b.blocks[|blocks|];
                       k.chunk in b.used && b.used[k.chunk] == k.off + Need(size) && b.used == used[k.chunk := b.used[k.chunk]]
                       && k.off == if |b.stack[index]| == |stack[index]| then used[k.chunk] else 0)
    {
      NeedCovers(size);
      if stack[index] != [] {
        assert stack[index][0] == Newest(index);
        assert Lined(Newest(index), used);
        NoWrap(used[Newest(index)], size);
      }
    }

    /** `arena_alloc_slot`: bump the region's newest chunk, or take another. */
    method AllocSlot(index: nat, size: nat, room: Room) returns (r: Served)
      requires Valid() && index < |stack| && Safe(stack[index], used, size) && Granted(room, Capacity(Need(size)))
      modifies this
      ensures Valid() && Snap() == Allocated(old(Snap()), index, size, room)
      ensures r.FromRegion? <==> Serves(old(Snap()), index, size, room)
      ensures r.FromRegion? ==> blocks != [] && Names(r, index, size, blocks[|blocks| - 1])
    {
      NeedCovers(size);
      var need := Need(size);
      if stack[index] != [] {
        assert Lined(Newest(index), used);
        NoWrap(used[Newest(index)], size);
      }
      if !Fits(stack[index], used, size) {
        var got := Extend(index, need, room);
        if !got {
          return FromHeap;
        }
      }
      r := Bump(index, need, size);
    }

    /** A fresh newest chunk with room for `need` bytes. */
    method Extend(index: nat, need: nat, room: Room) returns (got: bool)
      requires Valid() && index < |stack| && Granted(room, Capacity(need))
      modifies this`stack, this`pool, this`poolCount, this`used, this`place, this`made
      ensures Valid() && |stack| == old(|stack|)
      ensures got ==> stack[index] != [] && used[Newest(index)] == 0 && need <= Newest(index).cap
      ensures got <==> HasChunk(old(pool), need, room)
      ensures Snap() == if got then Extended(old(Snap()), index, need, room) else old(Snap())
    {
      var c;
      got, c := NewChunk(need, room);
      if got {
        Attach(index, c);
      }
    }

    /** The block just handed out is the one at the answered address. */
    static ghost predicate Names(r: Served, index: nat, size: nat, b: Block) {
      r.FromRegion? && b.slot == index && b.size == size && r.at == b.chunk.base + b.off && r.at % 16 == 0
    }

    function Newest(index: nat): (c: Chunk)
      requires Valid() && index < |stack| && stack[index] != []
      reads this
      ensures c == stack[index][0] && c in place.Keys && place[c] == InRegion(index)
      ensures c in used && used[c] <= c.cap <= MAX_OBJECT
    {
      assert stack[index][0] in stack[index];
      stack[index][0]
    }

    /** Links a chunk in hand as the region's newest. */
    method Attach(index: nat, c: Chunk)
      requires Ok(stack + [[c]]) && index < |stack|
      modifies this`stack, this`place
      ensures Valid() && stack == old(stack)[index := [c] + old(stack)[index]]
    {
      FirstInHand(stack, [c], pool, place);
      Attached(stack, pool, place, c, index);
      ChunksAttached(stack, index, c);
      ChunksBehind(stack, [c]);
      stack := stack[index := [c] + stack[index]];
      place := place[c := InRegion(index)];
      assert place.Keys == old(place.Keys);
      StillBacked(old(place), used, place, used, |stack|, |stack|, blocks);
    }

    method Bump(index: nat, need: nat, size: nat) returns (r: Served)
      requires Valid() && index < |stack| && stack[index] != [] && size <= need && need % 16 == 0
      requires used[Newest(index)] + need <= Newest(index).cap
      modifies this`used, this`blocks
      ensures Valid()
      ensures |blocks| == |old(blocks)| + 1 && blocks[..|old(blocks)|] == old(blocks)
      ensures Names(r, index, size, blocks[|blocks| - 1])
      ensures need == Need(size) ==> Snap() == Handed(old(Snap()), index, size)
      ensures blocks[|blocks| - 1].chunk == Newest(index) && blocks[|blocks| - 1].off == old(used[Newest(index)])
      ensures used == old(used)[Newest(index) := old(used[Newest(index)]) + need]
    {
      var c := Newest(index);
      ghost var b := Block(index, c, used[c], need, size);
      r := FromRegion(c.base + used[c]);
      Meter(place.Keys, used, c, used[c] + need);
      assert Lined(c, used);
      Line(place.Keys, used, c, used[c] + need);
      assert place.Keys + {c} == place.Keys;
      HandedOut(place, used, |stack|, blocks, b);
      used := used[c := used[c] + need];
      blocks := blocks + [b];
    }

    /** `arena_alloc`: the innermost region, or the heap when there is none. */
    method Alloc(size: nat, room: Room) returns (r: Served)
      requires Valid() && (stack != [] ==> Safe(stack[|stack| - 1], used, size)) && Granted(room, Capacity(Need(size)))
      modifies this
      ensures Valid() && Snap() == if old(stack) == [] then old(Snap()) else Allocated(old(Snap()), |old(stack)| - 1, size, room)
      ensures r.FromRegion? <==> old(stack) != [] && Serves(old(Snap()), |old(stack)| - 1, size, room)
      ensures r.FromRegion? ==> blocks != [] && Names(r, |old(stack)| - 1, size, blocks[|blocks| - 1])
    {
      if stack == [] {
        return FromHeap;
      }
      r := AllocSlot(|stack| - 1, size, room);
    }

    /** `arena_alloc_at`: a named region, counted from one. */
    method AllocAt(slot: int, size: nat, room: Room) returns (r: Served)
      requires Valid() && (1 <= slot <= |stack| ==> Safe(stack[slot - 1], used, size)) && Granted(room, Capacity(Need(size)))
      modifies this
      ensures Valid() && Snap() == if 1 <= slot <= |old(stack)| then Allocated(old(Snap()), slot - 1, size, room) else old(Snap())
      ensures r.FromRegion? <==> 1 <= slot <= |old(stack)| && Serves(old(Snap()), slot - 1, size, room)
      ensures r.FromRegion? ==> blocks != [] && Names(r, slot - 1, size, blocks[|blocks| - 1])
    {
      if slot <= 0 || slot > |stack| {
        return FromHeap;
      }
      r := AllocSlot(slot - 1, size, room);
    }

    /** `prismio_memory_thread_cleanup`: every chunk the thread ever made is given back. */
    method Cleanup()
      requires Valid()
      modifies this
      ensures Valid() && stack == [] && pool == [] && blocks == [] && made == old(made) && given == made
    {
      while stack != []
        invariant Valid() && made == old(made)
        decreases |stack|
      {
        Pop();
      }
      while pool != []
        invariant Valid() && stack == [] && made == old(made)
        decreases |pool|
      {
        DropPooled();
      }
      assert |blocks| > 0 ==> Backed(place, used, |stack|, blocks[0]);
    }

    method DropPooled()
      requires Valid() && pool != []
      modifies this
      ensures Valid() && stack == old(stack) && made == old(made) && |pool| < old(|pool|)
    {
      var c := pool[0];
      PoolDropped(stack, pool, place);
      assert c in pool;
      Dropped(c);
      given := given + 1;
      pool := pool[1..];
      poolCount := poolCount - 1;
      place := place - {c};
    }

    lemma Dropped(c: Chunk)
      requires c in place && (place[c].InPool? || place[c].slot >= |stack|)
      requires Spaced(place.Keys) && Metered(place.Keys, used) && AllLined(place.Keys, used) && AllBacked(place, used, |stack|, blocks)
      ensures var left := place - {c};
              Spaced(left.Keys) && Metered(left.Keys, used) && AllLined(left.Keys, used) && AllBacked(left, used, |stack|, blocks)
    {
    }

    // ----- what the invariant means -----

    /** Blocks handed out and not yet popped never overlap, whatever regions they are from. */
    lemma BlocksDisjoint(i: nat, j: nat)
      requires Valid() && i < j < |blocks|
      ensures Disjoint(blocks[i], blocks[j])
    {
      var a, b := blocks[i], blocks[j];
      assert Backed(place, used, |stack|, a) && Backed(place, used, |stack|, b);
      if a.chunk != b.chunk {
        assert a.chunk in place.Keys && b.chunk in place.Keys;
        assert Apart(a.chunk, b.chunk);
      }
    }

    /** A chunk is in one region only, once, and not in the pool as well. */
    lemma ExactlyOnePlace(slot: nat, i: nat)
      requires Valid() && slot < |stack| && i < |stack[slot]|
      ensures stack[slot][i] !in pool
      ensures forall s, j :: 0 <= s < |stack| && 0 <= j < |stack[s]| && stack[s][j] == stack[slot][i] ==> s == slot && j == i
    {
      var c := stack[slot][i];
      assert c in stack[slot] && place[c] == InRegion(slot);
      forall s, j | 0 <= s < |stack| && 0 <= j < |stack[s]| && stack[s][j] == c ensures s == slot && j == i {
        assert c in stack[s] && place[c] == InRegion(s);
        assert Distinct(stack[slot]) && Differ(stack[slot], i, j) && Differ(stack[slot], j, i);
      }
    }
  }

  // ----- whole runs -----

  /** `base` is where the system would put a new chunk, if that place is free. */
  datatype Op = DoPush | DoPop | DoAlloc(size: nat, base: nat) | DoAllocAt(slot: int, size: nat, base: nat)

  predicate Clear(stack: seq<seq<Chunk>>, pool: seq<Chunk>, c: Chunk) {
    && (forall s, i :: 0 <= s < |stack| && 0 <= i < |stack[s]| ==> Apart(stack[s][i], c))
    && (forall i :: 0 <= i < |pool| ==> Apart(pool[i], c))
  }

  /** Where a new chunk for the request would be. */
  function RoomAt(a: Snapshot, size: nat, base: nat): Room {
    var c := Chunk(base, State.Capacity(Need(size)));
    if base % 16 != 0 || c.cap > MAX_OBJECT || !Clear(a.stack, a.pool, c) then NoRoom else At(base)
  }

  method RoomFor(s: State, size: nat, base: nat) returns (room: Room)
    requires s.Valid()
    ensures s.Granted(room, State.Capacity(Need(size))) && room == RoomAt(s.Snap(), size, base)
  {
    var c := Chunk(base, State.Capacity(Need(size)));
    if base % 16 != 0 || c.cap > MAX_OBJECT || !Clear(s.stack, s.pool, c) {
      return NoRoom;
    }
    forall d | d in s.place.Keys ensures Apart(d, c) {
      assert s.place[d].InPool? || d in s.stack[s.place[d].slot];
    }
    room := At(base);
  }

  /** What one operation does. */
  ghost function Next(a: Snapshot, op: Op): Snapshot {
    match op
    case DoPush => if |a.stack| < MAX_DEPTH then a.(stack := a.stack + [[]]) else a
    case DoPop => if a.stack == [] then a else Popped(a)
    case DoAlloc(size, base) => NextAlloc(a, |a.stack|, size, base)
    case DoAllocAt(slot, size, base) => NextAlloc(a, slot, size, base)
  }

  /** The innermost region's blocks end; of its chunks the pool gets what `PoolAfter` says and the system
      the others. */
  ghost function Popped(a: Snapshot): Snapshot
    requires a.stack != []
  {
    var depth := |a.stack| - 1;
    var pool := PoolAfter(a.stack[depth], a.pool);
    Snapshot(a.stack[..depth], pool, a.used, Below(a.blocks, depth), a.made, a.given + |a.pool| + |a.stack[depth]| - |pool|)
  }

  /** Region `slot`, counted from one, is asked for a block; a request that would fool the guard is skipped. */
  ghost function NextAlloc(a: Snapshot, slot: int, size: nat, base: nat): Snapshot {
    if 1 <= slot <= |a.stack| && Safe(a.stack[slot - 1], a.used, size)
    then Allocated(a, slot - 1, size, RoomAt(a, size, base))
    else a
  }

  ghost predicate NextAt(trace: seq<Snapshot>, ops: seq<Op>, i: nat) {
    i < |ops| && i + 1 < |trace| && trace[i + 1] == Next(trace[i], ops[i])
  }

  /** The states of a run. */
  ghost predicate IsRun(trace: seq<Snapshot>, ops: seq<Op>, n: nat) {
    |trace| == n + 1 && forall i: nat {:trigger NextAt(trace, ops, i)} :: i < n ==> NextAt(trace, ops, i)
  }

  lemma RunMore(trace: seq<Snapshot>, ops: seq<Op>, n: nat)
    requires IsRun(trace, ops, n) && n < |ops|
    ensures IsRun(trace + [Next(trace[n], ops[n])], ops, n + 1)
  {
    var more := trace + [Next(trace[n], ops[n])];
    forall i: nat | i < n + 1 ensures NextAt(more, ops, i) {
      if i < n {
        assert NextAt(trace, ops, i);
      }
    }
  }

  /** Over any sequence of operations, each having exactly its effect, the blocks of all active regions
      are disjoint, each in the used part of a chunk its own region holds, and the pool holds at most 8
      chunks of the default size. */
  method Run(s: State, ops: seq<Op>) returns (ghost trace: seq<Snapshot>)
    requires s.Valid()
    modifies s
    ensures s.Valid() && IsRun(trace, ops, |ops|) && trace[0] == old(s.Snap()) && trace[|ops|] == s.Snap()
    ensures forall i, j :: 0 <= i < j < |s.blocks| ==> Disjoint(s.blocks[i], s.blocks[j])
    ensures forall i :: 0 <= i < |s.blocks| ==> s.blocks[i].slot < |s.stack| && s.blocks[i].chunk in s.stack[s.blocks[i].slot]
    ensures |s.pool| <= POOL_MAX && forall i :: 0 <= i < |s.pool| ==> s.pool[i].cap == CHUNK_MIN
    ensures s.made == s.given + Chunks(s.stack) + |s.pool| && s.made >= old(s.made) && s.given >= old(s.given)
  {
    trace := [s.Snap()];
    var n := 0;
    while n < |ops|
      invariant 0 <= n <= |ops| && s.Valid() && s.made >= old(s.made) && s.given >= old(s.given)
      invariant IsRun(trace, ops, n) && trace[0] == old(s.Snap()) && trace[n] == s.Snap()
    {
      Perform(s, ops[n]);
      RunMore(trace, ops, n);
      trace := trace + [s.Snap()];
      n := n + 1;
    }
    forall i, j | 0 <= i < j < |s.blocks| ensures Disjoint(s.blocks[i], s.blocks[j]) {
      s.BlocksDisjoint(i, j);
    }
    forall i | 0 <= i < |s.blocks| ensures s.blocks[i].slot < |s.stack| && s.blocks[i].chunk in s.stack[s.blocks[i].slot] {
      assert Backed(s.place, s.used, |s.stack|, s.blocks[i]);
    }
  }

  method Perform(s: State, op: Op)
    requires s.Valid()
    modifies s
    ensures s.Valid() && s.made >= old(s.made) && s.given >= old(s.given)
    ensures s.Snap() == Next(old(s.Snap()), op)
  {
    match op
    case DoPush =>
      var _ := s.Push();
    case DoPop =>
      s.Pop();
    case DoAlloc(size, base) =>
      Ask(s, size, base);
    case DoAllocAt(slot, size, base) =>
      AskAt(s, slot, size, base);
  }

  method Ask(s: State, size: nat, base: nat)
    requires s.Valid()
    modifies s
    ensures s.Valid() && s.made >= old(s.made) && s.given == old(s.given)
    ensures s.Snap() == NextAlloc(old(s.Snap()), |old(s.stack)|, size, base)
  {
    if s.stack == [] || Safe(s.stack[|s.stack| - 1], s.used, size) {
      var room := RoomFor(s, size, base);
      var _ := s.Alloc(size, room);
    }
  }

  method AskAt(s: State, slot: int, size: nat, base: nat)
    requires s.Valid()
    modifies s
    ensures s.Valid() && s.made >= old(s.made) && s.given == old(s.given)
    ensures s.Snap() == NextAlloc(old(s.Snap()), slot, size, base)
  {
    if 1 <= slot <= |s.stack| ==> Safe(s.stack[slot - 1], s.used, size) {
      var room := RoomFor(s, size, base);
      var _ := s.AllocAt(slot, size, room);
    }
  }
}
