/** A list that owns uncounted elements (modes OBJECT, LIST, TYPED and boxed STRING): its slots, its
    parked removals, its header and its data block, which may be fused with the header. The storage
    a list takes from the allocator is numbered in the order it is taken. An operation that stops
    the program on a bad index is modelled as answering false with nothing changed. */
module OwnedList {
  import opened Basics

  /** Where the slots are: nowhere yet, in the header's own block, or in a block of their own. */
  datatype Data = NoData | Fused | Own(block: nat)

  const SLOT: nat := 8
  const FUSED_MAX: nat := 256

  /** Bytes per element: its own size where elements are stored inline, else a pointer's. */
  function Width(elemSize: int): (w: nat)
    ensures w > 0
  {
    if elemSize > 0 then elemSize else SLOT
  }

  /** How many slots hold `e`. */
  ghost function Slots(d: seq<Ref>, e: nat): nat {
    if d == [] then 0 else (if d[0] == To(e) then 1 else 0) + Slots(d[1..], e)
  }

  ghost function Times(s: seq<nat>, e: nat): nat {
    if s == [] then 0 else (if s[0] == e then 1 else 0) + Times(s[1..], e)
  }

  /** Every element ever moved in is in exactly one slot, or parked exactly once, or has been
      released exactly once; no other element is anywhere. */
  ghost predicate ElementsOk(data: seq<Ref>, grave: seq<nat>, released: seq<nat>, moved: set<nat>) {
    forall e: nat :: Slots(data, e) + Times(grave, e) + Times(released, e) == if e in moved then 1 else 0
  }

  /** The header and the current data block are held; every other block taken was given back once. */
  ghost predicate BlocksOk(frees: seq<nat>, alive: bool, header: nat, block: Data) {
    && header < |frees| && (block.Own? ==> block.block < |frees| && block.block != header)
    && (forall b :: 0 <= b < |frees| ==>
          frees[b] == if alive && (b == header || block == Own(b)) then 0 else 1)
  }

  /** One block's entry: one more where it was the data's own, else the same. */
  ghost predicate GivenBack(block: Data, frees: seq<nat>, frees': seq<nat>, b: nat)
    requires b < |frees| <= |frees'|
  {
    frees'[b] == frees[b] + if block == Own(b) then 1 else 0
  }

  /** The record once a data block has been replaced: a block of its own is given back, one in the
      header stays there, and a new one is on record behind all others. */
  ghost predicate Replaced(block: Data, frees: seq<nat>, block': Data, frees': seq<nat>) {
    && block' == Own(|frees|)
    && |frees'| == |frees| + 1 && frees'[|frees|] == 0
    && forall b :: 0 <= b < |frees| ==> GivenBack(block, frees, frees', b)
  }

  /** What a resize does: nothing to the record where the allocator can keep the place. */
  ghost predicate Resized(block: Data, frees: seq<nat>, block': Data, frees': seq<nat>, moves: bool) {
    if block.Own? && !moves then block' == block && frees' == frees else Replaced(block, frees, block', frees')
  }

  /** A sequence insertion, as a push and a rotation of the new last element. */
  function MovedLast(s: seq<Ref>, i: nat): (r: seq<Ref>)
    requires i < |s|
  {
    s[..i] + [s[|s| - 1]] + s[i..|s| - 1]
  }

  // ----- moving elements between slots, grave and released -----

  lemma {:induction false} SlotsJoin(a: seq<Ref>, b: seq<Ref>, e: nat)
    ensures Slots(a + b, e) == Slots(a, e) + Slots(b, e)
  {
    if a == [] {
      assert a + b == b;
    } else {
      SlotsJoin(a[1..], b, e);
      assert (a + b)[1..] == a[1..] + b;
    }
  }

  lemma {:induction false} TimesSnoc(s: seq<nat>, x: nat, e: nat)
    ensures Times(s + [x], e) == Times(s, e) + if x == e then 1 else 0
  {
    if s != [] {
      TimesSnoc(s[1..], x, e);
      assert (s + [x])[1..] == s[1..] + [x];
    }
  }

  lemma AddSlot(d: seq<Ref>, i: nat, r: Ref, e: nat)
    requires i <= |d|
    ensures Slots(d[..i] + [r] + d[i..], e) == Slots(d, e) + if r == To(e) then 1 else 0
  {
    assert d == d[..i] + d[i..];
    SlotsJoin(d[..i], d[i..], e);
    SlotsJoin(d[..i] + [r], d[i..], e);
    SlotsJoin(d[..i], [r], e);
    assert [r][1..] == [];
  }

  lemma LoseSlot(d: seq<Ref>, i: nat, e: nat)
    requires i < |d|
    ensures Slots(d, e) == Slots(d[..i] + d[i + 1..], e) + if d[i] == To(e) then 1 else 0
  {
    var rest := d[..i] + d[i + 1..];
    AddSlot(rest, i, d[i], e);
    assert rest[..i] + [d[i]] + rest[i..] == d;
  }

  lemma SetSlot(d: seq<Ref>, i: nat, r: Ref, e: nat)
    requires i < |d|
    ensures Slots(d[i := r], e) + (if d[i] == To(e) then 1 else 0) == Slots(d, e) + if r == To(e) then 1 else 0
  {
    LoseSlot(d, i, e);
    LoseSlot(d[i := r], i, e);
    assert d[i := r][..i] + d[i := r][i + 1..] == d[..i] + d[i + 1..];
  }

  function Ids(r: Ref): (s: set<nat>) {
    if r.To? then {r.id} else {}
  }

  lemma MoveIn(d: seq<Ref>, g: seq<nat>, rel: seq<nat>, moved: set<nat>, i: nat, r: Ref)
    requires ElementsOk(d, g, rel, moved) && i <= |d| && (r.To? ==> r.id !in moved)
    ensures ElementsOk(d[..i] + [r] + d[i..], g, rel, moved + Ids(r))
  {
    forall e: nat ensures Slots(d[..i] + [r] + d[i..], e) + Times(g, e) + Times(rel, e) == if e in moved + Ids(r) then 1 else 0 {
      AddSlot(d, i, r, e);
    }
  }

  /** `x` goes to the end of the grave, or of the released. */
  ghost predicate GoesTo(g: seq<nat>, rel: seq<nat>, x: Ref, g2: seq<nat>, rel2: seq<nat>) {
    if x.To? then (g2 == g + [x.id] && rel2 == rel) || (g2 == g && rel2 == rel + [x.id]) else g2 == g && rel2 == rel
  }

  /** Overwriting a slot; what it held goes to the grave or is released, unless it is stored again. */
  lemma Overwrite(d: seq<Ref>, g: seq<nat>, rel: seq<nat>, moved: set<nat>, i: nat, r: Ref, g2: seq<nat>, rel2: seq<nat>)
    requires ElementsOk(d, g, rel, moved) && i < |d|
    requires r.To? ==> r.id !in moved || d[i] == r
    requires GoesTo(g, rel, if d[i] == r then Null else d[i], g2, rel2)
    ensures ElementsOk(d[i := r], g2, rel2, moved + Ids(r))
  {
    forall e: nat ensures Slots(d[i := r], e) + Times(g2, e) + Times(rel2, e) == if e in moved + Ids(r) then 1 else 0 {
      SetSlot(d, i, r, e);
      LoseSlot(d, i, e);
      if d[i].To? {
        TimesSnoc(g, d[i].id, e);
        TimesSnoc(rel, d[i].id, e);
      }
    }
  }

  lemma TakeOut(d: seq<Ref>, g: seq<nat>, rel: seq<nat>, moved: set<nat>, i: nat, g2: seq<nat>, rel2: seq<nat>)
    requires ElementsOk(d, g, rel, moved) && i < |d| && GoesTo(g, rel, d[i], g2, rel2)
    ensures ElementsOk(d[..i] + d[i + 1..], g2, rel2, moved)
  {
    forall e: nat ensures Slots(d[..i] + d[i + 1..], e) + Times(g2, e) + Times(rel2, e) == if e in moved then 1 else 0 {
      LoseSlot(d, i, e);
      if d[i].To? {
        TimesSnoc(g, d[i].id, e);
        TimesSnoc(rel, d[i].id, e);
      }
    }
  }

  lemma Exchange(d: seq<Ref>, g: seq<nat>, rel: seq<nat>, moved: set<nat>, i: nat, j: nat)
    requires ElementsOk(d, g, rel, moved) && i < |d| && j < |d|
    ensures ElementsOk(d[i := d[j]][j := d[i]], g, rel, moved)
  {
    forall e: nat ensures Slots(d[i := d[j]][j := d[i]], e) == Slots(d, e) {
      SetSlot(d, i, d[j], e);
      SetSlot(d[i := d[j]], j, d[i], e);
    }
  }

  /** The last parked element is released. */
  lemma Unpark(d: seq<Ref>, g: seq<nat>, rel: seq<nat>, moved: set<nat>)
    requires ElementsOk(d, g, rel, moved) && g != []
    ensures ElementsOk(d, g[..|g| - 1], rel + [g[|g| - 1]], moved)
  {
    var last := g[|g| - 1];
    assert g == g[..|g| - 1] + [last];
    forall e: nat ensures Times(g[..|g| - 1], e) + Times(rel + [last], e) == Times(g, e) + Times(rel, e) {
      TimesSnoc(g[..|g| - 1], last, e);
      TimesSnoc(rel, last, e);
    }
  }

  /** One slot further down. */
  lemma OneMore(d: seq<Ref>, i: nat, s: seq<nat>, s1: seq<nat>, s2: seq<nat>, here: bool)
    requires i < |d| && s1 == s + (if here then Parked(d, i + 1) else [])
    requires s2 == s1 + if here && d[i].To? then [d[i].id] else []
    ensures s2 == s + if here then Parked(d, i) else []
  {
  }

  function Doubled(cap: nat): (r: nat)
    ensures r >= 2 * cap && r > cap
  {
    if cap > 0 then cap * 2 else 4
  }

  class List {
    var data: seq<Ref>
    var cap: nat
    var block: Data
    var header: nat
    var grave: seq<nat>
    var alive: bool
    var frees: seq<nat>                   // per block taken: how often given back
    ghost var released: seq<nat>          // elements given to the element release, in order
    ghost var moved: set<nat>             // elements moved in so far

    ghost predicate Valid()
      reads this
    {
      && ElementsOk(data, grave, released, moved)
      && BlocksOk(frees, alive, header, block)
      && |data| <= cap && (cap > 0 <==> !block.NoData?)
    }

    /** `list_new_cap` on the heap: up to 256 bytes of slots share the header's block. */
    constructor (capacity: nat, elemSize: int)
      ensures Valid() && alive && data == [] && grave == [] && cap == capacity && moved == {} && released == []
      ensures elemSize > 0 ==> (block.Fused? <==> 0 < capacity * elemSize <= 256)
      ensures elemSize <= 0 ==> (block.Fused? <==> 0 < capacity * 8 <= 256)
      ensures block.NoData? <==> capacity == 0
      ensures |frees| == if block.Own? then 2 else 1
    {
      data, grave, cap, alive, header := [], [], capacity, true, 0;
      released, moved := [], {};
      if 0 < capacity * Width(elemSize) <= FUSED_MAX {
        block, frees := Fused, [0];
      } else if capacity > 0 {
        block, frees := Own(1), [0, 0];
      } else {
        block, frees := NoData, [0];
      }
    }

    /** `rt_base_realloc` and friends: `moves` is whether the allocator had to find another place. */
    method NewDataBlock(moves: bool)
      requires Valid() && alive
      modifies this`block, this`frees
      ensures BlocksOk(frees, alive, header, block) && block.Own? && alive
      ensures Resized(old(block), old(frees), block, frees, moves)
    {
      if block.Own? && !moves {
        return;
      }
      if block.Own? {
        frees := frees[block.block := frees[block.block] + 1];
      }
      block := Own(|frees|);
      frees := frees + [0];
    }

    /** `list_push_grow`: doubling, from 4; a fused block is left behind in the header, another is
        resized, which may move it. */
    method Grow(moves: bool)
      requires Valid() && alive && |data| == cap
      modifies this`block, this`frees, this`cap
      ensures Valid() && cap == Doubled(old(cap))
      ensures block.Own? && Resized(old(block), old(frees), block, frees, moves)
    {
      NewDataBlock(moves);
      cap := Doubled(cap);
    }

    /** `list_reserve`: always a new block. */
    method Reserve(n: int)
      requires Valid() && alive
      modifies this`block, this`frees, this`cap
      ensures Valid() && cap == if n <= old(cap) then old(cap) else n
      ensures if n <= old(cap) then block == old(block) && frees == old(frees) else Replaced(old(block), old(frees), block, frees)
    {
      if n <= cap {
        return;
      }
      NewDataBlock(true);
      cap := n;
    }

    /** The storage after a push onto `len0` elements in `cap0` slots. */
    ghost predicate GrownIfFull(len0: nat, cap0: nat, block0: Data, frees0: seq<nat>, moves: bool)
      reads this
    {
      if len0 < cap0 then cap == cap0 && block == block0 && frees == frees0
      else cap == Doubled(cap0) && block.Own? && Resized(block0, frees0, block, frees, moves)
    }

    /** `list_push`: the element moves in. */
    method Push(r: Ref, moves: bool)
      requires Valid() && alive && (r.To? ==> r.id !in moved)
      modifies this`data, this`block, this`frees, this`cap, this`moved
      ensures Valid() && data == old(data) + [r] && moved == old(moved) + Ids(r)
      ensures GrownIfFull(old(|data|), old(cap), old(block), old(frees), moves)
    {
      if |data| >= cap {
        Grow(moves);
      }
      MoveIn(data, grave, released, moved, |data|, r);
      assert data[..|data|] + [r] + data[|data|..] == data + [r];
      data := data + [r];
      moved := moved + Ids(r);
    }

    /** `list_insert`: checked, then pushed, then the last element moved to its place. */
    method Insert(i: int, r: Ref, moves: bool) returns (ok: bool)
      requires Valid() && alive && (r.To? ==> r.id !in moved)
      modifies this`data, this`block, this`frees, this`cap, this`moved
      ensures ok <==> 0 <= i <= |old(data)|
      ensures Valid() && (!ok ==> data == old(data) && moved == old(moved) && frees == old(frees) && block == old(block) && cap == old(cap))
      ensures ok ==> data == old(data)[..i] + [r] + old(data)[i..] && moved == old(moved) + Ids(r)
      ensures ok ==> |data| == |old(data)| + 1 && GrownIfFull(old(|data|), old(cap), old(block), old(frees), moves)
    {
      if i < 0 || i > |data| {
        return false;
      }
      Push(r, moves);
      MoveIn(old(data), grave, released, old(moved), i, r);
      data := MovedLast(data, i);
      assert data == old(data)[..i] + [r] + old(data)[i..];
      ok := true;
    }

    /** `list_set`: a displaced element is parked, unless it is the value being stored. */
    method Set(i: int, r: Ref) returns (ok: bool)
      requires Valid() && alive
      requires r.To? ==> r.id !in moved || (0 <= i < |data| && data[i] == r)
      modifies this`data, this`grave, this`moved
      ensures ok <==> 0 <= i < |old(data)|
      ensures Valid() && (!ok ==> data == old(data) && grave == old(grave) && moved == old(moved))
      ensures ok ==> data == old(data)[i := r] && moved == old(moved) + Ids(r)
      ensures ok ==> grave == old(grave) + if old(data)[i].To? && old(data)[i] != r then [old(data)[i].id] else []
    {
      if i < 0 || i >= |data| {
        return false;
      }
      var parked := if data[i].To? && data[i] != r then grave + [data[i].id] else grave;
      Overwrite(data, grave, released, moved, i, r, parked, released);
      grave := parked;
      data := data[i := r];
      moved := moved + Ids(r);
      ok := true;
    }

    /** `list_set_now`: the displaced element is released at once. */
    method SetNow(i: int, r: Ref) returns (ok: bool)
      requires Valid() && alive
      requires r.To? ==> r.id !in moved || (0 <= i < |data| && data[i] == r)
      modifies this`data, this`released, this`moved
      ensures ok <==> 0 <= i < |old(data)|
      ensures Valid() && (!ok ==> data == old(data) && released == old(released) && moved == old(moved))
      ensures ok ==> data == old(data)[i := r] && moved == old(moved) + Ids(r)
      ensures ok ==> released == old(released) + if old(data)[i].To? && old(data)[i] != r then [old(data)[i].id] else []
    {
      if i < 0 || i >= |data| {
        return false;
      }
      ghost var gone := if data[i].To? && data[i] != r then released + [data[i].id] else released;
      Overwrite(data, grave, released, moved, i, r, grave, gone);
      data := data[i := r];
      released := gone;
      moved := moved + Ids(r);
      ok := true;
    }

    /** `list_swap`: a permutation, with no effect on ownership. */
    method Swap(i: int, j: int) returns (ok: bool)
      requires Valid() && alive
      modifies this`data
      ensures ok <==> 0 <= i < |old(data)| && 0 <= j < |old(data)|
      ensures Valid() && data == if ok then old(data)[i := old(data)[j]][j := old(data)[i]] else old(data)
    {
      if i < 0 || i >= |data| || j < 0 || j >= |data| {
        return false;
      }
      Exchange(data, grave, released, moved, i, j);
      data := data[i := data[j]][j := data[i]];
      ok := true;
    }

    /** `list_remove_at`: the element is released at once under `now`, and parked otherwise. */
    method RemoveAt(i: int, now: bool) returns (ok: bool)
      requires Valid() && alive
      modifies this`data, this`grave, this`released
      ensures ok <==> 0 <= i < |old(data)|
      ensures Valid() && (!ok ==> data == old(data) && grave == old(grave) && released == old(released))
      ensures ok ==> data == old(data)[..i] + old(data)[i + 1..]
      ensures ok ==> grave == old(grave) + if !now && old(data)[i].To? then [old(data)[i].id] else []
      ensures ok ==> released == old(released) + if now && old(data)[i].To? then [old(data)[i].id] else []
    {
      if i < 0 || i >= |data| {
        return false;
      }
      var out := data[i];
      var parked := if out.To? && !now then grave + [out.id] else grave;
      ghost var gone := if out.To? && now then released + [out.id] else released;
      TakeOut(data, grave, released, moved, i, parked, gone);
      data := data[..i] + data[i + 1..];
      grave, released := parked, gone;
      ok := true;
    }

    /** `list_truncate`. */
    method Truncate(n: int, now: bool)
      requires Valid() && alive
      modifies this`data, this`grave, this`released
      ensures Valid()
      ensures var keep := if n < 0 then 0 else if n > |old(data)| then |old(data)| else n;
              && data == old(data)[..keep]
              && grave == old(grave) + (if now then [] else Parked(old(data), keep))
              && released == old(released) + (if now then Parked(old(data), keep) else [])
    {
      var keep := if n < 0 then 0 else n;
      if keep >= |data| {
        assert data[..|data|] == data && Parked(data, |data|) == [];
        return;
      }
      var i := |data|;
      ghost var d, g, rel := data, grave, released;
      while i > keep
        invariant keep <= i <= |d|
        invariant data == d[..i] && Valid()
        invariant grave == g + (if now then [] else Parked(d, i))
        invariant released == rel + (if now then Parked(d, i) else [])
      {
        i := i - 1;
        ghost var g1, rel1 := grave, released;
        assert data[i] == d[i];
        assert data[..i] + data[i + 1..] == d[..i];
        var _ := RemoveAt(i, now);
        OneMore(d, i, g, g1, grave, !now);
        OneMore(d, i, rel, rel1, released, now);
      }
    }

    /** `list_release`: slots from the last down, then the grave from the last down, then the data
        block if it is not the header's, then the header. Afterwards every element ever moved in and
        every block ever taken has been given back exactly once. */
    method Release()
      requires Valid() && alive
      modifies this
      ensures !alive && data == [] && grave == [] && moved == old(moved)
      ensures released == old(released) + Parked(old(data), 0) + Backwards(old(grave))
      ensures forall e: nat :: Times(released, e) == if e in moved then 1 else 0
      ensures |frees| == |old(frees)| && forall b :: 0 <= b < |frees| ==> frees[b] == 1
    {
      Truncate(0, true);
      assert grave == old(grave);
      ReleaseParked();
      if block.Own? {
        frees := frees[block.block := frees[block.block] + 1];
      }
      frees := frees[header := frees[header] + 1];
      alive := false;
    }

    /** `list_release_parked`. */
    method ReleaseParked()
      requires Valid()
      modifies this`grave, this`released
      ensures Valid() && grave == [] && released == old(released) + Backwards(old(grave))
    {
      while |grave| > 0
        invariant Valid() && released + Backwards(grave) == old(released) + Backwards(old(grave))
        decreases |grave|
      {
        ghost var g := grave;
        Unpark(data, grave, released, moved);
        released := released + [grave[|grave| - 1]];
        grave := grave[..|grave| - 1];
        assert released + Backwards(grave) == old(released) + Backwards(old(grave)) by {
          assert Backwards(g) == [g[|g| - 1]] + Backwards(grave);
        }
      }
    }
  }

  // ----- whole lives -----

  /** `element` says whether a new element is stored, or nothing. */
  datatype Op =
    | DoPush(element: bool, moves: bool)
    | DoInsert(i: int, element: bool, moves: bool)
    | DoSet(i: int, element: bool, now: bool)
    | DoSetSame(i: int, now: bool)
    | DoSwap(i: int, j: int)
    | DoRemove(i: int, now: bool)
    | DoTruncate(n: int, now: bool)
    | DoReserve(n: int)

  /** What the operations alone decide of a list: its elements, those parked and those released in order,
      its room, and how many blocks it has taken. */
  datatype Shape = Shape(data: seq<Ref>, grave: seq<nat>, released: seq<nat>, cap: nat, own: bool, blocks: nat, moved: set<nat>)

  function FirstShape(capacity: nat, elemSize: int): Shape {
    var own := capacity * Width(elemSize) > FUSED_MAX;
    Shape([], [], [], capacity, own, if own then 2 else 1, {})
  }

  /** One more slot, at `i`: the storage doubles when full. */
  function InsertShape(s: Shape, i: nat, r: Ref, moves: bool): Shape
    requires i <= |s.data|
  {
    var t := s.(data := s.data[..i] + [r] + s.data[i..], moved := s.moved + Ids(r));
    if |s.data| < s.cap then t
    else t.(cap := Doubled(s.cap), own := true, blocks := if s.own && !moves then s.blocks else s.blocks + 1)
  }

  /** The elements that leave go to the grave, or are released. */
  function LeaveShape(s: Shape, data: seq<Ref>, out: seq<nat>, now: bool): Shape {
    s.(data := data, grave := if now then s.grave else s.grave + out, released := if now then s.released + out else s.released)
  }

  function StoreShape(s: Shape, i: int, r: Ref, now: bool): Shape {
    if 0 <= i < |s.data| then
      LeaveShape(s.(moved := s.moved + Ids(r)), s.data[i := r], if s.data[i] == r then [] else Leaving(s.data[i]), now)
    else s
  }

  function NextShape(s: Shape, op: Op, next: nat): Shape {
    var d, n := s.data, |s.data|;
    match op
    case DoPush(element, moves) => InsertShape(s, n, Element(element, next), moves)
    case DoInsert(i, element, moves) => if 0 <= i <= n then InsertShape(s, i, Element(element, next), moves) else s
    case DoSet(i, element, now) => StoreShape(s, i, Element(element, next), now)
    case DoSetSame(_, _) => s
    case DoSwap(i, j) => if 0 <= i < n && 0 <= j < n then s.(data := d[i := d[j]][j := d[i]]) else s
    case DoRemove(i, now) => if 0 <= i < n then LeaveShape(s, d[..i] + d[i + 1..], Leaving(d[i]), now) else s
    case DoTruncate(k, now) => if k >= n then s else var keep := if k < 0 then 0 else k; LeaveShape(s, d[..keep], Parked(d, keep), now)
    case DoReserve(k) => if k <= s.cap then s else s.(cap := k, own := true, blocks := s.blocks + 1)
  }

  function Leaving(r: Ref): seq<nat> {
    if r.To? then [r.id] else []
  }

  function Element(element: bool, next: nat): Ref {
    if element then To(next) else Null
  }

  function LastShape(s: Shape, ops: seq<Op>): Shape {
    if ops == [] then s else NextShape(LastShape(s, ops[..|ops| - 1]), ops[|ops| - 1], |ops| - 1)
  }

  function Power(n: nat): nat {
    if n == 0 then 1 else 2 * Power(n - 1)
  }

  /** A list grown by pushes alone takes few blocks: their number is logarithmic in the length. */
  lemma {:induction false} PushesTakeFew(elemSize: int, ops: seq<Op>)
    requires forall i :: 0 <= i < |ops| ==> ops[i].DoPush?
    ensures var s := LastShape(FirstShape(0, elemSize), ops);
            |s.data| == |ops| && s.cap >= |s.data| && Power(s.blocks) <= 4 + 2 * |ops|
            && (if ops == [] then s.cap == 0 && s.blocks == 1 else Power(s.blocks) <= s.cap <= 4 + 2 * |ops|)
  {
    if ops == [] {
      assert Power(1) == 2;
    } else {
      var front := ops[..|ops| - 1];
      PushesTakeFew(elemSize, front);
      var s := LastShape(FirstShape(0, elemSize), front);
      assert Power(s.blocks + 1) == 2 * Power(s.blocks);
      if front == [] {
        assert Power(1) == 2 && Power(2) == 2 * Power(1);
      }
    }
  }

  ghost predicate HasShape(l: List, s: Shape)
    reads l
  {
    l.data == s.data && l.grave == s.grave && l.released == s.released && l.cap == s.cap && l.block.Own? == s.own && |l.frees| == s.blocks && l.moved == s.moved
  }

  /** Over a list's whole life the elements moved in are those of the operations that store one, and
      each is released exactly once, in the order the operations decide, as are the header and every data
      block the operations take.
      Elements are numbered by operation. */
  method Life(capacity: nat, elemSize: int, ops: seq<Op>) returns (l: List)
    ensures fresh(l) && !l.alive
    ensures var last := LastShape(FirstShape(capacity, elemSize), ops);
            && (forall e: nat :: Times(l.released, e) == if e in last.moved then 1 else 0)
            && l.released == last.released + Parked(last.data, 0) + Backwards(last.grave)
            && |l.frees| == last.blocks
    ensures forall b :: 0 <= b < |l.frees| ==> l.frees[b] == 1
  {
    l := new List(capacity, elemSize);
    ghost var first := FirstShape(capacity, elemSize);
    var n := 0;
    while n < |ops|
      invariant 0 <= n <= |ops| && fresh(l) && l.Valid() && l.alive
      invariant forall e :: e in l.moved ==> e < n
      invariant HasShape(l, LastShape(first, ops[..n]))
    {
      Perform(l, ops[n], n, LastShape(first, ops[..n]));
      assert ops[..n + 1][..n] == ops[..n];
      n := n + 1;
    }
    assert ops[..n] == ops;
    l.Release();
  }

  method Perform(l: List, op: Op, next: nat, ghost s: Shape)
    requires l.Valid() && l.alive && HasShape(l, s) && forall e :: e in l.moved ==> e < next
    modifies l
    ensures l.Valid() && l.alive && HasShape(l, NextShape(s, op, next)) && forall e :: e in l.moved ==> e <= next
  {
    if op.DoPush? || op.DoInsert? || op.DoReserve? {
      Extend(l, op, next, s);
    } else {
      Rearrange(l, op, next, s);
    }
  }

  method Extend(l: List, op: Op, next: nat, ghost s: Shape)
    requires l.Valid() && l.alive && HasShape(l, s) && (forall e :: e in l.moved ==> e < next) && (op.DoPush? || op.DoInsert? || op.DoReserve?)
    modifies l`data, l`block, l`frees, l`cap, l`moved
    ensures l.Valid() && HasShape(l, NextShape(s, op, next)) && forall e :: e in l.moved ==> e <= next
  {
    match op
    case DoPush(element, moves) =>
      l.Push(Element(element, next), moves);
    case DoInsert(i, element, moves) =>
      var _ := l.Insert(i, Element(element, next), moves);
    case DoReserve(n) =>
      l.Reserve(n);
  }

  method Rearrange(l: List, op: Op, next: nat, ghost s: Shape)
    requires l.Valid() && l.alive && HasShape(l, s) && (forall e :: e in l.moved ==> e < next) && !(op.DoPush? || op.DoInsert? || op.DoReserve?)
    modifies l`data, l`grave, l`released, l`moved
    ensures l.Valid() && HasShape(l, NextShape(s, op, next)) && forall e :: e in l.moved ==> e <= next
  {
    match op
    case DoSet(i, element, now) =>
      Store(l, i, Element(element, next), now, s);
    case DoSetSame(i, now) =>
      StoreSame(l, i, now, s);
    case DoSwap(i, j) =>
      var _ := l.Swap(i, j);
    case DoRemove(i, now) =>
      var _ := l.RemoveAt(i, now);
    case DoTruncate(n, now) =>
      l.Truncate(n, now);
  }

  /** Storing a slot's own value over it changes nothing. */
  method StoreSame(l: List, i: int, now: bool, ghost s: Shape)
    requires l.Valid() && l.alive && HasShape(l, s)
    modifies l`data, l`grave, l`released, l`moved
    ensures l.Valid() && HasShape(l, s)
  {
    if 0 <= i < |l.data| {
      SlotMoved(l.data, l.grave, l.released, l.moved, i);
      assert l.data[i := l.data[i]] == l.data && l.moved + Ids(l.data[i]) == l.moved;
      Store(l, i, l.data[i], now, s);
    }
  }

  /** Either form of `list_set`. */
  method Store(l: List, i: int, r: Ref, now: bool, ghost s: Shape)
    requires l.Valid() && l.alive && HasShape(l, s) && (r.To? ==> r.id !in l.moved || (0 <= i < |l.data| && l.data[i] == r))
    modifies l`data, l`grave, l`released, l`moved
    ensures l.Valid() && HasShape(l, StoreShape(s, i, r, now))
  {
    if now {
      var _ := l.SetNow(i, r);
    } else {
      var _ := l.Set(i, r);
    }
  }

  /** What a slot holds has been moved in. */
  lemma SlotMoved(d: seq<Ref>, g: seq<nat>, rel: seq<nat>, moved: set<nat>, i: nat)
    requires ElementsOk(d, g, rel, moved) && i < |d|
    ensures d[i].To? ==> d[i].id in moved
  {
    if d[i].To? {
      LoseSlot(d, i, d[i].id);
    }
  }
}
