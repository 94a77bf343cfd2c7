/** Lists whose elements are reference-counted (AIF_ELEM_RC): one count per slot or parked element,
    across any number of lists. An operation that stops the program on a bad index is modelled as
    answering false with nothing changed. */
module RcLists {
  import opened Basics

  /** `data` up to `len`, the elements parked by removals, and whether the list still exists. */
  datatype RtList = RtList(data: seq<Ref>, grave: seq<nat>, alive: bool)

  /** How often a list holds `v`, in its slots and its grave. */
  ghost function Occ(l: RtList, v: nat): nat {
    if l.alive then multiset(l.data)[To(v)] + multiset(l.grave)[v] else 0
  }

  ghost function OccAll(lists: seq<RtList>, v: nat): nat {
    if lists == [] then 0 else Occ(lists[0], v) + OccAll(lists[1..], v)
  }

  /** Replacing one list changes the total by the difference of that list's own counts. */
  lemma {:induction false} OccSet(lists: seq<RtList>, l: nat, x: RtList, v: nat)
    requires l < |lists|
    ensures OccAll(lists[l := x], v) + Occ(lists[l], v) == OccAll(lists, v) + Occ(x, v)
  {
    if l == 0 {
      assert lists[0 := x][1..] == lists[1..];
    } else {
      OccSet(lists[1..], l - 1, x, v);
      assert lists[l := x][1..] == lists[1..][l - 1 := x];
    }
  }

  lemma {:induction false} OccAppend(lists: seq<RtList>, x: RtList, v: nat)
    ensures OccAll(lists + [x], v) == OccAll(lists, v) + Occ(x, v)
  {
    if lists == [] {
      assert (lists + [x])[1..] == [];
    } else {
      OccAppend(lists[1..], x, v);
      assert (lists + [x])[1..] == lists[1..] + [x];
    }
  }

  ghost predicate RefsOk(l: RtList, n: nat) {
    && (forall i :: 0 <= i < |l.data| && l.data[i].To? ==> l.data[i].id < n)
    && (forall i :: 0 <= i < |l.grave| ==> l.grave[i] < n)
  }

  ghost predicate ValidRefs(lists: seq<RtList>, n: nat) {
    forall l :: 0 <= l < |lists| ==> RefsOk(lists[l], n)
  }

  /** Every count is the number of places that hold the value; a value is freed, once, exactly when
      it was held and no place holds it any more. */
  ghost predicate Sound(rc: seq<nat>, frees: seq<nat>, ever: seq<bool>, lists: seq<RtList>) {
    && |rc| == |frees| == |ever|
    && ValidRefs(lists, |rc|)
    && (forall v :: 0 <= v < |rc| ==> rc[v] == OccAll(lists, v))
    && (forall v :: 0 <= v < |rc| ==> (rc[v] > 0 ==> ever[v]) && frees[v] == if ever[v] && rc[v] == 0 then 1 else 0)
  }

  /** A cold block is freed with its value, and there is none where the value is not split. */
  ghost predicate ColdFreed(split: seq<bool>, coldFrees: seq<nat>, frees: seq<nat>) {
    |split| == |coldFrees| == |frees| && forall v :: 0 <= v < |frees| ==> coldFrees[v] == if split[v] then frees[v] else 0
  }

  /** `to` holds one `v` fewer than `from`, and as many of everything else. */
  ghost predicate OneLess(from: seq<RtList>, to: seq<RtList>, v: nat) {
    forall w: nat :: OccAll(from, w) == OccAll(to, w) + if w == v then 1 else 0
  }

  ghost predicate SameOcc(from: seq<RtList>, to: seq<RtList>) {
    forall w: nat :: OccAll(from, w) == OccAll(to, w)
  }

  lemma SetSame(lists: seq<RtList>, l: nat, x: RtList)
    requires l < |lists| && forall w: nat :: Occ(lists[l], w) == Occ(x, w)
    ensures SameOcc(lists, lists[l := x])
  {
    forall w: nat ensures OccAll(lists, w) == OccAll(lists[l := x], w) {
      OccSet(lists, l, x, w);
    }
  }

  /** The marks once `r` has been put into some list. */
  function Marked(ever: seq<bool>, r: Ref): seq<bool> {
    if r.To? && r.id < |ever| then ever[r.id := true] else ever
  }

  /** Values stay, marks stay, and a value once freed stays so. */
  ghost predicate MarksKept(ever: seq<bool>, frees: seq<nat>, ever': seq<bool>, frees': seq<nat>) {
    && |ever| == |frees| <= |ever'| == |frees'|
    && forall v :: 0 <= v < |ever| ==> (ever[v] ==> ever'[v]) && frees[v] <= frees'[v]
  }

  // ----- what slot operations do to a list's own counts -----

  lemma DropSlot(l: RtList, i: nat, w: nat)
    requires l.alive && i < |l.data|
    ensures Occ(l, w) == Occ(l.(data := l.data[..i] + l.data[i + 1..]), w) + if l.data[i] == To(w) then 1 else 0
  {
    assert l.data == l.data[..i] + [l.data[i]] + l.data[i + 1..];
  }

  lemma ParkValue(l: RtList, v: nat, w: nat)
    requires l.alive
    ensures Occ(l.(grave := l.grave + [v]), w) == Occ(l, w) + if v == w then 1 else 0
  {
  }

  lemma InsertSlot(l: RtList, i: nat, r: Ref, w: nat)
    requires l.alive && i <= |l.data|
    ensures Occ(l.(data := l.data[..i] + [r] + l.data[i..]), w) == Occ(l, w) + if r == To(w) then 1 else 0
  {
    assert l.data == l.data[..i] + l.data[i..];
  }

  /** What a discarded slot adds to the grave. */
  function Buried(r: Ref, now: bool): seq<nat> {
    if !now && r.To? then [r.id] else []
  }

  /** What discarding all slots from `lo` adds to it. */
  function AllBuried(d: seq<Ref>, lo: nat, now: bool): seq<nat>
    requires lo <= |d|
  {
    if now then [] else Parked(d, lo)
  }

  lemma BuriedMore(lists: seq<RtList>, l: nat, x: RtList, i: nat, now: bool)
    requires l < |lists| && i < |x.data|
    ensures var y := x.(grave := x.grave + AllBuried(x.data, i + 1, now));
            lists[l := y][l := y.(grave := y.grave + Buried(x.data[i], now))] == lists[l := x.(grave := x.grave + AllBuried(x.data, i, now))]
  {
    assert x.grave + AllBuried(x.data, i + 1, now) + Buried(x.data[i], now) == x.grave + AllBuried(x.data, i, now);
  }

  class Heap {
    var rc: seq<nat>
    var frees: seq<nat>
    var ever: seq<bool>       // has been held by some list
    var split: seq<bool>      // has a cold block of its own
    var coldFrees: seq<nat>
    var lists: seq<RtList>

    ghost predicate Valid()
      reads this
    {
      Sound(rc, frees, ever, lists) && ColdOk()
    }

    ghost predicate ColdOk()
      reads this
    {
      ColdFreed(split, coldFrees, frees)
    }

    function Snap(): Snapshot
      reads this
    {
      Snapshot(rc, frees, ever, split, coldFrees, lists)
    }

    constructor ()
      ensures Valid() && lists == [] && rc == []
    {
      rc, frees, ever, lists, split, coldFrees := [], [], [], [], [], [];
    }

    /** `rc_alloc`, and `rc_attach_cold` for a split object: a new value starts at zero. */
    method NewValue(cold: bool) returns (v: nat)
      requires Valid()
      modifies this`rc, this`frees, this`ever, this`split, this`coldFrees
      ensures Valid() && v == |old(rc)| && rc == old(rc) + [0] && frees == old(frees) + [0] && ever == old(ever) + [false]
      ensures split == old(split) + [cold] && coldFrees == old(coldFrees) + [0]
    {
      v := |rc|;
      NothingHolds(lists, v);
      rc, frees, ever := rc + [0], frees + [0], ever + [false];
      split, coldFrees := split + [cold], coldFrees + [0];
    }

    method NewList() returns (l: nat)
      requires Valid()
      modifies this`lists
      ensures Valid() && l == |old(lists)| && lists == old(lists) + [RtList([], [], true)]
    {
      l := |lists|;
      forall v: nat ensures OccAll(lists + [RtList([], [], true)], v) == OccAll(lists, v) {
        OccAppend(lists, RtList([], [], true), v);
      }
      lists := lists + [RtList([], [], true)];
    }

    /** `rc_retain`, for a value about to be put into a place: `to` is the lists with it there. */
    method Retain(r: Ref, ghost from: seq<RtList>, ghost to: seq<RtList>)
      requires Sound(rc, frees, ever, from)
      requires r.To? ==> r.id < |rc| && frees[r.id] == 0 && OneLess(to, from, r.id)
      requires r.Null? ==> SameOcc(to, from)
      requires ValidRefs(to, |rc|)
      modifies this`rc, this`ever
      ensures Sound(rc, frees, ever, to) && ever == Marked(old(ever), r)
    {
      if r.Null? {
        return;
      }
      rc := rc[r.id := rc[r.id] + 1];
      ever := ever[r.id := true];
    }

    /** `rc_release`, for a value leaving a place: `to` is the lists without it there. The early
        return of the source, for a count already zero, is never taken. */
    method ReleaseValue(r: Ref, ghost from: seq<RtList>, ghost to: seq<RtList>)
      requires Sound(rc, frees, ever, from) && ColdOk()
      requires r.To? ==> r.id < |rc| && OneLess(from, to, r.id)
      requires r.Null? ==> SameOcc(from, to)
      requires ValidRefs(to, |rc|)
      modifies this`rc, this`frees, this`coldFrees
      ensures Sound(rc, frees, ever, to) && ColdOk()
      ensures |rc| == |old(rc)| && |frees| == |old(frees)|
      ensures forall v :: 0 <= v < |frees| ==> frees[v] >= old(frees)[v]
    {
      if r.Null? {
        return;
      }
      assert rc[r.id] > 0;
      if rc[r.id] == 0 {
        return;
      }
      rc := rc[r.id := rc[r.id] - 1];
      if rc[r.id] == 0 {
        // the cold block first: its address is inside the value
        if split[r.id] {
          coldFrees := coldFrees[r.id := coldFrees[r.id] + 1];
        }
        frees := frees[r.id := frees[r.id] + 1];
      }
    }

    ghost predicate Usable(r: Ref)
      reads this
    {
      r.To? ==> r.id < |rc| == |frees| && frees[r.id] == 0
    }

    /** `list_push`. */
    method Push(l: nat, r: Ref)
      requires Valid() && l < |lists| && lists[l].alive && Usable(r)
      modifies this`rc, this`ever, this`lists
      ensures Valid() && lists == old(lists)[l := old(lists)[l].(data := old(lists)[l].data + [r])]
      ensures ever == Marked(old(ever), r)
    {
      var d := lists[l].data;
      assert d[..|d|] + [r] + d[|d|..] == d + [r];
      InsertAt(l, |d|, r);
    }

    /** `list_insert`: the retain and push of `list_push`, and the new last element moved to `i`. */
    method Insert(l: nat, i: int, r: Ref) returns (ok: bool)
      requires Valid() && l < |lists| && lists[l].alive && Usable(r)
      modifies this`rc, this`ever, this`lists
      ensures ok <==> 0 <= i <= |old(lists)[l].data|
      ensures !ok ==> rc == old(rc) && lists == old(lists) && ever == old(ever)
      ensures ok ==> Valid() && lists == old(lists)[l := old(lists)[l].(data := old(lists)[l].data[..i] + [r] + old(lists)[l].data[i..])]
      ensures ok ==> ever == Marked(old(ever), r)
    {
      if i < 0 || i > |lists[l].data| {
        return false;
      }
      InsertAt(l, i, r);
      ok := true;
    }

    method InsertAt(l: nat, i: nat, r: Ref)
      requires Valid() && l < |lists| && lists[l].alive && Usable(r) && i <= |lists[l].data|
      modifies this`rc, this`ever, this`lists
      ensures Valid() && lists == old(lists)[l := old(lists)[l].(data := old(lists)[l].data[..i] + [r] + old(lists)[l].data[i..])]
      ensures ever == Marked(old(ever), r)
    {
      var x := lists[l].(data := lists[l].data[..i] + [r] + lists[l].data[i..]);
      InsertOcc(lists, l, i, r, |rc|);
      Retain(r, lists, lists[l := x]);
      lists := lists[l := x];
    }

    /** `list_set` under RC: the new value is retained before the old one is released, so that
        storing a value over itself never frees it. */
    method Set(l: nat, i: int, r: Ref) returns (ok: bool)
      requires Valid() && l < |lists| && lists[l].alive && Usable(r)
      modifies this`rc, this`frees, this`coldFrees, this`ever, this`lists
      ensures ok <==> 0 <= i < |old(lists)[l].data|
      ensures !ok ==> rc == old(rc) && frees == old(frees) && coldFrees == old(coldFrees) && lists == old(lists) && ever == old(ever)
      ensures ok ==> Valid() && lists == old(lists)[l := old(lists)[l].(data := old(lists)[l].data[i := r])]
      ensures ok && r.To? ==> r.id < |frees| && frees[r.id] == 0
      ensures ok ==> ever == Marked(old(ever), r) && MarksKept(old(ever), old(frees), ever, frees)
    {
      if i < 0 || i >= |lists[l].data| {
        return false;
      }
      var x := lists[l].(data := lists[l].data[i := r]);
      // between the two count updates it is as if the new value were in the list as well
      ghost var mid := lists[l := lists[l].(data := lists[l].data + [r])];
      SetOcc(lists, l, i, r);
      SetRefs(lists, l, i, r, |rc|);
      Retain(r, lists, mid);
      ReleaseValue(lists[l].data[i], mid, lists[l := x]);
      lists := lists[l := x];
      ok := true;
      if r.To? {
        StoredIsHeld(lists, l, i, r.id);
      }
    }

    /** `list_swap`. */
    method Swap(l: nat, i: int, j: int) returns (ok: bool)
      requires Valid() && l < |lists| && lists[l].alive
      modifies this`lists
      ensures ok <==> 0 <= i < |old(lists)[l].data| && 0 <= j < |old(lists)[l].data|
      ensures Valid()
      ensures lists == if ok then old(lists)[l := old(lists)[l].(data := old(lists)[l].data[i := old(lists)[l].data[j]][j := old(lists)[l].data[i]])]
                       else old(lists)
    {
      var d := lists[l].data;
      if i < 0 || i >= |d| || j < 0 || j >= |d| {
        return false;
      }
      var x := lists[l].(data := d[i := d[j]][j := d[i]]);
      SwapOcc(lists, l, i, j, |rc|);
      lists := lists[l := x];
      ok := true;
    }

    /** `list_discard_slot` on the last slot of what is left: released at once, or parked. `eff` is
        the list as the counts see it, its slots from `i` on already gone. */
    method Discard(l: nat, i: nat, now: bool, ghost eff: RtList)
      requires l < |lists| && lists[l].alive && i < |lists[l].data|
      requires eff == lists[l].(data := lists[l].data[..i + 1])
      requires Sound(rc, frees, ever, lists[l := eff]) && ColdOk()
      modifies this`rc, this`frees, this`coldFrees, this`lists
      ensures MarksKept(old(ever), old(frees), ever, frees)
      ensures lists == old(lists)[l := old(lists)[l].(grave := old(lists)[l].grave + Buried(old(lists)[l].data[i], now))]
      ensures Sound(rc, frees, ever, lists[l := lists[l].(data := lists[l].data[..i])]) && ColdOk()
    {
      var owned := lists[l].data[i];
      ghost var from := lists[l := eff];
      assert from[l] == eff && RefsOk(eff, |rc|) && eff.data[i] == owned;
      assert forall k :: 0 <= k < |lists| && k != l ==> from[k] == lists[k];
      ghost var less := eff.(data := lists[l].data[..i]);
      DiscardOcc(lists, l, i, eff);
      assert lists[l].grave + [] == lists[l].grave && lists[l := lists[l]] == lists;
      if owned.Null? {
        return;
      }
      if now {
        ReleaseValue(owned, from, lists[l := less]);
      } else {
        lists := lists[l := lists[l].(grave := lists[l].grave + [owned.id])];
        assert lists[l := lists[l].(data := lists[l].data[..i])] == old(lists)[l := less.(grave := eff.grave + [owned.id])];
      }
    }

    /** `list_truncate`: a negative length empties the list, one at or past the end changes nothing;
        what goes is discarded from the last slot down. */
    method Truncate(l: nat, n: int, now: bool)
      requires Valid() && l < |lists| && lists[l].alive
      modifies this`rc, this`frees, this`coldFrees, this`lists
      ensures MarksKept(old(ever), old(frees), ever, frees)
      ensures Valid()
      ensures var x := old(lists)[l];
              var keep := if n < 0 then 0 else if n > |x.data| then |x.data| else n;
              lists == old(lists)[l := RtList(x.data[..keep], x.grave + AllBuried(x.data, keep, now), true)]
    {
      var keep := if n < 0 then 0 else n;
      var d := lists[l].data;
      if keep >= |d| {
        assert d[..|d|] == d && AllBuried(d, |d|, now) == [] && lists[l].grave + [] == lists[l].grave;
        return;
      }
      assert d[..|d|] == d && lists[l := lists[l].(data := d[..|d|])] == lists;
      DiscardDown(l, keep, now);
      lists := lists[l := lists[l].(data := d[..keep])];
    }

    method DiscardDown(l: nat, keep: nat, now: bool)
      requires l < |lists| && lists[l].alive && keep <= |lists[l].data|
      requires Sound(rc, frees, ever, lists[l := lists[l].(data := lists[l].data[..|lists[l].data|])]) && ColdOk()
      modifies this`rc, this`frees, this`coldFrees, this`lists
      ensures MarksKept(old(ever), old(frees), ever, frees)
      ensures var x := old(lists)[l];
              lists == old(lists)[l := x.(grave := x.grave + AllBuried(x.data, keep, now))]
      ensures Sound(rc, frees, ever, lists[l := lists[l].(data := lists[l].data[..keep])]) && ColdOk()
    {
      ghost var x, was := lists[l], lists;
      var i := |lists[l].data|;
      assert x.grave + [] == x.grave && was[l := x] == was;
      while i > keep
        invariant keep <= i <= |x.data|
        invariant lists == was[l := x.(grave := x.grave + AllBuried(x.data, i, now))]
        invariant Sound(rc, frees, ever, lists[l := lists[l].(data := lists[l].data[..i])]) && ColdOk()
        invariant MarksKept(old(ever), old(frees), ever, frees)
      {
        i := i - 1;
        Discard(l, i, now, lists[l].(data := lists[l].data[..i + 1]));
        BuriedMore(was, l, x, i, now);
      }
    }

    /** `list_remove_at`. */
    method RemoveAt(l: nat, i: int, now: bool) returns (ok: bool)
      requires Valid() && l < |lists| && lists[l].alive
      modifies this`rc, this`frees, this`coldFrees, this`lists
      ensures MarksKept(old(ever), old(frees), ever, frees)
      ensures ok <==> 0 <= i < |old(lists)[l].data|
      ensures !ok ==> rc == old(rc) && frees == old(frees) && coldFrees == old(coldFrees) && lists == old(lists)
      ensures ok ==> Valid() && |lists| == |old(lists)| && lists == old(lists)[l := lists[l]] && lists[l].alive
      ensures ok ==> lists[l].data == old(lists)[l].data[..i] + old(lists)[l].data[i + 1..]
      ensures ok ==> lists[l].grave == old(lists)[l].grave + if !now && old(lists)[l].data[i].To? then [old(lists)[l].data[i].id] else []
    {
      if i < 0 || i >= |lists[l].data| {
        return false;
      }
      var owned := lists[l].data[i];
      var x := lists[l].(data := lists[l].data[..i] + lists[l].data[i + 1..]);
      RemoveOcc(lists, l, i, x);
      RemoveRefs(lists, l, i, |rc|);
      if owned.To? && !now {
        lists := lists[l := x.(grave := x.grave + [owned.id])];
      } else {
        ReleaseValue(owned, lists, lists[l := x]);
        lists := lists[l := x];
      }
      ok := true;
    }

    /** `list_release`: the slots from the last to the first, then the grave from the last to the
        first, then the list itself. */
    method ReleaseList(l: nat)
      requires Valid() && l < |lists| && lists[l].alive
      modifies this`rc, this`frees, this`coldFrees, this`lists
      ensures MarksKept(old(ever), old(frees), ever, frees)
      ensures Valid() && lists == old(lists)[l := RtList([], [], false)]
    {
      var d, g := lists[l].data, lists[l].grave;
      var i := |d|;
      assert d[..i] == d;
      assert lists[l := RtList(d[..i], g, true)] == lists;
      while i > 0
        invariant 0 <= i <= |d| && lists == old(lists) && MarksKept(old(ever), old(frees), ever, frees)
        invariant Sound(rc, frees, ever, lists[l := RtList(d[..i], g, true)]) && ColdOk()
      {
        i := i - 1;
        ghost var from, to := lists[l := RtList(d[..i + 1], g, true)], lists[l := RtList(d[..i], g, true)];
        ReleaseSlotOcc(lists, l, d, g, i);
        ReleaseValue(d[i], from, to);
      }
      i := |g|;
      assert g[..i] == g && d[..0] == [];
      while i > 0
        invariant 0 <= i <= |g| && lists == old(lists) && MarksKept(old(ever), old(frees), ever, frees)
        invariant Sound(rc, frees, ever, lists[l := RtList([], g[..i], true)]) && ColdOk()
      {
        i := i - 1;
        ghost var from, to := lists[l := RtList([], g[..i + 1], true)], lists[l := RtList([], g[..i], true)];
        ReleaseGraveOcc(lists, l, g, i);
        ReleaseValue(To(g[i]), from, to);
      }
      assert g[..0] == [];
      ghost var empty, gone := lists[l := RtList([], [], true)], lists[l := RtList([], [], false)];
      forall w: nat ensures OccAll(gone, w) == OccAll(empty, w) {
        OccSet(lists, l, RtList([], [], false), w);
        OccSet(lists, l, RtList([], [], true), w);
      }
      lists := lists[l := RtList([], [], false)];
    }
  }

  // ----- whole runs -----

  datatype Op =
    | MakeValue(cold: bool)
    | MakeList
    | DoPush(l: nat, r: Ref)
    | DoInsert(l: nat, i: int, r: Ref)
    | DoSet(l: nat, i: int, r: Ref)
    | DoSwap(l: nat, i: int, j: int)
    | DoRemoveAt(l: nat, i: int, now: bool)
    | DoTruncate(l: nat, n: int, now: bool)
    | DoRelease(l: nat)

  /** The state of a heap. */
  datatype Snapshot = Snapshot(rc: seq<nat>, frees: seq<nat>, ever: seq<bool>, split: seq<bool>, coldFrees: seq<nat>, lists: seq<RtList>)
  {
    ghost predicate Settled() {
      Sound(rc, frees, ever, lists) && ColdFreed(split, coldFrees, frees)
    }

    /** A program cannot use a list that is gone, nor put a value that is gone into one. */
    predicate Skips(op: Op) {
      !op.MakeValue? && !op.MakeList?
      && (op.l >= |lists| || !lists[op.l].alive
          || ((op.DoPush? || op.DoInsert? || op.DoSet?) && op.r.To? && !(op.r.id < |frees| && frees[op.r.id] == 0)))
    }
  }

  /** What an operation leaves of the list it is for; one with a bad index leaves it as it was. */
  function NextList(x: RtList, op: Op): RtList
    requires !op.MakeValue? && !op.MakeList?
  {
    var d := x.data;
    match op
    case DoPush(_, r) => x.(data := d + [r])
    case DoInsert(_, i, r) => if 0 <= i <= |d| then x.(data := d[..i] + [r] + d[i..]) else x
    case DoSet(_, i, r) => if 0 <= i < |d| then x.(data := d[i := r]) else x
    case DoSwap(_, i, j) => if 0 <= i < |d| && 0 <= j < |d| then x.(data := d[i := d[j]][j := d[i]]) else x
    case DoRemoveAt(_, i, now) => if 0 <= i < |d| then RtList(d[..i] + d[i + 1..], x.grave + Buried(d[i], now), x.alive) else x
    case DoTruncate(_, n, now) =>
      var keep := if n < 0 then 0 else if n > |d| then |d| else n;
      RtList(d[..keep], x.grave + AllBuried(d, keep, now), x.alive)
    case DoRelease(_) => RtList([], [], false)
  }

  /** The marks after it, for a list of `n` elements. */
  function NextEver(ever: seq<bool>, n: nat, op: Op): seq<bool> {
    match op
    case DoPush(_, r) => Marked(ever, r)
    case DoInsert(_, i, r) => if 0 <= i <= n then Marked(ever, r) else ever
    case DoSet(_, i, r) => if 0 <= i < n then Marked(ever, r) else ever
    case _ => ever
  }

  /** What one operation does. The counts and the frees of `b` are what its lists say they are. */
  ghost predicate Did(a: Snapshot, op: Op, b: Snapshot) {
    if a.Skips(op) then b == a
    else if op.MakeValue? then
      b == a.(rc := a.rc + [0], frees := a.frees + [0], ever := a.ever + [false], split := a.split + [op.cold], coldFrees := a.coldFrees + [0])
    else if op.MakeList? then b == a.(lists := a.lists + [RtList([], [], true)])
    else
      && b.lists == a.lists[op.l := NextList(a.lists[op.l], op)] && b.split == a.split
      && b.ever == NextEver(a.ever, |a.lists[op.l].data|, op)
  }

  ghost predicate DidAt(trace: seq<Snapshot>, ops: seq<Op>, i: nat) {
    i < |ops| && i + 1 < |trace| && Did(trace[i], ops[i], trace[i + 1])
  }

  ghost predicate SettledAt(trace: seq<Snapshot>, i: nat) {
    i < |trace| && trace[i].Settled()
  }

  /** The states of a run: each operation in turn has done what it does. */
  ghost predicate IsRun(trace: seq<Snapshot>, ops: seq<Op>, n: nat) {
    && |trace| == n + 1
    && (forall i: nat {:trigger SettledAt(trace, i)} :: i <= n ==> SettledAt(trace, i))
    && forall i: nat {:trigger DidAt(trace, ops, i)} :: i < n ==> DidAt(trace, ops, i)
  }

  lemma RunMore(trace: seq<Snapshot>, ops: seq<Op>, n: nat, next: Snapshot)
    requires IsRun(trace, ops, n) && n < |ops| && Did(trace[n], ops[n], next) && next.Settled()
    ensures IsRun(trace + [next], ops, n + 1)
  {
    forall i: nat | i < n + 1 ensures DidAt(trace + [next], ops, i) {
      if i < n {
        assert DidAt(trace, ops, i);
      }
    }
    forall i: nat | i <= n + 1 ensures SettledAt(trace + [next], i) {
      if i <= n {
        assert SettledAt(trace, i);
      }
    }
  }

  /** Over every run, across every list, in every state: a value's count is the number of slots and graves
      that hold it, and it has been freed, once, exactly when some list held it and none does any more; a
      value ever held is never forgotten. Steps a program cannot take (using a list or a value that is
      gone) are skipped. */
  method Run(h: Heap, ops: seq<Op>) returns (ghost trace: seq<Snapshot>)
    requires h.Valid()
    modifies h
    ensures h.Valid() && IsRun(trace, ops, |ops|) && trace[0] == old(h.Snap()) && trace[|ops|] == h.Snap()
    ensures forall v :: 0 <= v < |h.rc| ==> h.rc[v] == OccAll(h.lists, v)
    ensures forall v :: 0 <= v < |h.rc| ==> (h.frees[v] == 1 <==> h.ever[v] && OccAll(h.lists, v) == 0) && h.frees[v] <= 1
    ensures forall v :: 0 <= v < |h.rc| ==> h.coldFrees[v] == if h.split[v] then h.frees[v] else 0
    ensures MarksKept(old(h.ever), old(h.frees), h.ever, h.frees)
  {
    trace := [h.Snap()];
    assert SettledAt(trace, 0);
    var n := 0;
    while n < |ops|
      invariant n <= |ops| && h.Valid() && MarksKept(old(h.ever), old(h.frees), h.ever, h.frees)
      invariant IsRun(trace, ops, n) && trace[0] == old(h.Snap()) && trace[n] == h.Snap()
    {
      Perform(h, ops[n]);
      RunMore(trace, ops, n, h.Snap());
      trace := trace + [h.Snap()];
      n := n + 1;
    }
  }

  method Perform(h: Heap, op: Op)
    requires h.Valid()
    modifies h
    ensures h.Valid() && MarksKept(old(h.ever), old(h.frees), h.ever, h.frees)
    ensures Did(old(h.Snap()), op, h.Snap())
  {
    if h.Snap().Skips(op) {
      return;
    }
    if op.MakeValue? {
      var _ := h.NewValue(op.cold);
    } else if op.MakeList? {
      var _ := h.NewList();
    } else if op.DoPush? || op.DoInsert? || op.DoSet? {
      PerformStore(h, op);
    } else {
      PerformRemove(h, op);
    }
  }

  method PerformStore(h: Heap, op: Op)
    requires h.Valid() && (op.DoPush? || op.DoInsert? || op.DoSet?) && !h.Snap().Skips(op)
    modifies h`rc, h`frees, h`coldFrees, h`ever, h`lists
    ensures h.Valid() && MarksKept(old(h.ever), old(h.frees), h.ever, h.frees)
    ensures Did(old(h.Snap()), op, h.Snap())
  {
    assert h.lists[op.l := h.lists[op.l]] == h.lists;
    match op
    case DoPush(l, r) => h.Push(l, r);
    case DoInsert(l, i, r) => var _ := h.Insert(l, i, r);
    case DoSet(l, i, r) => var _ := h.Set(l, i, r);
  }

  method PerformRemove(h: Heap, op: Op)
    requires h.Valid() && (op.DoSwap? || op.DoRemoveAt? || op.DoTruncate? || op.DoRelease?) && !h.Snap().Skips(op)
    modifies h`rc, h`frees, h`coldFrees, h`lists
    ensures h.Valid() && MarksKept(old(h.ever), old(h.frees), h.ever, h.frees)
    ensures Did(old(h.Snap()), op, h.Snap())
  {
    assert h.lists[op.l := h.lists[op.l]] == h.lists;
    match op
    case DoSwap(l, i, j) => var _ := h.Swap(l, i, j);
    case DoRemoveAt(l, i, now) => var _ := h.RemoveAt(l, i, now);
    case DoTruncate(l, n, now) => h.Truncate(l, n, now);
    case DoRelease(l) => h.ReleaseList(l);
  }

  // ----- the counting behind each step -----

  lemma {:induction false} NothingHolds(lists: seq<RtList>, v: nat)
    requires ValidRefs(lists, v)
    ensures OccAll(lists, v) == 0
  {
    if lists != [] {
      assert To(v) !in lists[0].data && v !in lists[0].grave;
      assert forall l :: 0 <= l < |lists[1..]| ==> lists[1..][l] == lists[l + 1];
      NothingHolds(lists[1..], v);
    }
  }

  lemma RefsSet(lists: seq<RtList>, l: nat, x: RtList, n: nat)
    requires l < |lists| && ValidRefs(lists, n) && RefsOk(x, n)
    ensures ValidRefs(lists[l := x], n)
  {
  }

  lemma RefsInsert(x: RtList, i: nat, r: Ref, n: nat)
    requires i <= |x.data| && RefsOk(x, n) && (r.To? ==> r.id < n)
    ensures RefsOk(x.(data := x.data[..i] + [r] + x.data[i..]), n)
  {
  }

  lemma RefsRemove(x: RtList, i: nat, n: nat)
    requires i < |x.data| && RefsOk(x, n)
    ensures RefsOk(x.(data := x.data[..i] + x.data[i + 1..]), n)
  {
  }

  lemma InsertOcc(lists: seq<RtList>, l: nat, i: nat, r: Ref, n: nat)
    requires l < |lists| && lists[l].alive && i <= |lists[l].data| && ValidRefs(lists, n) && (r.To? ==> r.id < n)
    ensures var to := lists[l := lists[l].(data := lists[l].data[..i] + [r] + lists[l].data[i..])];
            (r.To? ==> OneLess(to, lists, r.id)) && (r.Null? ==> SameOcc(to, lists)) && ValidRefs(to, n)
  {
    var x := lists[l].(data := lists[l].data[..i] + [r] + lists[l].data[i..]);
    forall w: nat ensures OccAll(lists[l := x], w) == OccAll(lists, w) + if r == To(w) then 1 else 0 {
      InsertSlot(lists[l], i, r, w);
      OccSet(lists, l, x, w);
    }
    RefsInsert(lists[l], i, r, n);
    RefsSet(lists, l, x, n);
  }

  lemma SetRefs(lists: seq<RtList>, l: nat, i: nat, r: Ref, n: nat)
    requires l < |lists| && i < |lists[l].data| && ValidRefs(lists, n) && (r.To? ==> r.id < n)
    ensures ValidRefs(lists[l := lists[l].(data := lists[l].data + [r])], n)
    ensures ValidRefs(lists[l := lists[l].(data := lists[l].data[i := r])], n)
  {
    RefsSet(lists, l, lists[l].(data := lists[l].data + [r]), n);
    RefsSet(lists, l, lists[l].(data := lists[l].data[i := r]), n);
  }

  lemma SetOcc(lists: seq<RtList>, l: nat, i: nat, r: Ref)
    requires l < |lists| && lists[l].alive && i < |lists[l].data|
    ensures var mid := lists[l := lists[l].(data := lists[l].data + [r])];
            var to := lists[l := lists[l].(data := lists[l].data[i := r])];
            && (r.To? ==> OneLess(mid, lists, r.id)) && (r.Null? ==> SameOcc(mid, lists))
            && (lists[l].data[i].To? ==> OneLess(mid, to, lists[l].data[i].id)) && (lists[l].data[i].Null? ==> SameOcc(mid, to))
  {
    var d := lists[l].data;
    var y, x := lists[l].(data := d + [r]), lists[l].(data := d[i := r]);
    assert multiset(d[i := r]) == multiset(d) - multiset{d[i]} + multiset{r};
    forall w: nat
      ensures OccAll(lists[l := y], w) == OccAll(lists, w) + if r == To(w) then 1 else 0
      ensures OccAll(lists[l := y], w) == OccAll(lists[l := x], w) + if d[i] == To(w) then 1 else 0
    {
      OccSet(lists, l, y, w);
      OccSet(lists, l, x, w);
    }
  }

  lemma SwapOcc(lists: seq<RtList>, l: nat, i: nat, j: nat, n: nat)
    requires l < |lists| && i < |lists[l].data| && j < |lists[l].data| && ValidRefs(lists, n)
    ensures var d := lists[l].data;
            var to := lists[l := lists[l].(data := d[i := d[j]][j := d[i]])];
            SameOcc(lists, to) && ValidRefs(to, n)
  {
    var d := lists[l].data;
    var x := lists[l].(data := d[i := d[j]][j := d[i]]);
    assert multiset(x.data) == multiset(d);
    SetSame(lists, l, x);
    RefsSet(lists, l, x, n);
  }

  lemma StoredIsHeld(lists: seq<RtList>, l: nat, i: nat, v: nat)
    requires l < |lists| && lists[l].alive && i < |lists[l].data| && lists[l].data[i] == To(v)
    ensures OccAll(lists, v) > 0
  {
    OccSet(lists, l, RtList([], [], false), v);
    assert To(v) in multiset(lists[l].data);
  }

  lemma DiscardOcc(lists: seq<RtList>, l: nat, i: nat, eff: RtList)
    requires l < |lists| && lists[l].alive && i < |lists[l].data| && eff == lists[l].(data := lists[l].data[..i + 1])
    ensures var from, less := lists[l := eff], eff.(data := lists[l].data[..i]);
            var owned := lists[l].data[i];
            && (owned.Null? ==> SameOcc(from, lists[l := less]))
            && (owned.To? ==> OneLess(from, lists[l := less], owned.id))
            && (owned.To? ==> SameOcc(from, lists[l := less.(grave := eff.grave + [owned.id])]))
  {
    var from, less, owned := lists[l := eff], eff.(data := lists[l].data[..i]), lists[l].data[i];
    assert eff.data == less.data + [owned];
    forall w: nat
      ensures OccAll(from, w) == OccAll(lists[l := less], w) + if owned == To(w) then 1 else 0
      ensures owned.To? ==> OccAll(from, w) == OccAll(lists[l := less.(grave := eff.grave + [owned.id])], w)
    {
      OccSet(lists, l, eff, w);
      OccSet(lists, l, less, w);
      if owned.To? {
        OccSet(lists, l, less.(grave := eff.grave + [owned.id]), w);
      }
    }
  }

  lemma RemoveRefs(lists: seq<RtList>, l: nat, i: nat, n: nat)
    requires l < |lists| && i < |lists[l].data| && ValidRefs(lists, n)
    ensures var x := lists[l].(data := lists[l].data[..i] + lists[l].data[i + 1..]);
            ValidRefs(lists[l := x], n)
            && (lists[l].data[i].To? ==> ValidRefs(lists[l := x.(grave := x.grave + [lists[l].data[i].id])], n))
  {
    var x := lists[l].(data := lists[l].data[..i] + lists[l].data[i + 1..]);
    RefsRemove(lists[l], i, n);
    RefsSet(lists, l, x, n);
    if lists[l].data[i].To? {
      RefsSet(lists, l, x.(grave := x.grave + [lists[l].data[i].id]), n);
    }
  }

  lemma RemoveOcc(lists: seq<RtList>, l: nat, i: nat, x: RtList)
    requires l < |lists| && lists[l].alive && i < |lists[l].data|
    requires x == lists[l].(data := lists[l].data[..i] + lists[l].data[i + 1..])
    ensures lists[l].data[i].Null? ==> SameOcc(lists, lists[l := x])
    ensures lists[l].data[i].To? ==> OneLess(lists, lists[l := x], lists[l].data[i].id)
    ensures lists[l].data[i].To? ==> SameOcc(lists, lists[l := x.(grave := x.grave + [lists[l].data[i].id])])
  {
    forall w: nat
      ensures OccAll(lists, w) == OccAll(lists[l := x], w) + if lists[l].data[i] == To(w) then 1 else 0
      ensures lists[l].data[i].To? ==> OccAll(lists, w) == OccAll(lists[l := x.(grave := x.grave + [lists[l].data[i].id])], w)
    {
      DropSlot(lists[l], i, w);
      OccSet(lists, l, x, w);
      if lists[l].data[i].To? {
        ParkValue(x, lists[l].data[i].id, w);
        OccSet(lists, l, x.(grave := x.grave + [lists[l].data[i].id]), w);
      }
    }
  }

  lemma ReleaseSlotOcc(lists: seq<RtList>, l: nat, d: seq<Ref>, g: seq<nat>, i: nat)
    requires l < |lists| && i < |d|
    ensures var from, to := lists[l := RtList(d[..i + 1], g, true)], lists[l := RtList(d[..i], g, true)];
            (d[i].To? ==> OneLess(from, to, d[i].id)) && (d[i].Null? ==> SameOcc(from, to))
  {
    assert d[..i + 1] == d[..i] + [d[i]];
    var from, to := lists[l := RtList(d[..i + 1], g, true)], lists[l := RtList(d[..i], g, true)];
    forall w: nat ensures OccAll(from, w) == OccAll(to, w) + if d[i] == To(w) then 1 else 0 {
      OccSet(lists, l, RtList(d[..i + 1], g, true), w);
      OccSet(lists, l, RtList(d[..i], g, true), w);
    }
  }

  lemma ReleaseGraveOcc(lists: seq<RtList>, l: nat, g: seq<nat>, i: nat)
    requires l < |lists| && i < |g|
    ensures OneLess(lists[l := RtList([], g[..i + 1], true)], lists[l := RtList([], g[..i], true)], g[i])
  {
    assert g[..i + 1] == g[..i] + [g[i]];
    var from, to := lists[l := RtList([], g[..i + 1], true)], lists[l := RtList([], g[..i], true)];
    forall w: nat ensures OccAll(from, w) == OccAll(to, w) + if g[i] == w then 1 else 0 {
      OccSet(lists, l, RtList([], g[..i + 1], true), w);
      OccSet(lists, l, RtList([], g[..i], true), w);
    }
  }
}
