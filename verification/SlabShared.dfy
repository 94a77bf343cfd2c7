/** The steps of the slab allocator that go through a class's shared lists or its spans. */
module SlabShared {
  import opened SlabGeometry
  import opened SlabState
  import opened SlabSteps

  // ----- an empty cache takes up to 64 of a thread's leftovers -----

  function LooseCore(core: Core, t: nat, c: nat, first: Ptr, last: Ptr, n: nat): Core
    requires c < |core.globals| && 0 < n <= core.globals[c].looseN
  {
    var g, b := core.globals[c], BinAt(core, t, c);
    var w0 := core.w0[last := Null];
    SetBin(SetGlobal(core.(w0 := w0), c, g.(loose := At(core.w0, last), looseN := g.looseN - n)),
           t, c, b.(head := At(w0, first), count := n - 1))
  }

  ghost function LooseView(v: View, t: nat, c: nat, n: nat): View
    requires 0 < n <= |ListAt(v, Loose(c))|
  {
    var s := ListAt(v, Loose(c));
    v.(place := PlaceAll(v.place, s[..n], In(Cache(t, c)))[s[0] := Live],
       lists := v.lists[Loose(c) := s[n..]][Cache(t, c) := s[1..n]])
  }

  ghost predicate LooseFront(core: Core, v: View, t: nat, c: nat, n: nat) {
    && c < |core.globals| == |v.tops| && 0 < n <= |ListAt(v, Loose(c))|
    && ListOk(core, v, Loose(c)) && ListAt(v, Cache(t, c)) == []
    && core.globals[c].looseN == |ListAt(v, Loose(c))|
  }

  lemma LooseTransfers(core: Core, v: View, t: nat, c: nat, n: nat)
    requires LooseFront(core, v, t, c, n)
    ensures var s := ListAt(v, Loose(c));
            Transferred(core, v, LooseCore(core, t, c, s[0], s[n - 1], n), LooseView(v, t, c, n), Loose(c), Cache(t, c), n, true)
  {
    LooseBlocks(core, v, t, c, n);
    LooseLinks(core, v, t, c, n);
  }

  lemma LooseLinks(core: Core, v: View, t: nat, c: nat, n: nat)
    requires LooseFront(core, v, t, c, n)
    ensures var s := ListAt(v, Loose(c));
            LinksMoved(core, v, LooseCore(core, t, c, s[0], s[n - 1], n), LooseView(v, t, c, n), Loose(c), Cache(t, c), n, true)
  {
  }

  lemma LooseBlocks(core: Core, v: View, t: nat, c: nat, n: nat)
    requires LooseFront(core, v, t, c, n)
    ensures BlocksMoved(v, LooseView(v, t, c, n), Loose(c), Cache(t, c), n, true)
  {
  }

  lemma LooseElsewhere(core: Core, v: View, t: nat, c: nat, n: nat)
    requires LooseFront(core, v, t, c, n) && |core.globals| == CLASSES && GlobalOk(core, v, c)
    ensures var s := ListAt(v, Loose(c));
            var core', v' := LooseCore(core, t, c, s[0], s[n - 1], n), LooseView(v, t, c, n);
            OnlyHere(core, v, core', v', t, c) && CountOk(core', v', t, c) && GlobalOk(core', v', c)
  {
  }

  lemma LooseOk(core: Core, v: View, flushing: set<(nat, nat)>, t: nat, c: nat, n: nat)
    requires Ok(core, v, flushing) && c < CLASSES && LooseFront(core, v, t, c, n)
    ensures var s := ListAt(v, Loose(c)); Ok(LooseCore(core, t, c, s[0], s[n - 1], n), LooseView(v, t, c, n), flushing)
  {
    var s := ListAt(v, Loose(c));
    var core', v' := LooseCore(core, t, c, s[0], s[n - 1], n), LooseView(v, t, c, n);
    assert GlobalOk(core, v, c);
    LooseTransfers(core, v, t, c, n);
    LooseElsewhere(core, v, t, c, n);
    TransferOk(core, v, core', v', Loose(c), Cache(t, c), n, true, flushing, t, c);
  }

  // ----- a full cache gives 64 blocks away as one batch -----

  function SpillCore(core: Core, t: nat, c: nat, last: Ptr): Core
    requires c < |core.globals| && BinAt(core, t, c).count >= BATCH
  {
    var g, b := core.globals[c], BinAt(core, t, c);
    SetBin(SetGlobal(core.(w0 := core.w0[last := Null], w1 := core.w1[b.head := g.batches]), c, g.(batches := b.head)),
           t, c, b.(head := At(core.w0, last), count := b.count - BATCH))
  }

  ghost function SpillView(v: View, t: nat, c: nat): View
    requires c < |v.tops| && |ListAt(v, Cache(t, c))| >= BATCH
  {
    var s, k := ListAt(v, Cache(t, c)), |v.tops[c]|;
    View(PlaceAll(v.place, s[..BATCH], In(Batch(c, k))),
         v.lists[Cache(t, c) := s[BATCH..]][Batch(c, k) := s[..BATCH]],
         v.tops[c := v.tops[c] + [s[0]]])
  }

  ghost predicate SpillFront(core: Core, v: View, t: nat, c: nat) {
    && c < |core.globals| == |v.tops| && |ListAt(v, Cache(t, c))| >= BATCH
    && ListOk(core, v, Cache(t, c)) && ListAt(v, Batch(c, |v.tops[c]|)) == []
    && BinAt(core, t, c).count == |ListAt(v, Cache(t, c))|
  }

  lemma SpillTransfers(core: Core, v: View, t: nat, c: nat)
    requires SpillFront(core, v, t, c)
    ensures Transferred(core, v, SpillCore(core, t, c, ListAt(v, Cache(t, c))[BATCH - 1]), SpillView(v, t, c),
                        Cache(t, c), Batch(c, |v.tops[c]|), BATCH, false)
  {
    SpillBlocks(core, v, t, c);
    SpillLinks(core, v, t, c);
  }

  lemma SpillBlocks(core: Core, v: View, t: nat, c: nat)
    requires SpillFront(core, v, t, c)
    ensures BlocksMoved(v, SpillView(v, t, c), Cache(t, c), Batch(c, |v.tops[c]|), BATCH, false)
  {
  }

  lemma SpillLinks(core: Core, v: View, t: nat, c: nat)
    requires SpillFront(core, v, t, c)
    ensures LinksMoved(core, v, SpillCore(core, t, c, ListAt(v, Cache(t, c))[BATCH - 1]), SpillView(v, t, c),
                       Cache(t, c), Batch(c, |v.tops[c]|), BATCH, false)
  {
    var k := |v.tops[c]|;
    var core', v' := SpillCore(core, t, c, ListAt(v, Cache(t, c))[BATCH - 1]), SpillView(v, t, c);
    forall id | id != Cache(t, c) && id != Batch(c, k) ensures HeadAt(core', v', id) == HeadAt(core, v, id) {
      if id.Batch? && id.c == c {
        assert v'.tops[c] == v.tops[c] + [ListAt(v, Cache(t, c))[0]];
      }
    }
  }

  /** No batch head is in the cache that spills, so writing the spilled batch's link harms none. */
  lemma SpillElsewhere(core: Core, v: View, flushing: set<(nat, nat)>, t: nat, c: nat)
    requires Ok(core, v, flushing) && c < CLASSES && SpillFront(core, v, t, c)
    ensures var core', v' := SpillCore(core, t, c, ListAt(v, Cache(t, c))[BATCH - 1]), SpillView(v, t, c);
            OnlyHere(core, v, core', v', t, c)
    ensures forall k :: 0 <= k < |v.tops[c]| ==> v.tops[c][k] != BinAt(core, t, c).head
  {
    var h := BinAt(core, t, c).head;
    assert v.place[h] == In(Cache(t, c));
    forall c': nat, k | c' < CLASSES && 0 <= k < |v.tops[c']| ensures v.tops[c'][k] != h {
      assert GlobalOk(core, v, c') && BatchLink(core.w1, v.tops[c'], k) && ListOk(core, v, Batch(c', k));
    }
  }

  lemma SpillGlobal(core: Core, v: View, t: nat, c: nat)
    requires SpillFront(core, v, t, c) && GlobalOk(core, v, c)
    requires forall k :: 0 <= k < |v.tops[c]| ==> v.tops[c][k] != BinAt(core, t, c).head
    ensures var core', v' := SpillCore(core, t, c, ListAt(v, Cache(t, c))[BATCH - 1]), SpillView(v, t, c);
            GlobalOk(core', v', c) && CountOk(core', v', t, c)
  {
    var core', v' := SpillCore(core, t, c, ListAt(v, Cache(t, c))[BATCH - 1]), SpillView(v, t, c);
    forall k | 0 <= k < |v'.tops[c]| ensures BatchLink(core'.w1, v'.tops[c], k) {
      if k < |v.tops[c]| {
        assert BatchLink(core.w1, v.tops[c], k);
      }
    }
    forall p | p in v'.place ensures p in v.place {
      assert p in v'.place.Keys;
    }
  }

  lemma SpillOk(core: Core, v: View, flushing: set<(nat, nat)>, t: nat, c: nat)
    requires Ok(core, v, flushing) && (t, c) !in flushing && c < CLASSES && BinAt(core, t, c).count >= BATCH
    ensures |ListAt(v, Cache(t, c))| >= BATCH && ListOk(core, v, Cache(t, c))
    ensures Ok(SpillCore(core, t, c, ListAt(v, Cache(t, c))[BATCH - 1]), SpillView(v, t, c), flushing)
  {
    var k := |v.tops[c]|;
    assert CountOk(core, v, t, c) && ListOk(core, v, Cache(t, c)) && GlobalOk(core, v, c) && ListOk(core, v, Batch(c, k));
    var core', v' := SpillCore(core, t, c, ListAt(v, Cache(t, c))[BATCH - 1]), SpillView(v, t, c);
    SpillTransfers(core, v, t, c);
    SpillElsewhere(core, v, flushing, t, c);
    SpillGlobal(core, v, t, c);
    TransferOk(core, v, core', v', Cache(t, c), Batch(c, k), BATCH, false, flushing, t, c);
  }

  // ----- a leaving thread's block goes to the loose list -----

  function DropCore(core: Core, c: nat, p: Ptr): Core
    requires c < |core.globals|
  {
    var g := core.globals[c];
    SetGlobal(core.(w0 := core.w0[p := g.loose]), c, g.(loose := p, looseN := g.looseN + 1))
  }

  ghost function DropView(v: View, c: nat, p: Ptr): View {
    v.(place := v.place[p := In(Loose(c))], lists := v.lists[Loose(c) := [p] + ListAt(v, Loose(c))])
  }

  ghost predicate CanDrop(core: Core, v: View, flushing: set<(nat, nat)>, c: nat, p: Ptr) {
    && Ok(core, v, flushing) && c < CLASSES
    && p in v.place && v.place[p].Live? && p.Blk? && p.span < |core.spanClass| && core.spanClass[p.span] == c
  }

  lemma DropOk(core: Core, v: View, flushing: set<(nat, nat)>, c: nat, p: Ptr)
    requires CanDrop(core, v, flushing, c, p)
    ensures Ok(DropCore(core, c, p), DropView(v, c, p), flushing)
  {
    DropLists(core, v, flushing, c, p);
    DropRest(core, v, flushing, c, p);
  }

  lemma DropLists(core: Core, v: View, flushing: set<(nat, nat)>, c: nat, p: Ptr)
    requires CanDrop(core, v, flushing, c, p)
    ensures forall id :: ListOk(DropCore(core, c, p), DropView(v, c, p), id)
    ensures forall q :: q in DropView(v, c, p).place ==> BlockOk(DropCore(core, c, p), DropView(v, c, p), q)
  {
    var me, s := Loose(c), ListAt(v, Loose(c));
    var core', v' := DropCore(core, c, p), DropView(v, c, p);
    forall id ensures ListOk(core', v', id) {
      assert ListOk(core, v, id);
      if id != me {
        ListFrame(core, v, core', v', id);
      } else {
        ChainFrame(core.w0, core'.w0, HeadAt(core, v, me), s);
        assert ([p] + s)[1..] == s;
      }
    }
    forall q | q in v'.place ensures BlockOk(core', v', q) {
      assert q in v.place;
      assert BlockOk(core, v, q);
    }
  }

  lemma DropRest(core: Core, v: View, flushing: set<(nat, nat)>, c: nat, p: Ptr)
    requires CanDrop(core, v, flushing, c, p)
    ensures RestOk(DropCore(core, c, p), DropView(v, c, p), flushing)
  {
    var core', v' := DropCore(core, c, p), DropView(v, c, p);
    assert v'.place.Keys == v.place.Keys;
    SpansFrame(core, v, core', v');
    forall t', c' ensures WindowOk(core', v', t', c') {
      assert WindowOk(core, v, t', c');
      WindowFrame(core, v, core', v', t', c');
    }
    forall c': nat | c' < CLASSES ensures GlobalOk(core', v', c') {
      assert GlobalOk(core, v, c');
      if c' != c {
        GlobalFrame(core, v, core', v', c');
      } else {
        assert forall q :: q in v'.place ==> q in v.place;
      }
    }
    forall t': nat, c': nat | (t', c') !in flushing ensures CountOk(core', v', t', c') {
      assert CountOk(core, v, t', c');
    }
  }

  // ----- the program writes to a live block -----

  lemma WriteOk(core: Core, v: View, flushing: set<(nat, nat)>, p: Ptr, a: Ptr, b: Ptr)
    requires Ok(core, v, flushing) && p in v.place && v.place[p].Live?
    ensures Ok(core.(w0 := core.w0[p := a], w1 := core.w1[p := b]), v, flushing)
  {
    var core' := core.(w0 := core.w0[p := a], w1 := core.w1[p := b]);
    SpansFrame(core, v, core', v);
    forall id ensures ListOk(core', v, id) {
      assert ListOk(core, v, id);
      ListFrame(core, v, core', v, id);
    }
    forall q | q in v.place ensures BlockOk(core', v, q) {
      assert BlockOk(core, v, q);
    }
    forall t, c ensures WindowOk(core', v, t, c) {
      assert WindowOk(core, v, t, c);
    }
    forall c: nat | c < CLASSES ensures GlobalOk(core', v, c) {
      assert GlobalOk(core, v, c);
      forall k | 0 <= k < |v.tops[c]| ensures At(core'.w1, v.tops[c][k]) == At(core.w1, v.tops[c][k]) {
        assert BatchLink(core.w1, v.tops[c], k) && ListOk(core, v, Batch(c, k));
      }
      GlobalFrameWords(core, v, core', v, c);
    }
    forall t: nat, c: nat | (t, c) !in flushing ensures CountOk(core', v, t, c) {
      assert CountOk(core, v, t, c);
    }
  }

  // ----- a window of fresh blocks -----

  function CarveCore(core: Core, t: nat, c: nat, span: nat, start: nat, n: nat): Core
    requires c < |core.globals| && n > 0
  {
    var b := BinAt(core, t, c);
    var spanClass := if span < |core.spanClass| then core.spanClass else core.spanClass + [c];
    SetBin(SetGlobal(core.(spanClass := spanClass), c, core.globals[c].(hasSpan := true, span := span, bump := start + n)),
           t, c, b.(span := span, cur := start + 1, end := start + n))
  }

  ghost function CarveView(v: View, t: nat, span: nat, start: nat, n: nat): View {
    v.(place := v.place + map i | start <= i < start + n :: Blk(span, i) := if i == start then Live else Window(t))
  }

  /** The window is the next of the class's span, or the first of a new one when none fits there. */
  ghost predicate CanCarve(core: Core, v: View, flushing: set<(nat, nat)>, t: nat, c: nat, span: nat, start: nat, n: nat) {
    && Ok(core, v, flushing) && c < CLASSES && n == WindowCount(c) && Within(c, start + n)
    && BinAt(core, t, c).cur == BinAt(core, t, c).end
    && NextWindow(core, c, span, start, n)
  }

  predicate NextWindow(core: Core, c: nat, span: nat, start: nat, n: nat)
    requires c < |core.globals|
  {
    var g := core.globals[c];
    if span < |core.spanClass| then g.hasSpan && span == g.span && start == g.bump
    else span == |core.spanClass| && start == 0 && (g.hasSpan ==> !Within(c, g.bump + n))
  }

  /** It lies past every block already cut from its span. */
  lemma CarveBehind(core: Core, v: View, flushing: set<(nat, nat)>, t: nat, c: nat, span: nat, start: nat, n: nat)
    requires CanCarve(core, v, flushing, t, c, span, start, n)
    ensures span <= |core.spanClass| && (span < |core.spanClass| ==> core.spanClass[span] == c) && start == CutMark(core, span)
    ensures forall p :: p in v.place && p.Blk? && p.span == span ==> p.idx < start
  {
    assert GlobalOk(core, v, c) && SpanOk(core, v, span);
    forall p | p in v.place && p.Blk? && p.span == span ensures p.idx < start {
      assert p == Blk(span, p.idx);
    }
  }

  /** The span a class leaves is cut as far as whole windows fit. */
  lemma CarveSpans(core: Core, v: View, flushing: set<(nat, nat)>, t: nat, c: nat, span: nat, start: nat, n: nat)
    requires CanCarve(core, v, flushing, t, c, span, start, n)
    ensures forall s: nat {:trigger SpanOk(CarveCore(core, t, c, span, start, n), CarveView(v, t, span, start, n), s)} ::
              SpanOk(CarveCore(core, t, c, span, start, n), CarveView(v, t, span, start, n), s)
  {
    CarveBehind(core, v, flushing, t, c, span, start, n);
    CarvePlaces(v, t, span, start, n);
    forall s: nat ensures SpanOk(CarveCore(core, t, c, span, start, n), CarveView(v, t, span, start, n), s) {
      assert SpanOk(core, v, s) && GlobalOk(core, v, c);
      CarveSpan(core, v, t, c, span, start, n, s);
    }
  }

  lemma CarveSpan(core: Core, v: View, t: nat, c: nat, span: nat, start: nat, n: nat, s: nat)
    requires c < CLASSES == |core.globals| == |v.tops| && n == WindowCount(c) && NextWindow(core, c, span, start, n)
    requires span <= |core.spanClass| && (span < |core.spanClass| ==> core.spanClass[span] == c) && start == CutMark(core, span)
    requires SpanOk(core, v, s) && GlobalOk(core, v, c)
    requires forall p :: p in v.place ==> p in CarveView(v, t, span, start, n).place
    requires forall i :: start <= i < start + n ==> Blk(span, i) in CarveView(v, t, span, start, n).place
    requires forall p :: p in CarveView(v, t, span, start, n).place && p !in v.place ==> p.Blk? && p.span == span && start <= p.idx < start + n
    ensures SpanOk(CarveCore(core, t, c, span, start, n), CarveView(v, t, span, start, n), s)
  {
    CarveMark(core, v, t, c, span, start, n, s);
  }

  lemma CarveMark(core: Core, v: View, t: nat, c: nat, span: nat, start: nat, n: nat, s: nat)
    requires c < CLASSES == |core.globals| == |v.tops| && n == WindowCount(c) && NextWindow(core, c, span, start, n)
    requires span <= |core.spanClass| && (span < |core.spanClass| ==> core.spanClass[span] == c) && GlobalOk(core, v, c)
    ensures CutMark(CarveCore(core, t, c, span, start, n), s) == if s == span then start + n else CutMark(core, s)
  {
  }

  lemma CarvePlaces(v: View, t: nat, span: nat, start: nat, n: nat)
    requires forall p :: p in v.place && p.Blk? && p.span == span ==> p.idx < start
    ensures forall p :: p in v.place ==> p in CarveView(v, t, span, start, n).place && CarveView(v, t, span, start, n).place[p] == v.place[p]
    ensures forall i :: start <= i < start + n ==>
              Blk(span, i) !in v.place && Blk(span, i) in CarveView(v, t, span, start, n).place
              && CarveView(v, t, span, start, n).place[Blk(span, i)] == if i == start then Live else Window(t)
    ensures forall p :: p in CarveView(v, t, span, start, n).place && p !in v.place ==> p.Blk? && p.span == span && start <= p.idx < start + n
  {
  }

  lemma CarveOk(core: Core, v: View, flushing: set<(nat, nat)>, t: nat, c: nat, span: nat, start: nat, n: nat)
    requires CanCarve(core, v, flushing, t, c, span, start, n)
    ensures Ok(CarveCore(core, t, c, span, start, n), CarveView(v, t, span, start, n), flushing)
  {
    CarveLists(core, v, flushing, t, c, span, start, n);
    CarveBlocks(core, v, flushing, t, c, span, start, n);
    CarveRest(core, v, flushing, t, c, span, start, n);
  }

  lemma CarveLists(core: Core, v: View, flushing: set<(nat, nat)>, t: nat, c: nat, span: nat, start: nat, n: nat)
    requires CanCarve(core, v, flushing, t, c, span, start, n)
    ensures forall id :: ListOk(CarveCore(core, t, c, span, start, n), CarveView(v, t, span, start, n), id)
  {
    var core', v' := CarveCore(core, t, c, span, start, n), CarveView(v, t, span, start, n);
    CarveBehind(core, v, flushing, t, c, span, start, n);
    CarvePlaces(v, t, span, start, n);
    forall id ensures ListOk(core', v', id) {
      assert ListOk(core, v, id);
      ListFrame(core, v, core', v', id);
    }
  }

  lemma CarveBlocks(core: Core, v: View, flushing: set<(nat, nat)>, t: nat, c: nat, span: nat, start: nat, n: nat)
    requires CanCarve(core, v, flushing, t, c, span, start, n)
    ensures forall p :: p in CarveView(v, t, span, start, n).place ==>
              BlockOk(CarveCore(core, t, c, span, start, n), CarveView(v, t, span, start, n), p)
  {
    var core', v' := CarveCore(core, t, c, span, start, n), CarveView(v, t, span, start, n);
    CarveBehind(core, v, flushing, t, c, span, start, n);
    CarvePlaces(v, t, span, start, n);
    forall p | p in v'.place ensures BlockOk(core', v', p) {
      if p in v.place {
        assert BlockOk(core, v, p);
        CarveOldBlock(core, v, t, c, span, start, n, p);
      } else {
        WithinMono(c, p.idx + 1, start + n);
      }
    }
  }

  lemma CarveOldBlock(core: Core, v: View, t: nat, c: nat, span: nat, start: nat, n: nat, p: Ptr)
    requires p in v.place && BlockOk(core, v, p) && c < |core.globals| && n > 0
    requires BinAt(core, t, c).cur == BinAt(core, t, c).end
    requires p in CarveView(v, t, span, start, n).place && CarveView(v, t, span, start, n).place[p] == v.place[p]
    ensures BlockOk(CarveCore(core, t, c, span, start, n), CarveView(v, t, span, start, n), p)
  {
  }

  lemma WithinMono(c: nat, i: nat, j: nat)
    requires Within(c, j) && i <= j
    ensures Within(c, i)
  {
    if i < j {
      OffsetMono(c, i, j);
    }
  }

  lemma CarveRest(core: Core, v: View, flushing: set<(nat, nat)>, t: nat, c: nat, span: nat, start: nat, n: nat)
    requires CanCarve(core, v, flushing, t, c, span, start, n)
    ensures RestOk(CarveCore(core, t, c, span, start, n), CarveView(v, t, span, start, n), flushing)
  {
    var core', v' := CarveCore(core, t, c, span, start, n), CarveView(v, t, span, start, n);
    CarveBehind(core, v, flushing, t, c, span, start, n);
    CarvePlaces(v, t, span, start, n);
    forall t', c' ensures WindowOk(core', v', t', c') {
      assert WindowOk(core, v, t', c');
      CarveWindow(core, v, t, c, span, start, n, t', c');
    }
    forall c': nat | c' < CLASSES ensures GlobalOk(core', v', c') {
      assert GlobalOk(core, v, c');
      CarveGlobal(core, v, t, c, span, start, n, c');
    }
    CarveSpans(core, v, flushing, t, c, span, start, n);
    forall t': nat, c': nat | (t', c') !in flushing ensures CountOk(core', v', t', c') {
      assert CountOk(core, v, t', c');
    }
  }

  lemma CarveWindow(core: Core, v: View, t: nat, c: nat, span: nat, start: nat, n: nat, t': nat, c': nat)
    requires WindowOk(core, v, t', c') && c < |core.globals| && n > 0
    requires span <= |core.spanClass| && (span < |core.spanClass| ==> core.spanClass[span] == c)
    requires forall p :: p in v.place && p.Blk? && p.span == span ==> p.idx < start
    ensures WindowOk(CarveCore(core, t, c, span, start, n), CarveView(v, t, span, start, n), t', c')
  {
  }

  lemma CarveGlobal(core: Core, v: View, t: nat, c: nat, span: nat, start: nat, n: nat, c': nat)
    requires c' < |core.globals| == |v.tops| && GlobalOk(core, v, c') && c < |core.globals| == CLASSES && n == WindowCount(c) && Within(c, start + n)
    requires span <= |core.spanClass| && (span < |core.spanClass| ==> core.spanClass[span] == c) && NextWindow(core, c, span, start, n)
    ensures GlobalOk(CarveCore(core, t, c, span, start, n), CarveView(v, t, span, start, n), c')
  {
  }
}
