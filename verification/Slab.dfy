/** The slab allocator. Each method is one atomic step of one thread: what it does under a class
    lock together with the work on that thread's own cache around it. Threads interleave in any
    order, so a run is any sequence of calls with any thread numbers. */
module Slab {
  import opened SlabGeometry
  import opened SlabState
  import opened SlabSteps
  import opened SlabShared

  ghost function LiveBlocks(v: View): set<Ptr> {
    set p | p in v.place && v.place[p].Live?
  }

  /** Words of a block live before and after are the program's and are not touched. */
  ghost predicate LiveUntouched(core: Core, v: View, core': Core, v': View) {
    forall p :: p in v.place && v.place[p].Live? && p in v'.place && v'.place[p].Live? ==>
      At(core'.w0, p) == At(core.w0, p) && At(core'.w1, p) == At(core.w1, p)
  }

  /** Follows the links to the last of the first 64 blocks, or to the end of a shorter list. */
  method UpToBatch(w0: map<Ptr, Ptr>, first: Ptr, ghost s: seq<Ptr>) returns (last: Ptr, n: nat)
    requires Chain(w0, first, s) && s != []
    ensures n == (if |s| < BATCH then |s| else BATCH) && last == s[n - 1]
  {
    last, n := first, 1;
    ChainDrop(w0, first, s, 1);
    while n < BATCH && At(w0, last).Blk?
      invariant 1 <= n <= |s| && n <= BATCH && last == s[n - 1]
      invariant n == |s| ==> At(w0, last).Null?
      invariant n < |s| ==> At(w0, last) == s[n] && s[n].Blk?
    {
      last := At(w0, last);
      n := n + 1;
      ChainDrop(w0, first, s, n);
    }
  }

  /** Follows 63 links. */
  method BatchEnd(w0: map<Ptr, Ptr>, first: Ptr, ghost s: seq<Ptr>) returns (last: Ptr)
    requires Chain(w0, first, s) && |s| >= BATCH
    ensures last == s[BATCH - 1]
  {
    last := first;
    var i := 1;
    while i < BATCH
      invariant 1 <= i <= BATCH && last == s[i - 1]
    {
      ChainDrop(w0, first, s, i);
      last := At(w0, last);
      i := i + 1;
    }
  }

  /** What a refill serves before it has to cut fresh blocks: the window's next block, else the newest
      batch's first, else the first loose one. */
  function Served(core: Core, t: nat, c: nat): Ptr
    requires c < |core.globals|
  {
    var b, g := BinAt(core, t, c), core.globals[c];
    if b.cur != b.end then Blk(b.span, b.cur) else if g.batches.Blk? then g.batches else g.loose
  }

  /** What a leaving thread hands back next. */
  function NextOut(core: Core, t: nat, c: nat): Ptr {
    var b := BinAt(core, t, c);
    if b.cur != b.end then Blk(b.span, b.cur) else b.head
  }

  /** Where everything is once it has. */
  ghost function Flushed(core: Core, v: View, t: nat, c: nat): View {
    var b := BinAt(core, t, c);
    if b.cur != b.end then DropView(CutView(core, v, t, c), c, Blk(b.span, b.cur))
    else if ListAt(v, Cache(t, c)) != [] then DropView(PopView(v, t, c), c, b.head)
    else v
  }

  ghost predicate LooseTaken(v: View, v': View, t: nat, c: nat) {
    var s := ListAt(v, Loose(c));
    s != [] && v' == LooseView(v, t, c, if |s| < BATCH then |s| else BATCH)
  }

  /** Where everything is after a refill: the window's next block goes to the program; or the newest
      batch's first does and the other 63 are the thread's list; or the same of up to 64 loose blocks;
      or a window is cut, whose first block goes to the program. */
  ghost predicate Refilled(core: Core, v: View, v': View, t: nat, c: nat, p: Ptr)
    requires c < CLASSES == |core.globals|
  {
    var b, g := BinAt(core, t, c), core.globals[c];
    if b.cur != b.end then v' == CutView(core, v, t, c)
    else if g.batches.Blk? then BatchTaken(v, v', t, c)
    else if g.loose.Blk? then LooseTaken(v, v', t, c)
    else p.Blk? ==> v' == CarveView(v, t, p.span, p.idx, WindowCount(c)) && p.idx == CutMark(core, p.span)
  }

  ghost predicate BatchTaken(v: View, v': View, t: nat, c: nat) {
    c < |v.tops| && v.tops[c] != [] && |ListAt(v, Batch(c, |v.tops[c]| - 1))| == BATCH && v' == BatchView(v, t, c)
  }

  /** There is no block to serve: the thread's list and window, the shared batches and the loose list are
      empty, no window fits in the class's span, and the reservation of `spans` spans is used up. */
  ghost predicate Exhausted(core: Core, v: View, spans: nat, t: nat, c: nat)
    requires c < CLASSES == |core.globals| == |v.tops|
  {
    && ListAt(v, Cache(t, c)) == [] && BinAt(core, t, c).cur == BinAt(core, t, c).end
    && v.tops[c] == [] && ListAt(v, Loose(c)) == []
    && |core.spanClass| == spans && !(core.globals[c].hasSpan && Within(c, core.globals[c].bump + WindowCount(c)))
  }

  /** Where everything is after a request of class `c` answered `p`. */
  ghost predicate Answered(core: Core, v: View, v': View, t: nat, c: nat, p: Ptr)
    requires c < CLASSES == |core.globals|
  {
    if p.Null? then v' == v
    else if ListAt(v, Cache(t, c)) != [] then p == ListAt(v, Cache(t, c))[0] && v' == PopView(v, t, c)
    else Refilled(core, v, v', t, c, p)
  }

  /** A freed block goes to the front of the freeing thread's list; at 128 the first 64 become a batch. */
  ghost predicate Freed(v: View, v': View, t: nat, c: nat, p: Ptr, threadsOn: bool) {
    var pushed := PushView(v, t, c, p);
    if threadsOn && |ListAt(v, Cache(t, c))| + 1 >= HIGH then c < |v.tops| && v' == SpillView(pushed, t, c) else v' == pushed
  }

  /** What that means: the list grows by one, or a spill takes 64 away, so that a list under 128 stays so
      while threads run; and what a spill shares are the blocks freed last, this one first. */
  lemma FreedIs(v: View, v': View, t: nat, c: nat, p: Ptr, threadsOn: bool)
    requires c < |v.tops| && Freed(v, v', t, c, p, threadsOn)
    ensures var s, s', k := ListAt(v, Cache(t, c)), ListAt(v', Cache(t, c)), |v.tops[c]|;
            && (|s'| == |s| + 1 || |s'| == |s| - 63)
            && (threadsOn && |s| < 128 ==> |s'| < 128)
            && (|s'| == |s| + 1 ==> s' == [p] + s && v'.tops == v.tops)
            && (|s'| != |s| + 1 ==> threadsOn && |s| >= 127 && ListAt(v', Batch(c, k)) + s' == [p] + s && v'.tops == v.tops[c := v.tops[c] + [p]])
  {
    var pushed := PushView(v, t, c, p);
    var s := ListAt(pushed, Cache(t, c));
    if threadsOn && |s| >= HIGH {
      assert s[..BATCH] + s[BATCH..] == s;
    }
  }

  /** A request answered `q`, and then `p` freed. */
  ghost predicate MovedTo(core: Core, v: View, v': View, t: nat, p: Ptr, size: nat, threadsOn: bool, q: Ptr)
    requires |core.globals| == CLASSES && p.Blk? && p.span < |core.spanClass|
  {
    exists mid {:trigger Freed(mid, v', t, core.spanClass[p.span], p, threadsOn)} ::
      Freed(mid, v', t, core.spanClass[p.span], p, threadsOn)
      && if size > SLAB_MAX then mid == v else Answered(core, v, mid, t, ClassFor(size), q)
  }

  /** A word past the second, which no list uses. */
  function RestAt(rest: map<(Ptr, nat), Ptr>, p: Ptr, k: nat): Ptr {
    if (p, k) in rest then rest[(p, k)] else Null
  }

  ghost function WordIn(core: Core, rest: map<(Ptr, nat), Ptr>, p: Ptr, k: nat): Ptr {
    if k == 0 then At(core.w0, p) else if k == 1 then At(core.w1, p) else RestAt(rest, p, k)
  }

  /** A block holds these words. */
  ghost predicate BlockIs(core: Core, rest: map<(Ptr, nat), Ptr>, p: Ptr, words: seq<Ptr>) {
    forall k: nat {:trigger WordIn(core, rest, p, k)} :: k < |words| ==> WordIn(core, rest, p, k) == words[k]
  }

  /** No word of these blocks has changed. */
  ghost predicate WordsKept(core: Core, rest: map<(Ptr, nat), Ptr>, core': Core, rest': map<(Ptr, nat), Ptr>, blocks: set<Ptr>) {
    forall p, k: nat {:trigger WordIn(core', rest', p, k)} :: p in blocks ==> WordIn(core', rest', p, k) == WordIn(core, rest, p, k)
  }

  lemma WordsKeptTrans(core: Core, rest: map<(Ptr, nat), Ptr>, core1: Core, rest1: map<(Ptr, nat), Ptr>,
                       core': Core, rest': map<(Ptr, nat), Ptr>, blocks: set<Ptr>)
    requires exists more :: blocks <= more && WordsKept(core, rest, core1, rest1, more)
    requires exists more :: blocks <= more && WordsKept(core1, rest1, core', rest', more)
    ensures WordsKept(core, rest, core', rest', blocks)
  {
    forall p, k: nat | p in blocks ensures WordIn(core', rest', p, k) == WordIn(core, rest, p, k) {
      assert WordIn(core1, rest1, p, k) == WordIn(core, rest, p, k);
    }
  }

  lemma BlockKept(core: Core, rest: map<(Ptr, nat), Ptr>, core': Core, rest': map<(Ptr, nat), Ptr>, p: Ptr, words: seq<Ptr>)
    requires BlockIs(core, rest, p, words) && exists more :: p in more && WordsKept(core, rest, core', rest', more)
    ensures BlockIs(core', rest', p, words)
  {
    forall k: nat | k < |words| ensures WordIn(core', rest', p, k) == words[k] {
      assert WordIn(core, rest, p, k) == words[k];
    }
  }

  lemma LiveWords(core: Core, v: View, core': Core, v': View, rest: map<(Ptr, nat), Ptr>)
    requires LiveUntouched(core, v, core', v')
    ensures WordsKept(core, rest, core', rest, LiveBlocks(v) * LiveBlocks(v'))
  {
    forall p, k: nat | p in LiveBlocks(v) * LiveBlocks(v') ensures WordIn(core', rest, p, k) == WordIn(core, rest, p, k) {
      LiveWord(core, v, core', v', rest, p, k);
    }
  }

  /** No word of a block live before and after has changed. */
  lemma LiveWord(core: Core, v: View, core': Core, v': View, rest: map<(Ptr, nat), Ptr>, p: Ptr, k: nat)
    requires LiveUntouched(core, v, core', v') && p in LiveBlocks(v) && p in LiveBlocks(v')
    ensures WordIn(core', rest, p, k) == WordIn(core, rest, p, k)
  {
  }

  class Allocator {
    /** The words past the second of every block. */
    var rest: map<(Ptr, nat), Ptr>
    var core: Core
    ghost var view: View
    var flushing: set<(nat, nat)>         // caches a leaving thread is handing back: count not kept
    const spans: nat                      // how many spans the reservation holds

    ghost predicate Valid()
      reads this
    {
      Ok(core, view, flushing) && |core.spanClass| <= spans
    }

    ghost function Snap(): Snapshot
      reads this
    {
      Snapshot(core, view, rest, flushing)
    }

    constructor (reserve: nat)
      ensures Valid() && LiveBlocks(view) == {} && flushing == {}
    {
      rest := map[];
      spans := reserve / SPAN;
      core := Core([], map[], seq(CLASSES, _ => Global(Null, Null, 0, false, 0, 0)), map[], map[]);
      view := View(map[], map[], seq(CLASSES, _ => []));
      flushing := {};
    }

    /** `rt_base_alloc`: no block means libc serves the request. */
    method Alloc(t: nat, size: nat) returns (p: Ptr)
      requires Valid() && forall c :: (t, c) !in flushing
      modifies this`core, this`view
      ensures Valid() && flushing == old(flushing)
      ensures p.Null? ==> view == old(view) && core == old(core)
      ensures p.Blk? ==> p !in LiveBlocks(old(view)) && LiveBlocks(view) == LiveBlocks(old(view)) + {p}
      ensures p.Blk? ==> size <= SLAB_MAX && p.span < |core.spanClass| && core.spanClass[p.span] == ClassFor(size)
      ensures LiveUntouched(old(core), old(view), core, view)
      ensures size <= SLAB_MAX && ListAt(old(view), Cache(t, ClassFor(size))) != [] ==>
                p == ListAt(old(view), Cache(t, ClassFor(size)))[0] && view == PopView(old(view), t, ClassFor(size))
      ensures size <= SLAB_MAX && ListAt(old(view), Cache(t, ClassFor(size))) == [] ==>
                Refilled(old(core), old(view), view, t, ClassFor(size), p)
      ensures p.Null? <==> size > SLAB_MAX || Exhausted(old(core), old(view), spans, t, ClassFor(size))
      ensures CutsGrow(old(core), core)
    {
      SameCutsGrow(core, core);
      if size > SLAB_MAX {
        return Null;
      }
      var c := ClassFor(size);
      var b := BinAt(core, t, c);
      NothingListed(core, view, flushing, t, c);
      if b.head.Blk? {
        p := b.head;
        CachePops(core, view, flushing, t, c);
        PopOk(core, view, flushing, t, c, b.count - 1);
        PopLive(core, view, flushing, t, c);
        view := PopView(view, t, c);
        core := PopCore(core, t, c, b.count - 1);
        SameCutsGrow(old(core), core);
        return;
      }
      p := Refill(t, c);
    }

    /** `slab_refill`: the window, then a shared batch, then leftovers, then fresh blocks. */
    method Refill(t: nat, c: nat) returns (p: Ptr)
      requires Valid() && (t, c) !in flushing && c < CLASSES && BinAt(core, t, c).head.Null?
      modifies this`core, this`view
      ensures Valid() && flushing == old(flushing)
      ensures p.Null? ==> view == old(view) && core == old(core)
      ensures p.Blk? ==> p !in LiveBlocks(old(view)) && LiveBlocks(view) == LiveBlocks(old(view)) + {p}
      ensures p.Blk? ==> p.span < |core.spanClass| && core.spanClass[p.span] == c
      ensures LiveUntouched(old(core), old(view), core, view)
      ensures p == Served(old(core), t, c) || Served(old(core), t, c).Null?
      ensures p.Null? <==> Exhausted(old(core), old(view), spans, t, c)
      ensures Refilled(old(core), old(view), view, t, c, p) && CutsGrow(old(core), core)
    {
      var b, g := BinAt(core, t, c), core.globals[c];
      NothingListed(core, view, flushing, t, c);
      if b.cur != b.end {
        assert WindowOk(core, view, t, c);
        CutOk(core, view, flushing, t, c);
        p := Blk(b.span, b.cur);
        view := CutView(core, view, t, c);
        core := CutCore(core, t, c);
        SameCutsGrow(old(core), core);
        return;
      }
      if g.batches.Blk? {
        p := TakeBatch(t, c);
        SameCutsGrow(old(core), core);
        return;
      }
      if g.loose.Blk? {
        p := TakeLoose(t, c);
        SameCutsGrow(old(core), core);
        return;
      }
      p := Carve(t, c);
    }

    /** The newest shared batch, whole. */
    method TakeBatch(t: nat, c: nat) returns (p: Ptr)
      requires Valid() && (t, c) !in flushing && c < CLASSES && BinAt(core, t, c).head.Null? && core.globals[c].batches.Blk?
      modifies this`core, this`view
      ensures Valid()
      ensures p == old(core).globals[c].batches && p.Blk? && p !in LiveBlocks(old(view)) && LiveBlocks(view) == LiveBlocks(old(view)) + {p}
      ensures p.span < |core.spanClass| && core.spanClass[p.span] == c
      ensures LiveUntouched(old(core), old(view), core, view)
      ensures BatchTaken(old(view), view, t, c) && SameCuts(old(core), core)
    {
      p := core.globals[c].batches;
      SharedBatch(core, view, flushing, t, c);
      BatchOk(core, view, flushing, t, c);
      BatchLive(core, view, flushing, t, c);
      view := BatchView(view, t, c);
      core := BatchCore(core, t, c);
    }

    /** Up to 64 blocks off the loose list, found by walking its links. */
    method TakeLoose(t: nat, c: nat) returns (p: Ptr)
      requires Valid() && c < CLASSES && BinAt(core, t, c).head.Null? && core.globals[c].loose.Blk?
      modifies this`core, this`view
      ensures Valid() && flushing == old(flushing)
      ensures p.Blk? && p !in LiveBlocks(old(view)) && LiveBlocks(view) == LiveBlocks(old(view)) + {p}
      ensures p.span < |core.spanClass| && core.spanClass[p.span] == c
      ensures LiveUntouched(old(core), old(view), core, view)
      ensures p == old(core).globals[c].loose
      ensures LooseTaken(old(view), view, t, c) && SameCuts(old(core), core)
    {
      ghost var s := ListAt(view, Loose(c));
      assert ListOk(core, view, Loose(c)) && ListOk(core, view, Cache(t, c)) && GlobalOk(core, view, c);
      p := core.globals[c].loose;
      var last, n := UpToBatch(core.w0, p, s);
      LooseOk(core, view, flushing, t, c, n);
      LooseLive(core, view, flushing, t, c, n);
      LooseUntouched(core, view, t, c, n);
      view := LooseView(view, t, c, n);
      core := LooseCore(core, t, c, p, last, n);
    }

    /** A window cut from the class's span, or from the next span of the reservation. */
    method Carve(t: nat, c: nat) returns (p: Ptr)
      requires Valid() && c < CLASSES && BinAt(core, t, c).cur == BinAt(core, t, c).end
      modifies this`core, this`view
      ensures Valid() && flushing == old(flushing)
      ensures p.Null? <==> |old(core).spanClass| == spans && !(old(core).globals[c].hasSpan && Within(c, old(core).globals[c].bump + WindowCount(c)))
      ensures p.Null? ==> view == old(view) && core == old(core)
      ensures p.Blk? ==> p !in LiveBlocks(old(view)) && LiveBlocks(view) == LiveBlocks(old(view)) + {p}
      ensures p.Blk? ==> p.span < |core.spanClass| && core.spanClass[p.span] == c
      ensures LiveUntouched(old(core), old(view), core, view) && CutsGrow(old(core), core)
      ensures p.Blk? ==> view == CarveView(old(view), t, p.span, p.idx, WindowCount(c)) && p.idx == CutMark(old(core), p.span)
    {
      var g, n := core.globals[c], WindowCount(c);
      assert GlobalOk(core, view, c);
      var span, start := g.span, g.bump;
      if !(g.hasSpan && Within(c, start + n)) {
        if |core.spanClass| >= spans {
          SameCutsGrow(core, core);
          return Null;
        }
        FreshSpanFits(c);
        span, start := |core.spanClass|, 0;
      }
      p := CarveAt(t, c, span, start);
    }

    /** Cuts the window at its place; its first block is served. */
    method CarveAt(t: nat, c: nat, span: nat, start: nat) returns (p: Ptr)
      requires Valid() && c < CLASSES && CanCarve(core, view, flushing, t, c, span, start, WindowCount(c)) && span < spans
      modifies this`core, this`view
      ensures Valid() && CutsGrow(old(core), core)
      ensures p == Blk(span, start) && start == CutMark(old(core), span) && span < |core.spanClass| && core.spanClass[span] == c
      ensures view == CarveView(old(view), t, span, start, WindowCount(c))
      ensures p !in LiveBlocks(old(view)) && LiveBlocks(view) == LiveBlocks(old(view)) + {p}
      ensures LiveUntouched(old(core), old(view), core, view)
    {
      var n := WindowCount(c);
      CarveOk(core, view, flushing, t, c, span, start, n);
      CarveBehind(core, view, flushing, t, c, span, start, n);
      CarveLive(view, t, span, start, n);
      CarveGrows(core, view, flushing, t, c, span, start, n);
      view := CarveView(view, t, span, start, n);
      core := CarveCore(core, t, c, span, start, n);
      p := Blk(span, start);
    }

    /** `rt_free` of a live slab block, whichever thread allocated it. */
    method Free(t: nat, p: Ptr, threadsOn: bool)
      requires Valid() && p in LiveBlocks(view) && forall c :: (t, c) !in flushing
      modifies this`core, this`view
      ensures Valid() && flushing == old(flushing)
      ensures LiveBlocks(view) == LiveBlocks(old(view)) - {p}
      ensures LiveUntouched(old(core), old(view), core, view) && SameCuts(old(core), core)
      ensures p.Blk? && p.span < |old(core).spanClass| && Freed(old(view), view, t, old(core).spanClass[p.span], p, threadsOn)
    {
      BlockClass(core, view, flushing, p);
      var c := core.spanClass[p.span];
      assert CountOk(core, view, t, c);
      PushOk(core, view, flushing, t, c, p);
      view := PushView(view, t, c, p);
      core := PushCore(core, t, c, p);
      if BinAt(core, t, c).count >= HIGH && threadsOn {
        Spill(t, c);
      }
    }

    /** `slab_spill`: the first 64 blocks, found by walking the links, become a shared batch. */
    method Spill(t: nat, c: nat)
      requires Valid() && (t, c) !in flushing && c < CLASSES && BinAt(core, t, c).count >= BATCH
      modifies this`core, this`view
      ensures Valid() && flushing == old(flushing)
      ensures LiveBlocks(view) == LiveBlocks(old(view))
      ensures LiveUntouched(old(core), old(view), core, view) && SameCuts(old(core), core)
      ensures c < |old(view).tops| && |ListAt(old(view), Cache(t, c))| >= BATCH && view == SpillView(old(view), t, c)
    {
      SpillOk(core, view, flushing, t, c);
      ghost var s := ListAt(view, Cache(t, c));
      var last := BatchEnd(core.w0, BinAt(core, t, c).head, s);
      SpillLive(core, view, flushing, t, c);
      view := SpillView(view, t, c);
      core := SpillCore(core, t, c, last);
    }

    /** A thread starts handing back what its cache of one class holds. */
    method FlushBegin(t: nat, c: nat)
      requires Valid()
      modifies this`flushing
      ensures Valid() && flushing == old(flushing) + {(t, c)}
    {
      flushing := flushing + {(t, c)};
    }

    /** One turn of `slab_flush_tls` for one class: an uncut block, else a listed block, goes to the
        loose list; with both gone the count is reset. */
    method FlushStep(t: nat, c: nat) returns (done: bool)
      requires Valid() && (t, c) in flushing && c < CLASSES
      modifies this`core, this`view, this`flushing
      ensures Valid() && LiveBlocks(view) == LiveBlocks(old(view)) && LiveUntouched(old(core), old(view), core, view) && SameCuts(old(core), core)
      ensures flushing == if done then old(flushing) - {(t, c)} else old(flushing)
      ensures done ==> BinAt(core, t, c).count == 0 && ListAt(view, Cache(t, c)) == [] && BinAt(core, t, c).cur == BinAt(core, t, c).end
      ensures !done ==> ListAt(view, Loose(c)) == [NextOut(old(core), t, c)] + ListAt(old(view), Loose(c))
      ensures view == Flushed(old(core), old(view), t, c)
      ensures done <==> ListAt(old(view), Cache(t, c)) == [] && BinAt(old(core), t, c).cur == BinAt(old(core), t, c).end
    {
      NothingListed(core, view, flushing, t, c);
      var b := BinAt(core, t, c);
      assert WindowOk(core, view, t, c) && ListOk(core, view, Cache(t, c));
      if b.cur != b.end {
        FlushWindow(t, c);
        return false;
      }
      if b.head.Blk? {
        FlushList(t, c);
        return false;
      }
      ResetOk(core, view, flushing, t, c);
      core := SetBin(core, t, c, b.(count := 0));
      flushing := flushing - {(t, c)};
      done := true;
    }

    method FlushWindow(t: nat, c: nat)
      requires Valid() && (t, c) in flushing && c < CLASSES && BinAt(core, t, c).cur < BinAt(core, t, c).end
      modifies this`core, this`view
      ensures Valid() && LiveBlocks(view) == LiveBlocks(old(view)) && LiveUntouched(old(core), old(view), core, view) && SameCuts(old(core), core)
      ensures ListAt(view, Loose(c)) == [NextOut(old(core), t, c)] + ListAt(old(view), Loose(c))
      ensures view == Flushed(old(core), old(view), t, c)
    {
      var b := BinAt(core, t, c);
      CutOk(core, view, flushing, t, c);
      view := CutView(core, view, t, c);
      core := CutCore(core, t, c);
      DropLive(t, c, Blk(b.span, b.cur));
    }

    method FlushList(t: nat, c: nat)
      requires Valid() && (t, c) in flushing && c < CLASSES && BinAt(core, t, c).head.Blk?
      requires BinAt(core, t, c).cur == BinAt(core, t, c).end
      modifies this`core, this`view
      ensures Valid() && LiveBlocks(view) == LiveBlocks(old(view)) && LiveUntouched(old(core), old(view), core, view) && SameCuts(old(core), core)
      ensures ListAt(view, Loose(c)) == [NextOut(old(core), t, c)] + ListAt(old(view), Loose(c))
      ensures view == Flushed(old(core), old(view), t, c)
    {
      var b := BinAt(core, t, c);
      NothingListed(core, view, flushing, t, c);
      assert ListOk(core, view, Cache(t, c));
      CachePops(core, view, flushing, t, c);
      PopLive(core, view, flushing, t, c);
      PopOk(core, view, flushing, t, c, b.count);
      view := PopView(view, t, c);
      core := PopCore(core, t, c, b.count);
      assert ListAt(view, Loose(c)) == ListAt(old(view), Loose(c));
      DropLive(t, c, b.head);
    }

    method DropLive(t: nat, c: nat, p: Ptr)
      requires Valid() && CanDrop(core, view, flushing, c, p)
      modifies this`core, this`view
      ensures Valid() && LiveBlocks(view) == LiveBlocks(old(view)) - {p}
      ensures core == DropCore(old(core), c, p) && view == DropView(old(view), c, p)
    {
      DropOk(core, view, flushing, c, p);
      view := DropView(view, c, p);
      core := DropCore(core, c, p);
    }

    /** The program stores into a block it holds. */
    method Write(p: Ptr, k: nat, x: Ptr)
      requires Valid() && p in LiveBlocks(view)
      modifies this`core, this`rest
      ensures Valid() && SameCuts(old(core), core)
      ensures forall q, j: nat {:trigger WordIn(core, rest, q, j)} ::
                WordIn(core, rest, q, j) == if q == p && j == k then x else WordIn(old(core), old(rest), q, j)
    {
      if k >= 2 {
        rest := rest[(p, k) := x];
        return;
      }
      var a := if k == 0 then x else At(core.w0, p);
      var b := if k == 1 then x else At(core.w1, p);
      WriteOk(core, view, flushing, p, a, b);
      core := core.(w0 := core.w0[p := a], w1 := core.w1[p := b]);
    }

    /** `rt_base_realloc` of a live slab block: kept while the request fits its class, else moved
        with every word of it. No block means libc serves the new one; `words` is what is copied, to
        a block of the slab or there. The old block is freed. */
    method Realloc(t: nat, p: Ptr, size: nat, threadsOn: bool) returns (q: Ptr, words: seq<Ptr>)
      requires Valid() && p in LiveBlocks(view) && forall c :: (t, c) !in flushing
      modifies this`core, this`view, this`rest
      ensures CutsGrow(old(core), core)
      ensures Valid() && p.Blk? && p.span < |old(core).spanClass|
      ensures |words| == Size(old(core).spanClass[p.span]) / 8 && BlockIs(old(core), old(rest), p, words)
      ensures size <= Size(old(core).spanClass[p.span]) ==> q == p && core == old(core) && view == old(view) && rest == old(rest)
      ensures size > Size(old(core).spanClass[p.span]) ==> LiveBlocks(view) == LiveBlocks(old(view)) - {p} + (if q.Blk? then {q} else {})
      ensures q.Blk? ==> BlockIs(core, rest, q, words) && q.span < |core.spanClass| && Size(core.spanClass[q.span]) >= size
      ensures q.Null? <==> size > Size(old(core).spanClass[p.span]) && (size > SLAB_MAX || Exhausted(old(core), old(view), spans, t, ClassFor(size)))
      ensures size > Size(old(core).spanClass[p.span]) ==> MovedTo(old(core), old(view), view, t, p, size, threadsOn, q)
      ensures WordsKept(old(core), old(rest), core, rest, LiveBlocks(old(view)) - {p})
    {
      BlockClass(core, view, flushing, p);
      var have := Size(core.spanClass[p.span]);
      words := ReadBlock(p, have / 8);
      SameCutsGrow(core, core);
      if size <= have {
        return p, words;
      }
      q := MoveBlock(t, p, size, threadsOn, words);
    }

    /** The copy to a new place and the free of the old one. */
    method MoveBlock(t: nat, p: Ptr, size: nat, threadsOn: bool, words: seq<Ptr>) returns (q: Ptr)
      requires Valid() && p in LiveBlocks(view) && forall c :: (t, c) !in flushing
      modifies this`core, this`view, this`rest
      ensures CutsGrow(old(core), core)
      ensures Valid() && LiveBlocks(view) == LiveBlocks(old(view)) - {p} + (if q.Blk? then {q} else {})
      ensures q.Blk? ==> BlockIs(core, rest, q, words) && q.span < |core.spanClass| && Size(core.spanClass[q.span]) >= size
      ensures q.Null? <==> size > SLAB_MAX || Exhausted(old(core), old(view), spans, t, ClassFor(size))
      ensures p.Blk? && p.span < |old(core).spanClass| && MovedTo(old(core), old(view), view, t, p, size, threadsOn, q)
      ensures WordsKept(old(core), old(rest), core, rest, LiveBlocks(old(view)) - {p})
    {
      BlockClass(core, view, flushing, p);
      q := AllocCopied(t, size, words);
      ghost var core1, view1 := core, view;
      Free(t, p, threadsOn);
      assert core1.spanClass[p.span] == old(core).spanClass[p.span];
      assert Freed(view1, view, t, old(core).spanClass[p.span], p, threadsOn);
      SameCutsGrow(core1, core);
      LiveWords(core1, view1, core, view, rest);
      WordsKeptTrans(old(core), old(rest), core1, rest, core, rest, LiveBlocks(old(view)) - {p});
      if q.Blk? {
        BlockKept(core1, rest, core, rest, q, words);
      }
    }

    /** A new block with the given contents. */
    method AllocCopied(t: nat, size: nat, words: seq<Ptr>) returns (q: Ptr)
      requires Valid() && forall c :: (t, c) !in flushing
      modifies this`core, this`view, this`rest
      ensures CutsGrow(old(core), core)
      ensures Valid() && LiveBlocks(view) == LiveBlocks(old(view)) + (if q.Blk? then {q} else {})
      ensures q.Blk? ==> q !in LiveBlocks(old(view)) && BlockIs(core, rest, q, words)
      ensures q.Blk? ==> q.span < |core.spanClass| && Size(core.spanClass[q.span]) >= size
      ensures q.Null? <==> size > SLAB_MAX || Exhausted(old(core), old(view), spans, t, ClassFor(size))
      ensures if size > SLAB_MAX then view == old(view) else Answered(old(core), old(view), view, t, ClassFor(size), q)
      ensures WordsKept(old(core), old(rest), core, rest, LiveBlocks(old(view)))
    {
      q := Alloc(t, size);
      LiveWords(old(core), old(view), core, view, rest);
      ghost var core1, rest1 := core, rest;
      if q.Blk? {
        CopyBlock(q, words);
        SameCutsGrow(core1, core);
        WordsKeptTrans(old(core), old(rest), core1, rest1, core, rest, LiveBlocks(old(view)));
      }
    }

    /** The words of a block, in order. */
    method ReadBlock(p: Ptr, n: nat) returns (words: seq<Ptr>)
      ensures |words| == n && BlockIs(core, rest, p, words)
    {
      words := [];
      while |words| < n
        invariant |words| <= n && BlockIs(core, rest, p, words)
      {
        var k := |words|;
        words := words + [if k == 0 then At(core.w0, p) else if k == 1 then At(core.w1, p) else RestAt(rest, p, k)];
      }
    }

    /** `memcpy` into a block, word by word. */
    method CopyBlock(q: Ptr, words: seq<Ptr>)
      requires Valid() && q in LiveBlocks(view)
      modifies this`core, this`rest
      ensures Valid() && SameCuts(old(core), core) && BlockIs(core, rest, q, words)
      ensures WordsKept(old(core), old(rest), core, rest, LiveBlocks(view) - {q})
    {
      var i := 0;
      while i < |words|
        invariant 0 <= i <= |words| && Valid() && SameCuts(old(core), core)
        invariant BlockIs(core, rest, q, words[..i])
        invariant WordsKept(old(core), old(rest), core, rest, LiveBlocks(view) - {q})
      {
        ghost var core1, rest1 := core, rest;
        Write(q, i, words[i]);
        forall k: nat | k <= i ensures WordIn(core, rest, q, k) == words[..i + 1][k] {
          assert k < i ==> WordIn(core1, rest1, q, k) == words[..i][k];
        }
        forall p, k: nat | p in LiveBlocks(view) - {q} ensures WordIn(core, rest, p, k) == WordIn(old(core), old(rest), p, k) {
          assert WordIn(core1, rest1, p, k) == WordIn(old(core), old(rest), p, k);
        }
        i := i + 1;
      }
      assert words[..i] == words;
    }
  }

  // ----- what the steps do to the live blocks -----

  lemma BlockClass(core: Core, v: View, flushing: set<(nat, nat)>, p: Ptr)
    requires Ok(core, v, flushing) && p in v.place
    ensures p.Blk? && p.span < |core.spanClass| && core.spanClass[p.span] < CLASSES
    ensures v.place[p].In? ==> v.place[p].id.c == core.spanClass[p.span]
  {
    assert BlockOk(core, v, p);
  }

  lemma PopLive(core: Core, v: View, flushing: set<(nat, nat)>, t: nat, c: nat)
    requires Ok(core, v, flushing) && ListAt(v, Cache(t, c)) != []
    ensures var p := ListAt(v, Cache(t, c))[0];
            p !in LiveBlocks(v) && LiveBlocks(PopView(v, t, c)) == LiveBlocks(v) + {p}
            && p in v.place && p.Blk? && p.span < |core.spanClass| && core.spanClass[p.span] == c && c < CLASSES
  {
    assert ListOk(core, v, Cache(t, c));
    BlockClass(core, v, flushing, ListAt(v, Cache(t, c))[0]);
  }

  lemma CarveLive(v: View, t: nat, span: nat, start: nat, n: nat)
    requires forall p :: p in v.place && p.Blk? && p.span == span ==> p.idx < start
    requires n > 0
    ensures Blk(span, start) !in LiveBlocks(v) && LiveBlocks(CarveView(v, t, span, start, n)) == LiveBlocks(v) + {Blk(span, start)}
  {
  }

  lemma CarveGrows(core: Core, v: View, flushing: set<(nat, nat)>, t: nat, c: nat, span: nat, start: nat, n: nat)
    requires CanCarve(core, v, flushing, t, c, span, start, n)
    ensures CutsGrow(core, CarveCore(core, t, c, span, start, n))
  {
    CarveBehind(core, v, flushing, t, c, span, start, n);
    assert GlobalOk(core, v, c);
    forall s: nat ensures CutMark(core, s) <= CutMark(CarveCore(core, t, c, span, start, n), s) {
      CarveMark(core, v, t, c, span, start, n, s);
    }
  }

  lemma BatchLive(core: Core, v: View, flushing: set<(nat, nat)>, t: nat, c: nat)
    requires CanBatch(core, v, flushing, t, c)
    ensures var p := core.globals[c].batches;
            p.Blk? && p !in LiveBlocks(v) && LiveBlocks(BatchView(v, t, c)) == LiveBlocks(v) + {p}
            && p.span < |core.spanClass| && core.spanClass[p.span] == c
  {
    var k := |v.tops[c]| - 1;
    var s := ListAt(v, Batch(c, k));
    assert ListOk(core, v, Batch(c, k));
    BlockClass(core, v, flushing, s[0]);
    ListedLive(v, s, Batch(c, k), Cache(t, c));
  }

  /** What the heads say of the lists. */
  lemma NothingListed(core: Core, v: View, flushing: set<(nat, nat)>, t: nat, c: nat)
    requires Ok(core, v, flushing) && c < CLASSES
    ensures BinAt(core, t, c).head.Null? <==> ListAt(v, Cache(t, c)) == []
    ensures core.globals[c].batches.Null? <==> v.tops[c] == []
    ensures core.globals[c].loose.Null? <==> ListAt(v, Loose(c)) == []
  {
    assert ListOk(core, v, Cache(t, c)) && ListOk(core, v, Loose(c)) && GlobalOk(core, v, c);
    if v.tops[c] != [] {
      assert BatchLink(core.w1, v.tops[c], |v.tops[c]| - 1);
    }
  }

  /** Sending all of one list's blocks to another place and the first to the program. */
  lemma ListedLive(v: View, s: seq<Ptr>, from: ListId, to: ListId)
    requires s != [] && forall i :: 0 <= i < |s| ==> s[i] in v.place && v.place[s[i]] == In(from)
    ensures var place := PlaceAll(v.place, s, In(to))[s[0] := Live];
            LiveBlocks(v.(place := place)) == LiveBlocks(v) + {s[0]} && s[0] !in LiveBlocks(v)
  {
  }

  lemma LooseLive(core: Core, v: View, flushing: set<(nat, nat)>, t: nat, c: nat, n: nat)
    requires Ok(core, v, flushing) && c < CLASSES && LooseFront(core, v, t, c, n)
    ensures var s := ListAt(v, Loose(c));
            s[0].Blk? && s[0] !in LiveBlocks(v) && LiveBlocks(LooseView(v, t, c, n)) == LiveBlocks(v) + {s[0]}
            && s[0].span < |core.spanClass| && core.spanClass[s[0].span] == c && s[n - 1] !in LiveBlocks(v)
  {
    var s := ListAt(v, Loose(c));
    BlockClass(core, v, flushing, s[0]);
    ListedLive(v, s[..n], Loose(c), Cache(t, c));
  }

  lemma LooseUntouched(core: Core, v: View, t: nat, c: nat, n: nat)
    requires LooseFront(core, v, t, c, n)
    ensures var s := ListAt(v, Loose(c));
            LiveUntouched(core, v, LooseCore(core, t, c, s[0], s[n - 1], n), LooseView(v, t, c, n))
  {
  }

  lemma SpillLive(core: Core, v: View, flushing: set<(nat, nat)>, t: nat, c: nat)
    requires Ok(core, v, flushing) && c < CLASSES && |ListAt(v, Cache(t, c))| >= BATCH
    ensures LiveBlocks(SpillView(v, t, c)) == LiveBlocks(v)
    ensures ListAt(v, Cache(t, c))[BATCH - 1] !in LiveBlocks(v) && BinAt(core, t, c).head !in LiveBlocks(v)
  {
    var s := ListAt(v, Cache(t, c));
    assert ListOk(core, v, Cache(t, c));
    forall p | p in s[..BATCH] ensures p in v.place && v.place[p] == In(Cache(t, c)) {
      assert p in s;
    }
  }

  /** With the list and the window empty, a zero count is right again. */
  lemma ResetOk(core: Core, v: View, flushing: set<(nat, nat)>, t: nat, c: nat)
    requires Ok(core, v, flushing) && BinAt(core, t, c).head.Null?
    ensures ListAt(v, Cache(t, c)) == []
    ensures Ok(SetBin(core, t, c, BinAt(core, t, c).(count := 0)), v, flushing - {(t, c)})
  {
    var core' := SetBin(core, t, c, BinAt(core, t, c).(count := 0));
    assert ListOk(core, v, Cache(t, c));
    forall id ensures ListOk(core', v, id) {
      assert ListOk(core, v, id);
      ListFrame(core, v, core', v, id);
    }
    forall p | p in v.place ensures BlockOk(core', v, p) {
      assert BlockOk(core, v, p);
    }
    RestKept(core, v, core', v, flushing, t, c);
    forall t': nat, c': nat | (t', c') !in flushing - {(t, c)} ensures CountOk(core', v, t', c') {
      assert (t', c') == (t, c) || CountOk(core, v, t', c');
    }
  }

  // ----- whole runs -----

  /** One atomic step of some thread. */
  datatype Op =
    | DoAlloc(t: nat, size: nat)
    | DoFree(t: nat, p: Ptr, threadsOn: bool)
    | DoWrite(p: Ptr, k: nat, x: Ptr)
    | DoRealloc(t: nat, p: Ptr, size: nat, threadsOn: bool)
    | DoLeave(t: nat, c: nat)
    | DoFlush(t: nat, c: nat)

  predicate Leaving(flushing: set<(nat, nat)>, t: nat) {
    exists x :: x in flushing && x.0 == t
  }

  /** The allocator's state: its words, where every block is, and the caches being handed back. */
  datatype Snapshot = Snapshot(core: Core, view: View, rest: map<(Ptr, nat), Ptr>, flushing: set<(nat, nat)>)
  {
    ghost predicate Shaped() {
      && |core.globals| == CLASSES == |view.tops|
      && forall p {:trigger p in LiveBlocks(view)} :: p in LiveBlocks(view) ==> p.Blk? && p.span < |core.spanClass|
    }

    /** The program may free, write or move `p`. */
    ghost predicate Holds(p: Ptr) {
      p in LiveBlocks(view)
    }
  }

  /** What a request of thread `t` does. */
  ghost predicate AllocDid(a: Snapshot, t: nat, size: nat, spans: nat, p: Ptr, b: Snapshot)
    requires a.Shaped()
  {
    && b.rest == a.rest && b.flushing == a.flushing && LiveUntouched(a.core, a.view, b.core, b.view)
    && (p.Null? <==> size > SLAB_MAX || Exhausted(a.core, a.view, spans, t, ClassFor(size)))
    && (p.Null? ==> b == a)
    && (p.Blk? ==> Answered(a.core, a.view, b.view, t, ClassFor(size), p))
    && (p.Blk? ==> p !in LiveBlocks(a.view) && LiveBlocks(b.view) == LiveBlocks(a.view) + {p})
  }

  ghost predicate FreeDid(a: Snapshot, t: nat, p: Ptr, threadsOn: bool, b: Snapshot)
    requires a.Shaped() && a.Holds(p)
  {
    && b.rest == a.rest && b.flushing == a.flushing && LiveUntouched(a.core, a.view, b.core, b.view)
    && Freed(a.view, b.view, t, a.core.spanClass[p.span], p, threadsOn)
    && LiveBlocks(b.view) == LiveBlocks(a.view) - {p}
  }

  ghost predicate WriteDid(a: Snapshot, p: Ptr, k: nat, x: Ptr, b: Snapshot) {
    && b.view == a.view && b.flushing == a.flushing
    && forall q, j: nat {:trigger WordIn(b.core, b.rest, q, j)} ::
         WordIn(b.core, b.rest, q, j) == if q == p && j == k then x else WordIn(a.core, a.rest, q, j)
  }

  ghost predicate ReallocDid(a: Snapshot, t: nat, p: Ptr, size: nat, threadsOn: bool, spans: nat, q: Ptr, b: Snapshot)
    requires a.Shaped() && a.Holds(p)
  {
    var have := Size(a.core.spanClass[p.span]);
    if size <= have then q == p && b == a
    else
      && b.flushing == a.flushing && MovedTo(a.core, a.view, b.view, t, p, size, threadsOn, q)
      && (q.Null? <==> size > SLAB_MAX || Exhausted(a.core, a.view, spans, t, ClassFor(size)))
      && LiveBlocks(b.view) == LiveBlocks(a.view) - {p} + (if q.Blk? then {q} else {})
      && WordsKept(a.core, a.rest, b.core, b.rest, LiveBlocks(a.view) - {p})
      && (q.Blk? ==> forall k: nat {:trigger WordIn(b.core, b.rest, q, k)} :: k < have / 8 ==> WordIn(b.core, b.rest, q, k) == WordIn(a.core, a.rest, p, k))
  }

  ghost predicate FlushDid(a: Snapshot, t: nat, c: nat, b: Snapshot) {
    && b.rest == a.rest && LiveUntouched(a.core, a.view, b.core, b.view) && b.view == Flushed(a.core, a.view, t, c)
    && b.flushing == if b.view == a.view then a.flushing - {(t, c)} else a.flushing
  }

  /** What one operation, answering `p`, does. Steps a program cannot take (freeing or writing what it does
      not hold, working in a thread that is leaving) are skipped. */
  ghost predicate Did(a: Snapshot, op: Op, spans: nat, p: Ptr, b: Snapshot) {
    && a.Shaped()
    && match op
       case DoAlloc(t, size) => if Leaving(a.flushing, t) then b == a else AllocDid(a, t, size, spans, p, b)
       case DoFree(t, q, threadsOn) => if Leaving(a.flushing, t) || !a.Holds(q) then b == a else FreeDid(a, t, q, threadsOn, b)
       case DoWrite(q, k, x) => if a.Holds(q) then WriteDid(a, q, k, x, b) else b == a
       case DoRealloc(t, q, size, threadsOn) =>
         if Leaving(a.flushing, t) || !a.Holds(q) then b == a else ReallocDid(a, t, q, size, threadsOn, spans, p, b)
       case DoLeave(t, c) => b == a.(flushing := a.flushing + {(t, c)})
       case DoFlush(t, c) => if (t, c) in a.flushing && c < CLASSES then FlushDid(a, t, c, b) else b == a
  }

  ghost predicate DidAt(trace: seq<Snapshot>, ops: seq<Op>, spans: nat, answers: seq<Ptr>, i: nat) {
    i < |ops| && i < |answers| && i + 1 < |trace| && Did(trace[i], ops[i], spans, answers[i], trace[i + 1])
  }

  /** The states of a run: each operation in turn has done what it does. */
  ghost predicate IsRun(trace: seq<Snapshot>, ops: seq<Op>, spans: nat, answers: seq<Ptr>) {
    |trace| == |answers| + 1 && forall i: nat {:trigger DidAt(trace, ops, spans, answers, i)} :: i < |answers| ==> DidAt(trace, ops, spans, answers, i)
  }

  lemma RunMore(trace: seq<Snapshot>, ops: seq<Op>, spans: nat, answers: seq<Ptr>, p: Ptr, next: Snapshot)
    requires IsRun(trace, ops, spans, answers) && |answers| < |ops| && Did(trace[|answers|], ops[|answers|], spans, p, next)
    ensures IsRun(trace + [next], ops, spans, answers + [p])
  {
    forall i: nat | i < |answers| + 1 ensures DidAt(trace + [next], ops, spans, answers + [p], i) {
      if i < |answers| {
        assert DidAt(trace, ops, spans, answers, i);
      }
    }
  }

  /** Under every interleaving, each operation having exactly its effect, the blocks cut from the spans are
      exactly the ones that are somewhere, and each is in exactly one place; what was cut stays cut; the
      blocks the program holds, which only its own frees end, are exactly the live ones. */
  method Run(a: Allocator, ops: seq<Op>) returns (held: set<Ptr>, answers: seq<Ptr>, ghost trace: seq<Snapshot>)
    requires a.Valid() && LiveBlocks(a.view) == {}
    modifies a
    ensures a.Valid() && held == LiveBlocks(a.view)
    ensures |answers| == |ops| && IsRun(trace, ops, a.spans, answers) && trace[0] == old(a.Snap()) && trace[|ops|] == a.Snap()
    ensures CutsGrow(old(a.core), a.core)
    ensures forall p {:trigger IsCut(a.core, p)} :: IsCut(a.core, p) <==> exists at :: IsAt(a.core, a.view, p, at)
    ensures forall p, at, to {:trigger IsAt(a.core, a.view, p, at), IsAt(a.core, a.view, p, to)} ::
              IsAt(a.core, a.view, p, at) && IsAt(a.core, a.view, p, to) ==> at == to
    ensures forall t: nat, c: nat :: (t, c) !in a.flushing ==> BinAt(a.core, t, c).count == |ListAt(a.view, Cache(t, c))|
    ensures forall c: nat, k: nat :: c < CLASSES && k < |a.view.tops[c]| ==> |ListAt(a.view, Batch(c, k))| == BATCH
    ensures forall c: nat :: c < CLASSES ==> a.core.globals[c].looseN == |ListAt(a.view, Loose(c))|
  {
    held, answers, trace := {}, [], [a.Snap()];
    SameCutsGrow(a.core, a.core);
    while |answers| < |ops|
      invariant |answers| <= |ops| && a.Valid() && held == LiveBlocks(a.view) && CutsGrow(old(a.core), a.core)
      invariant IsRun(trace, ops, a.spans, answers) && trace[0] == old(a.Snap()) && trace[|answers|] == a.Snap()
    {
      var p;
      held, p := Perform(a, ops[|answers|], held);
      RunMore(trace, ops, a.spans, answers, p, a.Snap());
      answers, trace := answers + [p], trace + [a.Snap()];
    }
    RunFacts(a.core, a.view, a.flushing);
  }

  lemma ShapedIs(a: Snapshot)
    requires Ok(a.core, a.view, a.flushing)
    ensures a.Shaped()
  {
    forall p | p in LiveBlocks(a.view) ensures p.Blk? && p.span < |a.core.spanClass| {
      BlockClass(a.core, a.view, a.flushing, p);
    }
  }

  method Perform(a: Allocator, op: Op, before: set<Ptr>) returns (held: set<Ptr>, p: Ptr)
    requires a.Valid() && before == LiveBlocks(a.view)
    modifies a
    ensures a.Valid() && held == LiveBlocks(a.view) && CutsGrow(old(a.core), a.core)
    ensures Did(old(a.Snap()), op, a.spans, p, a.Snap())
  {
    held, p := before, Null;
    SameCutsGrow(a.core, a.core);
    ShapedIs(a.Snap());
    match op
    case DoAlloc(t, size) =>
      if !Leaving(a.flushing, t) {
        NotLeaving(a.flushing, t);
        p := a.Alloc(t, size);
        held := if p.Blk? then held + {p} else held;
      }
    case DoFree(t, q, threadsOn) =>
      if !Leaving(a.flushing, t) && q in held {
        NotLeaving(a.flushing, t);
        a.Free(t, q, threadsOn);
        SameCutsGrow(old(a.core), a.core);
        held := held - {q};
      }
    case DoWrite(q, k, x) =>
      if q in held {
        a.Write(q, k, x);
        SameCutsGrow(old(a.core), a.core);
      }
    case DoRealloc(t, q, size, threadsOn) =>
      if !Leaving(a.flushing, t) && q in held {
        held, p := Move(a, t, q, size, threadsOn, held);
      }
    case DoLeave(t, c) =>
      a.FlushBegin(t, c);
    case DoFlush(t, c) =>
      if (t, c) in a.flushing && c < CLASSES {
        Flush(a, t, c);
      }
  }

  method Move(a: Allocator, t: nat, q: Ptr, size: nat, threadsOn: bool, before: set<Ptr>) returns (held: set<Ptr>, p: Ptr)
    requires a.Valid() && before == LiveBlocks(a.view) && q in before && !Leaving(a.flushing, t)
    modifies a`core, a`view, a`rest
    ensures a.Valid() && held == LiveBlocks(a.view) && CutsGrow(old(a.core), a.core)
    ensures old(a.Snap()).Shaped() && ReallocDid(old(a.Snap()), t, q, size, threadsOn, a.spans, p, a.Snap())
  {
    ShapedIs(a.Snap());
    NotLeaving(a.flushing, t);
    var words;
    p, words := a.Realloc(t, q, size, threadsOn);
    held := if p == q then before else before - {q} + (if p.Blk? then {p} else {});
    CopiedIs(old(a.core), old(a.rest), q, a.core, a.rest, p, words);
  }

  lemma CopiedIs(core: Core, rest: map<(Ptr, nat), Ptr>, p: Ptr, core': Core, rest': map<(Ptr, nat), Ptr>, q: Ptr, words: seq<Ptr>)
    requires BlockIs(core, rest, p, words)
    ensures BlockIs(core', rest', q, words) ==>
              forall k: nat {:trigger WordIn(core', rest', q, k)} :: k < |words| ==> WordIn(core', rest', q, k) == WordIn(core, rest, p, k)
  {
    forall k: nat | BlockIs(core', rest', q, words) && k < |words| ensures WordIn(core', rest', q, k) == WordIn(core, rest, p, k) {
      assert WordIn(core', rest', q, k) == words[k] == WordIn(core, rest, p, k);
    }
  }

  method Flush(a: Allocator, t: nat, c: nat)
    requires a.Valid() && (t, c) in a.flushing && c < CLASSES
    modifies a`core, a`view, a`flushing
    ensures a.Valid() && LiveBlocks(a.view) == old(LiveBlocks(a.view)) && CutsGrow(old(a.core), a.core)
    ensures FlushDid(old(a.Snap()), t, c, a.Snap())
  {
    var done := a.FlushStep(t, c);
    SameCutsGrow(old(a.core), a.core);
    assert !done ==> |ListAt(a.view, Loose(c))| != |ListAt(old(a.view), Loose(c))|;
  }

  lemma NotLeaving(flushing: set<(nat, nat)>, t: nat)
    requires !Leaving(flushing, t)
    ensures forall c: nat :: (t, c) !in flushing
  {
  }

  lemma RunFacts(core: Core, v: View, flushing: set<(nat, nat)>)
    requires Ok(core, v, flushing)
    ensures forall p {:trigger IsCut(core, p)} :: IsCut(core, p) <==> exists at :: IsAt(core, v, p, at)
    ensures forall p, at, to {:trigger IsAt(core, v, p, at), IsAt(core, v, p, to)} ::
              IsAt(core, v, p, at) && IsAt(core, v, p, to) ==> at == to
    ensures forall t: nat, c: nat :: (t, c) !in flushing ==> BinAt(core, t, c).count == |ListAt(v, Cache(t, c))|
    ensures forall c: nat, k: nat :: c < CLASSES && k < |v.tops[c]| ==> |ListAt(v, Batch(c, k))| == BATCH
    ensures forall c: nat :: c < CLASSES ==> core.globals[c].looseN == |ListAt(v, Loose(c))|
  {
    forall p ensures IsCut(core, p) <==> exists at :: IsAt(core, v, p, at) {
      ExactlyOnePlace(core, v, flushing, p);
    }
    forall p, at, to | IsAt(core, v, p, at) && IsAt(core, v, p, to) ensures at == to {
      ExactlyOnePlace(core, v, flushing, p);
    }
    forall t: nat, c: nat | (t, c) !in flushing ensures BinAt(core, t, c).count == |ListAt(v, Cache(t, c))| {
      assert CountOk(core, v, t, c);
    }
    forall c: nat | c < CLASSES ensures core.globals[c].looseN == |ListAt(v, Loose(c))| {
      assert GlobalOk(core, v, c);
    }
    forall c: nat, k: nat | c < CLASSES && k < |v.tops[c]| ensures |ListAt(v, Batch(c, k))| == BATCH {
      assert GlobalOk(core, v, c) && BatchLink(core.w1, v.tops[c], k) && ListOk(core, v, Batch(c, k));
    }
  }

  /** Two blocks the allocator has cut never share a byte, and each is aligned, inside its own span,
      and found again there by the address arithmetic of `rt_free`. */
  lemma PlacedApart(core: Core, v: View, flushing: set<(nat, nat)>, base: nat, p: Ptr, q: Ptr)
    requires Ok(core, v, flushing) && base % 16 == 0 && IsCut(core, p) && IsCut(core, q) && p != q
    ensures p.Blk? && q.Blk? && p.span < |core.spanClass| && q.span < |core.spanClass|
    ensures var c, d := core.spanClass[p.span], core.spanClass[q.span];
            var x, y := Addr(base, c, p.span, p.idx), Addr(base, d, q.span, q.idx);
            && x % 16 == 0 && SpanOf(base, x) == p.span && x + Size(c) <= base + (p.span + 1) * SPAN
            && (x + Size(c) <= y || y + Size(d) <= x)
  {
    CutIsPlaced(core, v, flushing, p);
    CutIsPlaced(core, v, flushing, q);
    assert BlockOk(core, v, p) && BlockOk(core, v, q);
    var c, d := core.spanClass[p.span], core.spanClass[q.span];
    BlockPlaced(base, c, p.span, p.idx, p.idx + 1);
    BlocksDisjoint(base, c, p.span, p.idx, p.idx + 1, d, q.span, q.idx, q.idx + 1);
  }
}
