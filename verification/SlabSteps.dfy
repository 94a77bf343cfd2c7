/** What each step of the slab allocator does to the state, and why it keeps every block in exactly
    one place. The methods that perform the steps are in Slab.dfy. */
module SlabSteps {
  import opened SlabGeometry
  import opened SlabState

  /** Everything but the lists and the blocks: windows, shared parts and counts. */
  ghost predicate RestOk(core: Core, v: View, flushing: set<(nat, nat)>)
    requires |core.globals| == CLASSES == |v.tops|
  {
    && (forall t, c :: WindowOk(core, v, t, c))
    && (forall c :: 0 <= c < CLASSES ==> GlobalOk(core, v, c))
    && (forall s: nat {:trigger SpanOk(core, v, s)} :: SpanOk(core, v, s))
    && (forall t: nat, c: nat :: (t, c) !in flushing ==> CountOk(core, v, t, c))
  }

  /** Moves every block of `s` to one place. */
  ghost function PlaceAll(place: map<Ptr, Place>, s: seq<Ptr>, to: Place): (r: map<Ptr, Place>)
    ensures r.Keys == place.Keys
    ensures forall p :: p in place ==> r[p] == if p in s then to else place[p]
  {
    map p | p in place :: if p in s then to else place[p]
  }

  // ----- pop from the cache's list -----

  /** The count is the caller's: a flush leaves it alone until the list is empty. */
  function PopCore(core: Core, t: nat, c: nat, count: nat): Core {
    var b := BinAt(core, t, c);
    SetBin(core, t, c, b.(head := At(core.w0, b.head), count := count))
  }

  ghost function PopView(v: View, t: nat, c: nat): View
    requires ListAt(v, Cache(t, c)) != []
  {
    var s := ListAt(v, Cache(t, c));
    v.(place := v.place[s[0] := Live], lists := v.lists[Cache(t, c) := s[1..]])
  }

  ghost predicate CanPop(core: Core, v: View, flushing: set<(nat, nat)>, t: nat, c: nat, count: nat) {
    && Ok(core, v, flushing) && ListAt(v, Cache(t, c)) != []
    && ((t, c) !in flushing ==> count == |ListAt(v, Cache(t, c))| - 1)
    && BinAt(core, t, c).head == ListAt(v, Cache(t, c))[0]
  }

  /** A list with a head block is not empty, and is counted. */
  lemma CachePops(core: Core, v: View, flushing: set<(nat, nat)>, t: nat, c: nat)
    requires Ok(core, v, flushing) && BinAt(core, t, c).head.Blk?
    ensures ListAt(v, Cache(t, c)) != [] && BinAt(core, t, c).head == ListAt(v, Cache(t, c))[0]
    ensures (t, c) !in flushing ==> BinAt(core, t, c).count == |ListAt(v, Cache(t, c))|
  {
    assert ListOk(core, v, Cache(t, c));
    assert (t, c) !in flushing ==> CountOk(core, v, t, c);
  }

  lemma PopOk(core: Core, v: View, flushing: set<(nat, nat)>, t: nat, c: nat, count: nat)
    requires CanPop(core, v, flushing, t, c, count)
    ensures Ok(PopCore(core, t, c, count), PopView(v, t, c), flushing)
  {
    PopLists(core, v, flushing, t, c, count);
    PopRest(core, v, flushing, t, c, count);
  }

  lemma PopLists(core: Core, v: View, flushing: set<(nat, nat)>, t: nat, c: nat, count: nat)
    requires CanPop(core, v, flushing, t, c, count)
    ensures forall id :: ListOk(PopCore(core, t, c, count), PopView(v, t, c), id)
    ensures forall p :: p in PopView(v, t, c).place ==> BlockOk(PopCore(core, t, c, count), PopView(v, t, c), p)
  {
    var me, s := Cache(t, c), ListAt(v, Cache(t, c));
    var core', v' := PopCore(core, t, c, count), PopView(v, t, c);
    assert ListOk(core, v, me);
    SliceMembers(s, 1);
    forall id ensures ListOk(core', v', id) {
      assert ListOk(core, v, id);
      if id != me {
        ListFrame(core, v, core', v', id);
      }
    }
    forall p | p in v'.place ensures BlockOk(core', v', p) {
      assert p in v.place;
      assert BlockOk(core, v, p);
    }
  }

  /** The two parts of a duplicate-free list. */
  lemma SliceMembers(s: seq<Ptr>, n: nat)
    requires n <= |s| && NoDup(s)
    ensures NoDup(s[..n]) && NoDup(s[n..])
    ensures forall p :: p in s[n..] <==> p in s && p !in s[..n]
    ensures forall p :: p in s[..n] ==> p in s
    ensures forall i :: 0 <= i < |s[n..]| ==> s[n..][i] == s[n + i]
  {
  }

  lemma PopRest(core: Core, v: View, flushing: set<(nat, nat)>, t: nat, c: nat, count: nat)
    requires CanPop(core, v, flushing, t, c, count)
    ensures RestOk(PopCore(core, t, c, count), PopView(v, t, c), flushing)
  {
    var core', v' := PopCore(core, t, c, count), PopView(v, t, c);
    assert ListOk(core, v, Cache(t, c));
    assert v'.place.Keys == v.place.Keys;
    RestKept(core, v, core', v', flushing, t, c);
  }

  /** A step that touches one cache's list, no window and nothing shared. */
  lemma RestKept(core: Core, v: View, core': Core, v': View, flushing: set<(nat, nat)>, t: nat, c: nat)
    requires Ok(core, v, flushing) && |core'.globals| == CLASSES == |v'.tops|
    requires core'.spanClass == core.spanClass && core'.globals == core.globals && core'.w1 == core.w1
    requires v'.tops == v.tops && v'.place.Keys == v.place.Keys
    requires forall c' :: ListAt(v', Loose(c')) == ListAt(v, Loose(c'))
    requires forall t': nat, c': nat :: (t', c') != (t, c) ==>
               BinAt(core', t', c') == BinAt(core, t', c') && ListAt(v', Cache(t', c')) == ListAt(v, Cache(t', c'))
    requires BinAt(core', t, c).(head := Null, count := 0) == BinAt(core, t, c).(head := Null, count := 0)
    requires forall p :: p in v.place && v.place[p].Window? ==> p in v'.place && v'.place[p] == v.place[p]
    requires (t, c) !in flushing ==> CountOk(core', v', t, c)
    ensures RestOk(core', v', flushing)
  {
    SpansFrame(core, v, core', v');
    forall t', c' ensures WindowOk(core', v', t', c') {
      assert WindowOk(core, v, t', c');
      WindowFrame(core, v, core', v', t', c');
    }
    forall c' | 0 <= c' < CLASSES ensures GlobalOk(core', v', c') {
      GlobalFrame(core, v, core', v', c');
    }
    forall t': nat, c': nat | (t', c') !in flushing ensures CountOk(core', v', t', c') {
      assert CountOk(core, v, t', c');
    }
  }

  // ----- cut one block from the cache's window -----

  function CutCore(core: Core, t: nat, c: nat): Core {
    var b := BinAt(core, t, c);
    SetBin(core, t, c, b.(cur := b.cur + 1))
  }

  ghost function CutView(core: Core, v: View, t: nat, c: nat): View {
    v.(place := v.place[Blk(BinAt(core, t, c).span, BinAt(core, t, c).cur) := Live])
  }

  lemma CutOk(core: Core, v: View, flushing: set<(nat, nat)>, t: nat, c: nat)
    requires Ok(core, v, flushing) && BinAt(core, t, c).cur < BinAt(core, t, c).end
    ensures var p := Blk(BinAt(core, t, c).span, BinAt(core, t, c).cur);
            p in v.place && v.place[p] == Window(t) && p.span < |core.spanClass| && core.spanClass[p.span] == c
    ensures Ok(CutCore(core, t, c), CutView(core, v, t, c), flushing)
  {
    assert WindowOk(core, v, t, c);
    CutLists(core, v, flushing, t, c);
    CutRest(core, v, flushing, t, c);
  }

  lemma CutLists(core: Core, v: View, flushing: set<(nat, nat)>, t: nat, c: nat)
    requires Ok(core, v, flushing) && BinAt(core, t, c).cur < BinAt(core, t, c).end
    ensures forall id :: ListOk(CutCore(core, t, c), CutView(core, v, t, c), id)
    ensures forall p :: p in CutView(core, v, t, c).place ==> BlockOk(CutCore(core, t, c), CutView(core, v, t, c), p)
  {
    assert WindowOk(core, v, t, c);
    var core', v' := CutCore(core, t, c), CutView(core, v, t, c);
    forall id ensures ListOk(core', v', id) {
      assert ListOk(core, v, id);
      ListFrame(core, v, core', v', id);
    }
    forall p | p in v'.place ensures BlockOk(core', v', p) {
      assert BlockOk(core, v, p);
    }
  }

  lemma CutRest(core: Core, v: View, flushing: set<(nat, nat)>, t: nat, c: nat)
    requires Ok(core, v, flushing) && BinAt(core, t, c).cur < BinAt(core, t, c).end
    ensures RestOk(CutCore(core, t, c), CutView(core, v, t, c), flushing)
  {
    assert WindowOk(core, v, t, c);
    var core', v' := CutCore(core, t, c), CutView(core, v, t, c);
    assert v'.place.Keys == v.place.Keys;
    SpansFrame(core, v, core', v');
    forall t', c' ensures WindowOk(core', v', t', c') {
      assert WindowOk(core, v, t', c');
    }
    forall c' | 0 <= c' < CLASSES ensures GlobalOk(core', v', c') {
      GlobalFrame(core, v, core', v', c');
    }
    forall t': nat, c': nat | (t', c') !in flushing ensures CountOk(core', v', t', c') {
      assert CountOk(core, v, t', c');
    }
  }

  // ----- push onto the cache's list -----

  function PushCore(core: Core, t: nat, c: nat, p: Ptr): Core {
    var b := BinAt(core, t, c);
    SetBin(core.(w0 := core.w0[p := b.head]), t, c, b.(head := p, count := b.count + 1))
  }

  ghost function PushView(v: View, t: nat, c: nat, p: Ptr): View {
    v.(place := v.place[p := In(Cache(t, c))], lists := v.lists[Cache(t, c) := [p] + ListAt(v, Cache(t, c))])
  }

  /** The span table gives a live block's class back. */
  ghost predicate CanPush(core: Core, v: View, flushing: set<(nat, nat)>, t: nat, c: nat, p: Ptr) {
    && Ok(core, v, flushing) && (t, c) !in flushing
    && p in v.place && v.place[p].Live? && p.Blk? && p.span < |core.spanClass| && core.spanClass[p.span] == c
  }

  lemma PushOk(core: Core, v: View, flushing: set<(nat, nat)>, t: nat, c: nat, p: Ptr)
    requires CanPush(core, v, flushing, t, c, p)
    ensures Ok(PushCore(core, t, c, p), PushView(v, t, c, p), flushing)
  {
    PushLists(core, v, flushing, t, c, p);
    PushBlocks(core, v, flushing, t, c, p);
    var core', v' := PushCore(core, t, c, p), PushView(v, t, c, p);
    assert v'.place.Keys == v.place.Keys;
    assert CountOk(core, v, t, c);
    RestKept(core, v, core', v', flushing, t, c);
  }

  lemma PushLists(core: Core, v: View, flushing: set<(nat, nat)>, t: nat, c: nat, p: Ptr)
    requires CanPush(core, v, flushing, t, c, p)
    ensures forall id :: ListOk(PushCore(core, t, c, p), PushView(v, t, c, p), id)
  {
    var me, s := Cache(t, c), ListAt(v, Cache(t, c));
    var core', v' := PushCore(core, t, c, p), PushView(v, t, c, p);
    forall id ensures ListOk(core', v', id) {
      assert ListOk(core, v, id);
      if id != me {
        ListFrame(core, v, core', v', id);
      } else {
        ChainFrame(core.w0, core'.w0, HeadAt(core, v, me), s);
        assert ([p] + s)[1..] == s;
      }
    }
  }

  lemma PushBlocks(core: Core, v: View, flushing: set<(nat, nat)>, t: nat, c: nat, p: Ptr)
    requires CanPush(core, v, flushing, t, c, p)
    ensures forall q :: q in PushView(v, t, c, p).place ==> BlockOk(PushCore(core, t, c, p), PushView(v, t, c, p), q)
  {
    forall q | q in PushView(v, t, c, p).place ensures BlockOk(PushCore(core, t, c, p), PushView(v, t, c, p), q) {
      assert BlockOk(core, v, q);
    }
  }

  // ----- moving the front of one list to another -----

  /** What the destination gets of the first `n` blocks. */
  function Taken(s: seq<Ptr>, n: nat, pop: bool): seq<Ptr>
    requires 0 < n <= |s|
  {
    if pop then s[1..n] else s[..n]
  }

  lemma TakenMembers(s: seq<Ptr>, n: nat, pop: bool)
    requires 0 < n <= |s| && NoDup(s)
    ensures NoDup(Taken(s, n, pop))
    ensures forall p :: p in Taken(s, n, pop) <==> p in s[..n] && !(pop && p == s[0])
    ensures forall p :: p in s[n..] <==> p in s && p !in s[..n]
    ensures forall p :: p in s[..n] ==> p in s
    ensures NoDup(s[n..])
  {
  }

  /** Cut after `n`, with or without its first block, the front is a chain of its own. */
  lemma TakenChain(w: map<Ptr, Ptr>, w': map<Ptr, Ptr>, head: Ptr, s: seq<Ptr>, n: nat, pop: bool)
    requires Chain(w, head, s) && NoDup(s) && 0 < n <= |s|
    requires forall p :: At(w', p) == if p == s[n - 1] then Null else At(w, p)
    ensures Chain(w', if pop then At(w', s[0]) else s[0], Taken(s, n, pop))
  {
    ChainCut(w, head, s, n);
    ChainFrame(w[s[n - 1] := Null], w', s[0], s[..n]);
    assert s[..n][1..] == s[1..n] && s[..n][0] == s[0];
  }

  /** The first `n` blocks of list `src` become list `dst`, which was empty; under `pop` the very
      first of them goes to the program instead. `src` keeps the rest. */
  ghost predicate Transferred(core: Core, v: View, core': Core, v': View, src: ListId, dst: ListId, n: nat, pop: bool) {
    && src != dst && src.c == dst.c && 0 < n <= |ListAt(v, src)| && ListAt(v, dst) == []
    && (src.Batch? ==> n == |ListAt(v, src)|) && (dst.Batch? ==> n == BATCH && !pop)
    && BlocksMoved(v, v', src, dst, n, pop) && LinksMoved(core, v, core', v', src, dst, n, pop)
  }

  /** The places and the lists after a transfer. */
  ghost predicate BlocksMoved(v: View, v': View, src: ListId, dst: ListId, n: nat, pop: bool)
    requires 0 < n <= |ListAt(v, src)|
  {
    var s := ListAt(v, src);
    && v'.place.Keys == v.place.Keys
    && (forall p :: p in v.place ==> p in v'.place)
    && (forall p :: p in v.place ==>
          v'.place[p] == if p in s[..n] then (if pop && p == s[0] then Live else In(dst)) else v.place[p])
    && (forall id :: ListAt(v', id) == if id == src then s[n..] else if id == dst then Taken(s, n, pop) else ListAt(v, id))
  }

  /** The words, the heads and the windows after a transfer. */
  ghost predicate LinksMoved(core: Core, v: View, core': Core, v': View, src: ListId, dst: ListId, n: nat, pop: bool)
    requires 0 < n <= |ListAt(v, src)|
  {
    var s := ListAt(v, src);
    && core'.spanClass == core.spanClass
    && (forall p :: At(core'.w0, p) == if p == s[n - 1] then Null else At(core.w0, p))
    && (forall id :: id != src && id != dst ==> HeadAt(core', v', id) == HeadAt(core, v, id))
    && HeadAt(core', v', src) == At(core.w0, s[n - 1])
    && HeadAt(core', v', dst) == (if pop then At(core'.w0, s[0]) else s[0])
    && (forall t, c :: BinAt(core', t, c).(head := Null, count := 0) == BinAt(core, t, c).(head := Null, count := 0))
  }

  lemma TransferLists(core: Core, v: View, core': Core, v': View, src: ListId, dst: ListId, n: nat, pop: bool, flushing: set<(nat, nat)>)
    requires Ok(core, v, flushing) && Transferred(core, v, core', v', src, dst, n, pop)
    ensures forall id :: ListOk(core', v', id)
  {
    assert ListOk(core, v, src);
    forall id ensures ListOk(core', v', id) {
      assert ListOk(core, v, id);
      if id == src {
        TransferSrc(core, v, core', v', src, dst, n, pop);
      } else if id == dst {
        TransferDst(core, v, core', v', src, dst, n, pop);
      } else {
        TransferOther(core, v, core', v', src, dst, n, pop, id);
      }
    }
  }

  lemma TransferOther(core: Core, v: View, core': Core, v': View, src: ListId, dst: ListId, n: nat, pop: bool, id: ListId)
    requires ListOk(core, v, src) && ListOk(core, v, id) && Transferred(core, v, core', v', src, dst, n, pop)
    requires id != src && id != dst
    ensures ListOk(core', v', id)
  {
    var s, l := ListAt(v, src), ListAt(v, id);
    TakenMembers(s, n, pop);
    forall i | 0 <= i < |l| ensures l[i] !in s {
      assert v.place[l[i]] == In(id);
    }
    ListFrame(core, v, core', v', id);
  }

  lemma TransferSrc(core: Core, v: View, core': Core, v': View, src: ListId, dst: ListId, n: nat, pop: bool)
    requires ListOk(core, v, src) && Transferred(core, v, core', v', src, dst, n, pop)
    ensures ListOk(core', v', src)
  {
    var s := ListAt(v, src);
    SliceMembers(s, n);
    ChainDrop(core.w0, HeadAt(core, v, src), s, n);
    ChainFrame(core.w0, core'.w0, At(core.w0, s[n - 1]), s[n..]);
  }

  lemma TransferDst(core: Core, v: View, core': Core, v': View, src: ListId, dst: ListId, n: nat, pop: bool)
    requires ListOk(core, v, src) && Transferred(core, v, core', v', src, dst, n, pop)
    ensures ListOk(core', v', dst)
  {
    var s := ListAt(v, src);
    TakenMembers(s, n, pop);
    TakenChain(core.w0, core'.w0, HeadAt(core, v, src), s, n, pop);
    var got := Taken(s, n, pop);
    forall i | 0 <= i < |got| ensures got[i] in v'.place && v'.place[got[i]] == In(dst) {
      assert got[i] in s;
    }
  }

  lemma TransferBlocks(core: Core, v: View, core': Core, v': View, src: ListId, dst: ListId, n: nat, pop: bool, flushing: set<(nat, nat)>)
    requires Ok(core, v, flushing) && Transferred(core, v, core', v', src, dst, n, pop)
    ensures forall p :: p in v'.place ==> BlockOk(core', v', p)
  {
    assert ListOk(core, v, src);
    forall p | p in v'.place ensures BlockOk(core', v', p) {
      assert p in v'.place.Keys;
      assert p in v.place;
      assert BlockOk(core, v, p);
      TransferBlock(core, v, core', v', src, dst, n, pop, p);
    }
  }

  lemma TransferBlock(core: Core, v: View, core': Core, v': View, src: ListId, dst: ListId, n: nat, pop: bool, p: Ptr)
    requires ListOk(core, v, src) && Transferred(core, v, core', v', src, dst, n, pop)
    requires p in v.place && p in v'.place && BlockOk(core, v, p)
    ensures BlockOk(core', v', p)
  {
  }

  lemma TransferWindows(core: Core, v: View, core': Core, v': View, src: ListId, dst: ListId, n: nat, pop: bool, flushing: set<(nat, nat)>)
    requires Ok(core, v, flushing) && Transferred(core, v, core', v', src, dst, n, pop)
    ensures forall t, c :: WindowOk(core', v', t, c)
  {
    var s := ListAt(v, src);
    assert ListOk(core, v, src);
    SliceMembers(s, n);
    forall t, c ensures WindowOk(core', v', t, c) {
      assert WindowOk(core, v, t, c);
      WindowFrame(core, v, core', v', t, c);
    }
  }

  function SetGlobal(core: Core, c: nat, g: Global): Core
    requires c < |core.globals|
  {
    core.(globals := core.globals[c := g])
  }

  /** Only class `c`'s shared part and thread `t`'s cache of that class differ. */
  ghost predicate OnlyHere(core: Core, v: View, core': Core, v': View, t: nat, c: nat) {
    && |core.globals| == |core'.globals| == CLASSES == |v'.tops| == |v.tops|
    && (forall c' :: 0 <= c' < CLASSES && c' != c ==> core'.globals[c'] == core.globals[c'] && v'.tops[c'] == v.tops[c'])
    && (c < CLASSES ==> SameCut(core.globals[c], core'.globals[c]))
    && (forall c': nat, k :: c' < CLASSES && c' != c && 0 <= k < |v.tops[c']| ==> At(core'.w1, v.tops[c'][k]) == At(core.w1, v.tops[c'][k]))
    && (forall t': nat, c': nat :: (t', c') != (t, c) ==> BinAt(core', t', c') == BinAt(core, t', c'))
  }

  /** After a transfer, the shared part of one class and the count of one cache remain to be checked. */
  lemma TransferOk(core: Core, v: View, core': Core, v': View, src: ListId, dst: ListId, n: nat, pop: bool,
                   flushing: set<(nat, nat)>, t: nat, c: nat)
    requires Ok(core, v, flushing) && Transferred(core, v, core', v', src, dst, n, pop) && c < CLASSES
    requires OnlyHere(core, v, core', v', t, c)
    requires GlobalOk(core', v', c) && src.c == c
    requires (src.Cache? ==> src == Cache(t, c)) && (dst.Cache? ==> dst == Cache(t, c))
    requires CountOk(core', v', t, c)
    ensures Ok(core', v', flushing)
  {
    TransferLists(core, v, core', v', src, dst, n, pop, flushing);
    TransferBlocks(core, v, core', v', src, dst, n, pop, flushing);
    TransferWindows(core, v, core', v', src, dst, n, pop, flushing);
    SpansFrame(core, v, core', v');
    forall c': nat | c' < CLASSES ensures GlobalOk(core', v', c') {
      if c' != c {
        assert GlobalOk(core, v, c');
        assert ListAt(v', Loose(c')) == ListAt(v, Loose(c'));
        GlobalFrameWords(core, v, core', v', c');
      }
    }
    forall t': nat, c': nat | (t', c') !in flushing ensures CountOk(core', v', t', c') {
      assert CountOk(core, v, t', c');
    }
  }

  lemma GlobalFrameWords(core: Core, v: View, core': Core, v': View, c: nat)
    requires c < |core.globals| == |v.tops| == |core'.globals| == |v'.tops| && GlobalOk(core, v, c)
    requires core'.globals[c] == core.globals[c] && v'.tops[c] == v.tops[c] && core'.spanClass == core.spanClass
    requires forall k :: 0 <= k < |v.tops[c]| ==> At(core'.w1, v.tops[c][k]) == At(core.w1, v.tops[c][k])
    requires ListAt(v', Loose(c)) == ListAt(v, Loose(c)) && v'.place.Keys == v.place.Keys
    ensures GlobalOk(core', v', c)
  {
  }

  // ----- an empty cache takes a shared batch -----

  function BatchCore(core: Core, t: nat, c: nat): Core
    requires c < |core.globals|
  {
    var g, b := core.globals[c], BinAt(core, t, c);
    SetBin(SetGlobal(core, c, g.(batches := At(core.w1, g.batches))), t, c, b.(head := At(core.w0, g.batches), count := BATCH - 1))
  }

  ghost function BatchView(v: View, t: nat, c: nat): View
    requires c < |v.tops| && v.tops[c] != [] && |ListAt(v, Batch(c, |v.tops[c]| - 1))| == BATCH
  {
    var k := |v.tops[c]| - 1;
    var s := ListAt(v, Batch(c, k));
    View(PlaceAll(v.place, s, In(Cache(t, c)))[s[0] := Live],
         v.lists[Batch(c, k) := []][Cache(t, c) := s[1..BATCH]],
         v.tops[c := v.tops[c][..k]])
  }

  ghost predicate CanBatch(core: Core, v: View, flushing: set<(nat, nat)>, t: nat, c: nat) {
    && Ok(core, v, flushing) && (t, c) !in flushing && c < CLASSES && v.tops[c] != []
    && ListAt(v, Cache(t, c)) == [] && |ListAt(v, Batch(c, |v.tops[c]| - 1))| == BATCH
    && core.globals[c].batches == ListAt(v, Batch(c, |v.tops[c]| - 1))[0]
  }

  lemma SharedBatch(core: Core, v: View, flushing: set<(nat, nat)>, t: nat, c: nat)
    requires Ok(core, v, flushing) && (t, c) !in flushing && c < CLASSES
    requires BinAt(core, t, c).head.Null? && core.globals[c].batches.Blk?
    ensures CanBatch(core, v, flushing, t, c)
  {
    assert GlobalOk(core, v, c) && ListOk(core, v, Cache(t, c));
    assert ListOk(core, v, Batch(c, |v.tops[c]| - 1));
  }

  lemma BatchOk(core: Core, v: View, flushing: set<(nat, nat)>, t: nat, c: nat)
    requires CanBatch(core, v, flushing, t, c)
    ensures Ok(BatchCore(core, t, c), BatchView(v, t, c), flushing)
  {
    var core', v' := BatchCore(core, t, c), BatchView(v, t, c);
    var k := |v.tops[c]| - 1;
    assert ListOk(core, v, Batch(c, k)) && GlobalOk(core, v, c);
    BatchTransfers(core, v, t, c, k);
    BatchGlobal(core, v, t, c, k);
    BatchElsewhere(core, v, t, c, k);
    TransferOk(core, v, core', v', Batch(c, k), Cache(t, c), BATCH, true, flushing, t, c);
  }

  ghost predicate TopBatch(core: Core, v: View, t: nat, c: nat, k: nat) {
    && c < |core.globals| == |v.tops| && |v.tops[c]| == k + 1
    && ListOk(core, v, Batch(c, k)) && |ListAt(v, Batch(c, k))| == BATCH && ListAt(v, Cache(t, c)) == []
    && core.globals[c].batches == ListAt(v, Batch(c, k))[0]
  }

  lemma BatchTransfers(core: Core, v: View, t: nat, c: nat, k: nat)
    requires TopBatch(core, v, t, c, k)
    ensures Transferred(core, v, BatchCore(core, t, c), BatchView(v, t, c), Batch(c, k), Cache(t, c), BATCH, true)
  {
    BatchBlocks(core, v, t, c, k);
    var s := ListAt(v, Batch(c, k));
    assert s[BATCH..] == [];
    ChainDrop(core.w0, s[0], s, BATCH);
    BatchHeads(core, v, t, c, k);
  }

  lemma BatchBlocks(core: Core, v: View, t: nat, c: nat, k: nat)
    requires TopBatch(core, v, t, c, k)
    ensures |ListAt(v, Batch(c, k))| == BATCH && BlocksMoved(v, BatchView(v, t, c), Batch(c, k), Cache(t, c), BATCH, true)
  {
    var s, v' := ListAt(v, Batch(c, k)), BatchView(v, t, c);
    assert s[..BATCH] == s && s[BATCH..] == [];
    assert v'.place.Keys == v.place.Keys by {
      assert s[0] in v.place;
    }
  }

  lemma BatchElsewhere(core: Core, v: View, t: nat, c: nat, k: nat)
    requires TopBatch(core, v, t, c, k) && |core.globals| == CLASSES
    ensures OnlyHere(core, v, BatchCore(core, t, c), BatchView(v, t, c), t, c)
    ensures CountOk(BatchCore(core, t, c), BatchView(v, t, c), t, c)
  {
  }

  lemma BatchHeads(core: Core, v: View, t: nat, c: nat, k: nat)
    requires TopBatch(core, v, t, c, k)
    ensures forall id :: id != Batch(c, k) && id != Cache(t, c) ==>
              HeadAt(BatchCore(core, t, c), BatchView(v, t, c), id) == HeadAt(core, v, id)
    ensures HeadAt(BatchCore(core, t, c), BatchView(v, t, c), Batch(c, k)) == Null
  {
  }

  lemma BatchGlobal(core: Core, v: View, t: nat, c: nat, k: nat)
    requires TopBatch(core, v, t, c, k) && GlobalOk(core, v, c)
    ensures GlobalOk(BatchCore(core, t, c), BatchView(v, t, c), c)
  {
    var core', v' := BatchCore(core, t, c), BatchView(v, t, c);
    var tops := v.tops[c];
    assert BatchLink(core.w1, tops, k);
    assert v'.place.Keys == v.place.Keys by {
      assert ListAt(v, Batch(c, k))[0] in v.place;
    }
    forall j | 0 <= j < k ensures BatchLink(core'.w1, v'.tops[c], j) {
      assert BatchLink(core.w1, tops, j);
    }
    forall p | p in v'.place ensures p in v.place {
      assert p in v'.place.Keys;
    }
  }
}
