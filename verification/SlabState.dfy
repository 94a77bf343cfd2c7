/** The slab allocator's state: every thread's cache of every class, the shared batches and loose
    lists, and the words of the free blocks that link them. `Ok` says where every block is. */
module SlabState {
  import opened SlabGeometry

  const BATCH: nat := 64
  const HIGH: nat := 128

  /** A block of the slab, by span and index, or no block. */
  datatype Ptr = Null | Blk(span: nat, idx: nat)

  /** One class of one thread's cache: a linked list, its counted length, and an uncut window,
      blocks `cur` up to `end` of a span. */
  datatype Bin = Bin(head: Ptr, count: nat, span: nat, cur: nat, end: nat)

  /** One class's shared part; `bump` is the next uncut block of its current span, if it has one. */
  datatype Global = Global(batches: Ptr, loose: Ptr, looseN: nat, hasSpan: bool, span: nat, bump: nat)

  /** `w0` and `w1` are the first two words of every block. */
  datatype Core = Core(spanClass: seq<nat>, bins: map<(nat, nat), Bin>, globals: seq<Global>, w0: map<Ptr, Ptr>, w1: map<Ptr, Ptr>)

  function At(w: map<Ptr, Ptr>, p: Ptr): Ptr {
    if p in w then w[p] else Null
  }

  /** Static and thread-local memory starts out zero. */
  function BinAt(core: Core, t: nat, c: nat): Bin {
    if (t, c) in core.bins then core.bins[(t, c)] else Bin(Null, 0, 0, 0, 0)
  }

  function SetBin(core: Core, t: nat, c: nat, b: Bin): (r: Core)
    ensures forall t': nat, c': nat :: BinAt(r, t', c') == if (t', c') == (t, c) then b else BinAt(core, t', c')
    ensures r.spanClass == core.spanClass && r.globals == core.globals && r.w0 == core.w0 && r.w1 == core.w1
  {
    core.(bins := core.bins[(t, c) := b])
  }

  datatype ListId = Cache(t: nat, c: nat) | Loose(c: nat) | Batch(c: nat, k: nat)

  datatype Place = Live | Window(t: nat) | In(id: ListId)

  /** What the words mean: where each block is, what each list holds, and the heads of the shared
      batches of each class, oldest first. */
  datatype View = View(place: map<Ptr, Place>, lists: map<ListId, seq<Ptr>>, tops: seq<seq<Ptr>>)

  function ListAt(v: View, id: ListId): seq<Ptr> {
    if id in v.lists then v.lists[id] else []
  }

  ghost predicate Chain(w: map<Ptr, Ptr>, head: Ptr, s: seq<Ptr>)
    decreases |s|
  {
    if s == [] then head.Null? else head == s[0] && head.Blk? && Chain(w, At(w, head), s[1..])
  }

  ghost predicate NoDup(s: seq<Ptr>) {
    forall i, j :: 0 <= i < j < |s| ==> s[i] != s[j]
  }

  function HeadAt(core: Core, v: View, id: ListId): Ptr {
    match id
    case Cache(t, c) => BinAt(core, t, c).head
    case Loose(c) => if c < |core.globals| then core.globals[c].loose else Null
    case Batch(c, k) => if c < |v.tops| && k < |v.tops[c]| then v.tops[c][k] else Null
  }

  ghost predicate ListOk(core: Core, v: View, id: ListId) {
    var s := ListAt(v, id);
    && Chain(core.w0, HeadAt(core, v, id), s)
    && NoDup(s)
    && (forall i :: 0 <= i < |s| ==> s[i] in v.place && v.place[s[i]] == In(id))
    && (id.Batch? && s != [] ==> |s| == BATCH)
  }

  ghost predicate BlockOk(core: Core, v: View, p: Ptr)
    requires p in v.place
  {
    && p.Blk? && p.span < |core.spanClass| && Within(core.spanClass[p.span], p.idx + 1)
    && match v.place[p]
       case Live => true
       case Window(t) => var b := BinAt(core, t, core.spanClass[p.span]); b.span == p.span && b.cur <= p.idx < b.end
       case In(id) => p in ListAt(v, id) && id.c == core.spanClass[p.span]
  }

  ghost predicate WindowOk(core: Core, v: View, t: nat, c: nat) {
    var b := BinAt(core, t, c);
    && b.cur <= b.end
    && (b.cur < b.end ==> b.span < |core.spanClass| && core.spanClass[b.span] == c)
    && (forall i :: b.cur <= i < b.end ==> Blk(b.span, i) in v.place && v.place[Blk(b.span, i)] == Window(t))
  }

  /** The second word of a batch's first block names the batch below it. */
  ghost predicate BatchLink(w1: map<Ptr, Ptr>, tops: seq<Ptr>, k: nat)
    requires k < |tops|
  {
    tops[k].Blk? && At(w1, tops[k]) == if k == 0 then Null else tops[k - 1]
  }

  ghost predicate GlobalOk(core: Core, v: View, c: nat)
    requires c < |core.globals| == |v.tops|
  {
    var g, tops := core.globals[c], v.tops[c];
    && g.batches == (if tops == [] then Null else tops[|tops| - 1])
    && (forall k :: 0 <= k < |tops| ==> BatchLink(core.w1, tops, k))
    && g.looseN == |ListAt(v, Loose(c))|
    && (g.hasSpan ==> g.span < |core.spanClass| && core.spanClass[g.span] == c && Within(c, g.bump))
    && (g.hasSpan ==> c < CLASSES && Filled(c, g.bump) == Filled(c, 0))
  }

  /** How many blocks have been cut from a span: up to `bump` from the current one of its class, and as
      many as whole windows fit from one its class has left behind. */
  function CutMark(core: Core, s: nat): nat {
    if s >= |core.spanClass| then 0 else
    var c := core.spanClass[s];
    if c < |core.globals| && core.globals[c].hasSpan && core.globals[c].span == s then core.globals[c].bump
    else if c < CLASSES then Filled(c, 0)
    else 0
  }

  predicate IsCut(core: Core, p: Ptr) {
    p.Blk? && p.idx < CutMark(core, p.span)
  }

  /** Exactly the blocks cut from the span are somewhere. */
  ghost predicate SpanOk(core: Core, v: View, s: nat) {
    forall i: nat :: Blk(s, i) in v.place <==> i < CutMark(core, s)
  }

  ghost predicate CountOk(core: Core, v: View, t: nat, c: nat) {
    BinAt(core, t, c).count == |ListAt(v, Cache(t, c))|
  }

  ghost predicate Ok(core: Core, v: View, flushing: set<(nat, nat)>) {
    && |core.globals| == CLASSES == |v.tops|
    && (forall i :: 0 <= i < |core.spanClass| ==> core.spanClass[i] < CLASSES)
    && (forall id {:trigger ListOk(core, v, id)} :: ListOk(core, v, id))
    && (forall p {:trigger BlockOk(core, v, p)} :: p in v.place ==> BlockOk(core, v, p))
    && (forall t, c {:trigger WindowOk(core, v, t, c)} :: WindowOk(core, v, t, c))
    && (forall c {:trigger GlobalOk(core, v, c)} :: 0 <= c < CLASSES ==> GlobalOk(core, v, c))
    && (forall s: nat {:trigger SpanOk(core, v, s)} :: SpanOk(core, v, s))
    && (forall t: nat, c: nat {:trigger CountOk(core, v, t, c)} :: (t, c) !in flushing ==> CountOk(core, v, t, c))
  }

  // ----- chains -----

  /** A chain depends only on the words of its own blocks. */
  lemma {:induction false} ChainFrame(w: map<Ptr, Ptr>, w': map<Ptr, Ptr>, head: Ptr, s: seq<Ptr>)
    requires Chain(w, head, s) && forall i :: 0 <= i < |s| ==> At(w', s[i]) == At(w, s[i])
    ensures Chain(w', head, s)
    decreases |s|
  {
    if s != [] {
      assert forall i :: 0 <= i < |s[1..]| ==> s[1..][i] == s[i + 1];
      ChainFrame(w, w', At(w, head), s[1..]);
    }
  }

  /** Following `n` links leads to the rest of the chain. */
  lemma {:induction false} ChainDrop(w: map<Ptr, Ptr>, head: Ptr, s: seq<Ptr>, n: nat)
    requires Chain(w, head, s) && 0 < n <= |s|
    ensures Chain(w, At(w, s[n - 1]), s[n..])
    ensures n < |s| ==> At(w, s[n - 1]) == s[n]
    decreases |s|
  {
    if n > 1 {
      ChainDrop(w, At(w, head), s[1..], n - 1);
      assert s[1..][n - 1..] == s[n..] && s[1..][n - 2] == s[n - 1];
      assert n < |s| ==> s[1..][n - 1] == s[n];
    }
  }

  /** Cutting a chain after its first `n` blocks. */
  lemma {:induction false} ChainCut(w: map<Ptr, Ptr>, head: Ptr, s: seq<Ptr>, n: nat)
    requires Chain(w, head, s) && 0 < n <= |s| && NoDup(s)
    ensures Chain(w[s[n - 1] := Null], head, s[..n])
    decreases |s|
  {
    var w' := w[s[n - 1] := Null];
    if n == 1 {
      assert s[..1][1..] == [];
    } else {
      assert NoDup(s[1..]);
      ChainCut(w, At(w, head), s[1..], n - 1);
      assert s[1..][n - 2] == s[n - 1] && s[1..][..n - 1] == s[..n][1..];
      assert At(w', head) == At(w, head);
    }
  }

  /** A list whose head, blocks, words and places did not change is still in order. */
  lemma ListFrame(core: Core, v: View, core': Core, v': View, id: ListId)
    requires ListOk(core, v, id)
    requires HeadAt(core', v', id) == HeadAt(core, v, id) && ListAt(v', id) == ListAt(v, id)
    requires forall i :: 0 <= i < |ListAt(v, id)| ==> At(core'.w0, ListAt(v, id)[i]) == At(core.w0, ListAt(v, id)[i])
    requires forall i :: 0 <= i < |ListAt(v, id)| ==> ListAt(v, id)[i] in v'.place && v'.place[ListAt(v, id)[i]] == In(id)
    ensures ListOk(core', v', id)
  {
    ChainFrame(core.w0, core'.w0, HeadAt(core, v, id), ListAt(v, id));
  }

  lemma GlobalFrame(core: Core, v: View, core': Core, v': View, c: nat)
    requires c < |core.globals| == |v.tops| == |core'.globals| == |v'.tops| && GlobalOk(core, v, c)
    requires core'.globals[c] == core.globals[c] && v'.tops[c] == v.tops[c] && core'.spanClass == core.spanClass
    requires core'.w1 == core.w1
    requires ListAt(v', Loose(c)) == ListAt(v, Loose(c)) && v'.place.Keys == v.place.Keys
    ensures GlobalOk(core', v', c)
  {
  }

  /** Neither the spans nor their marks differ. */
  ghost predicate SameCuts(core: Core, core': Core) {
    && core'.spanClass == core.spanClass && |core'.globals| == |core.globals|
    && forall c :: 0 <= c < |core.globals| ==> SameCut(core.globals[c], core'.globals[c])
  }

  predicate SameCut(g: Global, g': Global) {
    g'.hasSpan == g.hasSpan && g'.span == g.span && g'.bump == g.bump
  }

  /** No span is lost and no mark goes back. */
  ghost predicate CutsGrow(core: Core, core': Core) {
    core.spanClass <= core'.spanClass && forall s: nat {:trigger CutMark(core', s)} :: CutMark(core, s) <= CutMark(core', s)
  }

  lemma SameCutsGrow(core: Core, core': Core)
    requires SameCuts(core, core')
    ensures CutsGrow(core, core')
  {
    forall s: nat ensures CutMark(core, s) == CutMark(core', s) {
    }
  }

  /** With the same marks and the same blocks somewhere, every cut block still is. */
  lemma SpansFrame(core: Core, v: View, core': Core, v': View)
    requires forall s: nat {:trigger SpanOk(core, v, s)} :: SpanOk(core, v, s)
    requires SameCuts(core, core') && v'.place.Keys == v.place.Keys
    ensures forall s: nat {:trigger SpanOk(core', v', s)} :: SpanOk(core', v', s)
  {
    forall s: nat ensures SpanOk(core', v', s) {
      assert SpanOk(core, v, s);
      assert CutMark(core', s) == CutMark(core, s);
      forall i: nat ensures Blk(s, i) in v'.place <==> i < CutMark(core', s) {
        assert Blk(s, i) in v'.place.Keys <==> Blk(s, i) in v.place.Keys;
      }
    }
  }

  lemma WindowFrame(core: Core, v: View, core': Core, v': View, t: nat, c: nat)
    requires WindowOk(core, v, t, c) && BinAt(core', t, c).(head := Null, count := 0) == BinAt(core, t, c).(head := Null, count := 0)
    requires core'.spanClass == core.spanClass
    requires forall p :: p in v.place && v.place[p] == Window(t) ==> p in v'.place && v'.place[p] == Window(t)
    ensures WindowOk(core', v', t, c)
  {
  }

  /** Block `p` is at this place: the program has it, it is in a thread's window, or it is on a list. */
  ghost predicate IsAt(core: Core, v: View, p: Ptr, at: Place) {
    match at
    case Live => p in v.place && v.place[p].Live?
    case Window(t) =>
      p.Blk? && exists c :: var b := BinAt(core, t, c); b.span == p.span && b.cur <= p.idx < b.end
    case In(id) => p in ListAt(v, id)
  }

  /** A block is somewhere exactly when it has been cut from a span, and then in exactly one place:
      with the program, in one thread's window, or on one list, at one position. */
  lemma ExactlyOnePlace(core: Core, v: View, flushing: set<(nat, nat)>, p: Ptr)
    requires Ok(core, v, flushing)
    ensures IsCut(core, p) <==> exists at :: IsAt(core, v, p, at)
    ensures forall at, to :: IsAt(core, v, p, at) && IsAt(core, v, p, to) ==> at == to
    ensures forall id, i, j :: 0 <= i < j < |ListAt(v, id)| ==> !(ListAt(v, id)[i] == p == ListAt(v, id)[j])
    ensures forall at :: IsAt(core, v, p, at) ==> p in v.place && v.place[p] == at
  {
    CutIsPlaced(core, v, flushing, p);
    if p in v.place {
      PlacedThere(core, v, flushing, p);
    }
    forall at | IsAt(core, v, p, at) ensures p in v.place && v.place[p] == at {
      OnlyThere(core, v, flushing, p, at);
    }
    forall id, i, j | 0 <= i < j < |ListAt(v, id)| ensures !(ListAt(v, id)[i] == p == ListAt(v, id)[j]) {
      assert ListOk(core, v, id);
    }
  }

  lemma CutIsPlaced(core: Core, v: View, flushing: set<(nat, nat)>, p: Ptr)
    requires Ok(core, v, flushing)
    ensures IsCut(core, p) <==> p in v.place
  {
    if p in v.place {
      assert BlockOk(core, v, p);
    }
    if p.Blk? {
      assert SpanOk(core, v, p.span);
      assert p == Blk(p.span, p.idx);
    }
  }

  lemma PlacedThere(core: Core, v: View, flushing: set<(nat, nat)>, p: Ptr)
    requires Ok(core, v, flushing) && p in v.place
    ensures IsAt(core, v, p, v.place[p])
  {
    assert BlockOk(core, v, p);
  }

  lemma OnlyThere(core: Core, v: View, flushing: set<(nat, nat)>, p: Ptr, at: Place)
    requires Ok(core, v, flushing) && IsAt(core, v, p, at)
    ensures p in v.place && v.place[p] == at
  {
    match at
    case Live =>
    case Window(t) =>
      var c :| var b := BinAt(core, t, c); b.span == p.span && b.cur <= p.idx < b.end;
      assert WindowOk(core, v, t, c);
      assert p == Blk(BinAt(core, t, c).span, p.idx);
    case In(id) =>
      assert ListOk(core, v, id);
  }
}
