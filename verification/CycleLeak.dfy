/** A program that loses an object for ever: garbage below a candidate that a bounded pass may not
    sweep through. Object 0 references itself and 1, and 1 references 2; 0 is the oldest candidate, and
    the release that makes 1 candidate number 4096 starts the bounded pass. */
module CycleLeak {
  import opened Basics
  import opened CycleGraph
  import opened CycleTrial
  import opened CycleHeap
  import opened CycleExact
  import opened CycleCollector
  import opened CycleRuns

  /** Candidates between 0 and 1. */
  const FILLERS: nat := THETA_BUFFER - 2

  // ----- the graph -----

  ghost predicate LeakGraph(g: Graph) {
    && |g| >= 3 && g[0] == [To(0), To(1)] && g[1] == [To(2)] && g[2] == []
    && forall i :: 3 <= i < |g| ==> g[i] == []
  }

  lemma {:induction false} NothingBehind(g: Graph, w: seq<nat>, m: nat, y: nat)
    requires LeakGraph(g) && Progress(g, w) && 3 <= m <= |g|
    ensures Walked(g, w, m, y) == Walked(g, w, 3, y)
  {
    if m > 3 {
      assert g[m - 1] == [];
      NothingBehind(g, w, m - 1, y);
    }
  }

  lemma LeakCounts(g: Graph, reached: set<nat>, y: nat)
    requires LeakGraph(g) && {0, 1, 2} <= reached && y < 3
    ensures From(g, reached, y) == 1
  {
    var w := Whole(g, reached);
    NothingBehind(g, w, |g|, y);
    assert w[0] == 2 && w[1] == 1 && w[2] == 0;
    assert Count(g[0], 0, y) == 0;
    assert Count(g[0], 1, y) == if y == 0 then 1 else 0;
    assert Count(g[0], 2, y) == if y == 0 || y == 1 then 1 else 0;
    assert Count(g[1], 0, y) == 0;
    assert Count(g[1], 1, y) == if y == 2 then 1 else 0;
    assert Walked(g, w, 1, y) == Walked(g, w, 0, y) + Count(g[0], 2, y);
    assert Walked(g, w, 2, y) == Walked(g, w, 1, y) + Count(g[1], 1, y);
    assert Walked(g, w, 3, y) == Walked(g, w, 2, y) + Count(g[2], 0, y);
  }

  ghost predicate LeakHeap(h: seq<Header>) {
    |h| >= 3 && h[0].rc == 1 && h[1].rc == 1 && h[2].rc == 1 && h[1].buffered && !h[2].buffered
  }

  lemma LeakGarbage(g: Graph, reached: set<nat>, h: seq<Header>)
    requires LeakGraph(g) && LeakHeap(h) && |h| == |g| && Closed(g, reached) && 0 in reached
    ensures 2 in reached && Garbage(g, reached, h, 2)
  {
    assert g[0][1] == To(1) && g[1][0] == To(2);
    assert Edge(g, 0, 1) && Edge(g, 1, 2);
    if Surplus(g, reached, h, 2) {
      var r :| r in reached && r < |g| && h[r].rc > From(g, reached, r) && Reach(g, r, 2);
      if r < 3 {
        LeakCounts(g, reached, r);
      }
    }
  }

  predicate NotTwo(i: nat) {
    i != 2
  }

  /** The buffered 1 is in the way of 2. */
  lemma LeakOrphan(g: Graph, roots: seq<nat>, reached: set<nat>, h: seq<Header>)
    requires LeakGraph(g) && LeakHeap(h) && |h| == |g| && 1 !in roots && 2 !in roots
    ensures !Reclaimed(g, roots, reached, h, 2)
  {
    var pass := Passable(g, roots, reached, h);
    var r := Restrict(g, pass);
    var others := set i: nat | i < |g| && NotTwo(i);
    assert 1 !in pass && r[1] == [];
    forall x, y: nat | x in others && Edge(r, x, y) ensures y in others {
      assert r[x] == [] || r[x] == g[x];
      assert x == 0;
    }
    if ReachFrom(r, CountedRoots(roots, h), 2) {
      var x :| x in CountedRoots(roots, h) && Reach(r, x, 2);
      ClosedReach(r, others, x, 2);
    }
  }

  /** With 0 among the roots and neither 1 nor 2, the pass condemns 2 and does not free it. */
  lemma LeakPass(g: Graph, roots: seq<nat>, reached: set<nat>, h0: seq<Header>, f0: seq<nat>, h: seq<Header>, f: seq<nat>)
    requires LeakGraph(g) && LeakHeap(h0) && |h0| == |g| == |f0| && f0[2] == 0
    requires 0 in roots && 1 !in roots && 2 !in roots
    requires Spans(g, CountedRoots(roots, h0), reached) && PassExact(g, roots, reached, h0, f0, h, f)
    ensures LeftWhite(h, f, 2)
  {
    assert 0 in CountedRoots(roots, h0);
    LeakGarbage(g, reached, h0);
    LeakOrphan(g, roots, reached, h0);
    assert f[2] == 0;
  }

  // ----- the program -----

  /** Everything before the last release, with `n` fillers made. */
  ghost predicate Filled(c: Collector, n: nat)
    reads c
  {
    && c.Valid() && |c.kids| == 3 + n && LeakGraph(c.kids)
    && c.hdr[0].rc == 1 && c.hdr[1] == Header(2, Black, false) && c.hdr[2] == Header(1, Black, false)
    && c.ext[1] == 1 && c.frees[2] == 0
    && |c.cand| == n + 1 && c.cand[0] == 0 && 1 !in c.cand && 2 !in c.cand
  }

  /** After the program and any other operations, object 2 is garbage that nothing frees any more. */
  method LeakWitness(later: seq<Op>) returns (c: Collector)
    ensures c.Valid() && LeftWhite(c.hdr, c.frees, 2) && !c.hdr[2].buffered
    ensures !Accessible(c.kids, c.ext, c.local, 2)
  {
    c := new Collector();
    LeakSetup(c);
    LeakFillers(c);
    LeakRelease(c);
    ghost var h, f := c.hdr, c.frees;
    ghost var _ := Run(c, later);
    assert WhiteKept(h, f, c.hdr, c.frees, 2);
  }

  method LeakRelease(c: Collector)
    requires Filled(c, FILLERS)
    modifies c
    ensures c.Valid() && LeftWhite(c.hdr, c.frees, 2) && !c.hdr[2].buffered
  {
    ghost var h1, f0, roots := c.hdr[1 := Header(1, Purple, true)], c.frees, (c.cand + [1])[..K_ROOTS];
    assert roots == c.cand[..K_ROOTS] && roots[0] == 0 && h1[0].rc == 1;
    assert 0 in roots && 1 !in roots && 2 !in roots;
    ghost var reached := FullRelease(c);
    LeakPass(c.kids, roots, reached, h1, f0, c.hdr, c.frees);
  }

  /** The release that makes 1 candidate number 4096. */
  method FullRelease(c: Collector) returns (ghost reached: set<nat>)
    requires Filled(c, FILLERS)
    modifies c
    ensures c.Valid() && c.kids == old(c.kids) && |c.hdr| > 2 && !c.hdr[2].buffered
    ensures var h1, roots := old(c.hdr)[1 := Header(1, Purple, true)], (old(c.cand) + [1])[..K_ROOTS];
            Spans(c.kids, CountedRoots(roots, h1), reached) && PassExact(c.kids, roots, reached, h1, old(c.frees), c.hdr, c.frees)
  {
    ghost var cand1 := c.cand + [1];
    assert 2 !in cand1;
    reached := c.Release(To(1));
    assert c.OneReleased(1, reached);
    assert c.cand == cand1[K_ROOTS..] && 2 !in c.cand;
  }

  method LeakFillers(c: Collector)
    requires Filled(c, 0)
    modifies c
    ensures Filled(c, FILLERS)
  {
    var n := 0;
    while n < FILLERS
      invariant 0 <= n <= FILLERS && Filled(c, n)
    {
      LeakFiller(c, n);
      n := n + 1;
    }
  }

  /** One more candidate, which its program still holds. */
  method LeakFiller(c: Collector, ghost n: nat)
    requires n < FILLERS && Filled(c, n)
    modifies c
    ensures Filled(c, n + 1)
  {
    var p := MoreHeld(c);
    ghost var _ := c.Release(To(p));
    assert c.cand == old(c.cand) + [p];
  }

  /** A new object without references, held twice. */
  method MoreHeld(c: Collector) returns (p: nat)
    requires c.Valid()
    modifies c`kids, c`hdr, c`frees, c`ext, c`local
    ensures c.Valid() && p == |old(c.kids)| == |old(c.hdr)| == |old(c.frees)| == |old(c.ext)|
    ensures c.kids == old(c.kids) + [[]] && c.hdr == old(c.hdr) + [Header(2, Black, false)]
    ensures c.frees == old(c.frees) + [0] && c.ext == old(c.ext) + [2] && |c.local| == |c.ext| && !c.local[p]
  {
    p := c.Alloc(0);
    assert c.kids[p] == [];
    TakeHold(c, p);
    TakeHold(c, p);
  }

  method LeakSetup(c: Collector)
    requires c.Valid() && c.hdr == [] && c.cand == []
    modifies c
    ensures Filled(c, 0)
  {
    LeakObjects(c);
    LeakEdges(c);
    ghost var _ := c.Release(To(0));
  }

  method LeakObjects(c: Collector)
    requires c.Valid() && c.hdr == [] && c.cand == []
    modifies c
    ensures c.Valid() && c.kids == [[Null, Null], [Null], []] && c.cand == [] && c.frees == [0, 0, 0]
    ensures c.hdr == [Header(2, Black, false), Header(2, Black, false), Header(1, Black, false)]
    ensures c.ext == [2, 2, 1] && c.local == [false, false, false]
  {
    ThreeNew(c);
    HoldAll(c);
  }

  method ThreeNew(c: Collector)
    requires c.Valid() && c.hdr == []
    modifies c`kids, c`hdr, c`frees, c`ext, c`local
    ensures c.Valid() && c.kids == [[Null, Null], [Null], []] && c.frees == [0, 0, 0]
    ensures c.hdr == [Header(0, Black, false), Header(0, Black, false), Header(0, Black, false)]
    ensures c.ext == [0, 0, 0] && c.local == [true, true, true]
  {
    FirstNew(c);
    var _ := c.Alloc(0);
    assert c.kids[2] == [];
  }

  method FirstNew(c: Collector)
    requires c.Valid() && c.hdr == []
    modifies c`kids, c`hdr, c`frees, c`ext, c`local
    ensures c.Valid() && c.kids == [[Null, Null], [Null]] && c.frees == [0, 0]
    ensures c.hdr == [Header(0, Black, false), Header(0, Black, false)]
    ensures c.ext == [0, 0] && c.local == [true, true]
  {
    var _ := c.Alloc(2);
    assert c.kids[0] == [Null, Null] && c.kids == [[Null, Null]];
    var _ := c.Alloc(1);
    assert c.kids[1] == [Null];
  }

  method HoldAll(c: Collector)
    requires c.Valid() && |c.kids| == 3 && c.ext == [0, 0, 0] && c.local == [true, true, true]
    requires c.hdr == [Header(0, Black, false), Header(0, Black, false), Header(0, Black, false)]
    modifies c`hdr, c`ext, c`local
    ensures c.Valid() && c.ext == [2, 2, 1] && c.local == [false, false, false]
    ensures c.hdr == [Header(2, Black, false), Header(2, Black, false), Header(1, Black, false)]
  {
    TakeHold(c, 0);
    TakeHold(c, 0);
    TakeHold(c, 1);
    TakeHold(c, 1);
    TakeHold(c, 2);
  }

  method LeakEdges(c: Collector)
    requires c.Valid() && c.kids == [[Null, Null], [Null], []] && c.ext == [2, 2, 1] && c.local == [false, false, false]
    modifies c`kids, c`ext, c`alone
    ensures c.Valid() && |c.kids| == 3 && LeakGraph(c.kids) && c.ext == [1, 1, 0]
  {
    LeakLoop(c);
    var _ := c.Store(1, 0, To(2));
    assert c.kids[1] == [To(2)] && c.kids[2] == [];
  }

  /** What 0 references. */
  method LeakLoop(c: Collector)
    requires c.Valid() && c.kids == [[Null, Null], [Null], []] && c.ext == [2, 2, 1] && c.local == [false, false, false]
    modifies c`kids, c`ext, c`alone
    ensures c.Valid() && c.kids == [[To(0), To(1)], [Null], []] && c.ext == [1, 1, 1]
  {
    var _ := c.Store(0, 0, To(0));
    assert c.kids[0] == [To(0), Null];
    var _ := c.Store(0, 1, To(1));
    assert c.kids[0] == [To(0), To(1)];
  }

  method TakeHold(c: Collector, x: nat)
    requires c.Valid() && Holder(c.ext, c.local, x)
    modifies c`hdr, c`ext, c`local
    ensures c.Valid() && x < |old(c.hdr)| == |old(c.ext)| == |old(c.local)|
    ensures c.hdr == old(c.hdr)[x := old(c.hdr)[x].(rc := old(c.hdr)[x].rc + 1)]
    ensures c.ext == old(c.ext)[x := old(c.ext)[x] + 1] && c.local == old(c.local)[x := false]
  {
    HeldIsAccessible(c.kids, c.ext, c.local, x);
    c.Retain(To(x));
  }

  // ----- a chain -----

  /** Two objects, the first the only holder of the second. Dropping the first frees it, its count being
      zero, and the second is never freed, whatever follows; no cycle is involved. */
  method ChainWitness(later: seq<Op>) returns (c: Collector)
    ensures c.Valid() && |c.frees| > 1 && c.frees[0] == 1 && c.frees[1] == 0 && !Accessible(c.kids, c.ext, c.local, 1)
  {
    c := new Collector();
    ChainSetup(c);
    DropFirst(c);
    ghost var b, h, f := c.Snap(), c.hdr, c.frees;
    ghost var _ := Run(c, later);
    assert SameFields(b, c.Snap(), 0) && StaysOut(b, c.Snap(), 1) && WhiteKept(h, f, c.hdr, c.frees, 0);
    assert Edge(c.kids, 0, 1);
  }

  method ChainSetup(c: Collector)
    requires c.Valid() && c.hdr == [] && c.cand == []
    modifies c
    ensures c.Valid() && c.kids == [[To(1)], []] && c.hdr == [Header(1, Black, false), Header(1, Black, false)]
    ensures c.frees == [0, 0] && c.ext == [1, 0] && c.local == [false, false] && c.cand == []
  {
    TwoNew(c);
    ChainHold(c);
    var _ := c.Store(0, 0, To(1));
    assert c.kids[0] == [To(1)];
  }

  method ChainHold(c: Collector)
    requires c.Valid() && |c.kids| == 2 && c.ext == [0, 0] && c.local == [true, true]
    requires c.hdr == [Header(0, Black, false), Header(0, Black, false)]
    modifies c`hdr, c`ext, c`local
    ensures c.Valid() && c.hdr == [Header(1, Black, false), Header(1, Black, false)]
    ensures c.ext == [1, 1] && c.local == [false, false]
  {
    TakeHold(c, 0);
    TakeHold(c, 1);
  }

  method TwoNew(c: Collector)
    requires c.Valid() && c.hdr == []
    modifies c`kids, c`hdr, c`frees, c`ext, c`local
    ensures c.Valid() && c.kids == [[Null], []] && c.hdr == [Header(0, Black, false), Header(0, Black, false)]
    ensures c.frees == [0, 0] && c.ext == [0, 0] && c.local == [true, true]
  {
    var _ := c.Alloc(1);
    assert c.kids[0] == [Null] && c.kids == [[Null]];
    var _ := c.Alloc(0);
    assert c.kids[1] == [];
  }

  method DropFirst(c: Collector)
    requires c.Valid() && c.kids == [[To(1)], []] && c.hdr == [Header(1, Black, false), Header(1, Black, false)]
    requires c.frees == [0, 0] && c.ext == [1, 0] && c.local == [false, false]
    modifies c
    ensures c.Valid() && c.kids == [[To(1)], []] && 0 in c.lost && c.frees == [1, 0]
    ensures |c.hdr| == 2 && !Accessible(c.kids, c.ext, c.local, 1)
  {
    ghost var _ := c.Release(To(0));
    assert c.LastReleased(0);
    assert c.ext == [0, 0] && c.local == [false, false];
  }
}
