/** The heap the cycle collector works on, as a value: what every operation keeps, and what marking,
    scanning, sweeping and a whole pass do to it. Objects are numbered in allocation order; a freed
    object keeps its header, because the sweep may look at it again. */
module CycleHeap {
  import opened Basics
  import opened CycleGraph
  import opened CycleTrial
  import opened CycleFrames

  /** Neither freed nor found to be garbage. */
  ghost function Live(h: seq<Header>, frees: seq<nat>): set<nat>
    requires |h| == |frees|
  {
    set i: nat | i < |h| && frees[i] == 0 && h[i].colour != White
  }

  /** What every operation keeps: counts never below the holders and references of live objects,
      nothing live references anything dead, and nothing is freed twice. */
  ghost predicate Consistent(g: Graph, h: seq<Header>, frees: seq<nat>, ext: seq<nat>, local: seq<bool>) {
    && WellFormed(g)
    && |h| == |g| == |frees| == |ext| == |local|
    && (forall i :: 0 <= i < |g| ==> h[i].colour != Grey && frees[i] <= 1)
    && (forall i :: 0 <= i < |g| && (frees[i] > 0 || h[i].colour == White) ==>
          h[i].rc == 0 && ext[i] == 0 && !local[i])
    && Closed(g, Live(h, frees))
    && (forall i {:trigger From(g, Live(h, frees), i)} :: i in Live(h, frees) ==> h[i].rc >= ext[i] + From(g, Live(h, frees), i))
    && (forall i :: 0 <= i < |g| && local[i] ==> h[i].rc == 0 && !h[i].buffered)
  }

  ghost predicate BufferOk(cand: seq<nat>, h: seq<Header>, frees: seq<nat>) {
    && |h| == |frees|
    && (forall a, b :: 0 <= a < b < |cand| ==> cand[a] != cand[b])
    && (forall a :: 0 <= a < |cand| ==> cand[a] < |h| && h[cand[a]].buffered)
    && (forall i :: 0 <= i < |h| && h[i].buffered ==> i in cand && frees[i] == 0)
  }

  /** An object reached from counted roots has a positive count. */
  lemma ReachedCounted(g: Graph, live: set<nat>, h: seq<Header>, roots: set<nat>, reached: set<nat>)
    requires Counted(g, live, h) && Spans(g, roots, reached) && reached <= live
    requires forall r :: r in roots ==> r < |h| && h[r].rc > 0
    ensures forall i :: i in reached ==> i < |h| && h[i].rc > 0
  {
    var s := set i | i in reached && h[i].rc > 0;
    forall x, y | x in s && Edge(g, x, y) ensures y in s {
      FromZero(g, live, y);
    }
    SpansInduct(g, roots, reached, s);
  }

  /** Counts after a trial: what the white objects held is gone, and that is all that is gone. */
  lemma TrialCount(g: Graph, h0: seq<Header>, h2: seq<Header>, frees: seq<nat>, ext: seq<nat>, local: seq<bool>, reached: set<nat>, i: nat)
    requires Consistent(g, h0, frees, ext, local) && TrialExact(g, reached, h0, h2) && reached <= Live(h0, frees)
    requires i in Live(h0, frees)
    ensures h2[i].rc >= ext[i] + From(g, Live(h2, frees), i)
  {
    var live, white := Live(h0, frees), Whites(reached, h2);
    TrialLive(g, h0, h2, frees, reached);
    assert live == (live - white) + white;
    FromSplit(g, live - white, white, i);
  }

  lemma TrialLive(g: Graph, h0: seq<Header>, h2: seq<Header>, frees: seq<nat>, reached: set<nat>)
    requires TrialExact(g, reached, h0, h2) && |frees| == |h0| && reached <= Live(h0, frees)
    ensures Live(h2, frees) == Live(h0, frees) - Whites(reached, h2)
  {
  }

  lemma TrialClosed(g: Graph, h0: seq<Header>, h2: seq<Header>, frees: seq<nat>, ext: seq<nat>, local: seq<bool>, reached: set<nat>)
    requires Consistent(g, h0, frees, ext, local) && TrialExact(g, reached, h0, h2) && reached <= Live(h0, frees)
    ensures Closed(g, Live(h2, frees))
  {
    var live2 := Live(h2, frees);
    TrialLive(g, h0, h2, frees, reached);
    forall x, y | x in live2 && Edge(g, x, y) ensures y in live2 {
      assert y in Live(h0, frees);
      TrialCount(g, h0, h2, frees, ext, local, reached, y);
      FromZero(g, live2, y);
    }
  }

  /** A trial whose reached objects are all counted keeps the heap consistent: what turns white
      has no holder left. */
  lemma TrialConsistent(g: Graph, h0: seq<Header>, h2: seq<Header>, frees: seq<nat>, ext: seq<nat>, local: seq<bool>, reached: set<nat>)
    requires Consistent(g, h0, frees, ext, local) && TrialExact(g, reached, h0, h2) && reached <= Live(h0, frees)
    requires forall i :: i in reached ==> h0[i].rc > 0
    ensures Consistent(g, h2, frees, ext, local)
  {
    TrialClosed(g, h0, h2, frees, ext, local, reached);
    forall i | i in Live(h0, frees) ensures h2[i].rc >= ext[i] + From(g, Live(h2, frees), i) {
      TrialCount(g, h0, h2, frees, ext, local, reached, i);
    }
    TrialLive(g, h0, h2, frees, reached);
  }

  lemma CountedIsLive(g: Graph, h: seq<Header>, frees: seq<nat>, ext: seq<nat>, local: seq<bool>)
    requires Consistent(g, h, frees, ext, local)
    ensures forall i :: 0 <= i < |h| && h[i].rc > 0 ==> i in Live(h, frees)
  {
  }

  lemma BufferKept(cand: seq<nat>, h: seq<Header>, h': seq<Header>, frees: seq<nat>)
    requires BufferOk(cand, h, frees) && |h'| == |h|
    requires forall i :: 0 <= i < |h| ==> h'[i].buffered == h[i].buffered
    ensures BufferOk(cand, h', frees)
  {
  }

  /** Marking and scanning, taken together. */
  lemma TrialDone(cand: seq<nat>, g: Graph, h0: seq<Header>, h1: seq<Header>, h2: seq<Header>, frees: seq<nat>, ext: seq<nat>, local: seq<bool>,
                  roots: seq<nat>, reached: set<nat>, up: set<nat>, done: seq<nat>, seen: seq<nat>)
    requires Consistent(g, h0, frees, ext, local) && BufferOk(cand, h0, frees)
    requires Spans(g, Members(roots), reached) && reached <= Live(h0, frees) && Marked(g, reached, h0, h1)
    requires forall a :: 0 <= a < |roots| ==> roots[a] < |h0| && h0[roots[a]].rc > 0
    requires OnlySurplus(g, reached, h0, up) && Scanned(g, reached, up, h1, h2, done, seen)
    requires forall a :: 0 <= a < |roots| ==> h2[roots[a]].colour != Grey
    ensures TrialExact(g, reached, h0, h2) && Consistent(g, h2, frees, ext, local) && BufferOk(cand, h2, frees)
  {
    ScanDone(g, Members(roots), reached, up, h0, h1, h2, done, seen);
    ReachedCounted(g, Live(h0, frees), h0, Members(roots), reached);
    TrialConsistent(g, h0, h2, frees, ext, local, reached);
    BufferKept(cand, h0, h2, frees);
  }

  /** Every grey object is reached from the roots and walked whole. */
  ghost predicate GreyFromRoots(g: Graph, roots: set<nat>, h: seq<Header>, done: seq<nat>) {
    && |h| == |g| == |done|
    && (forall i :: 0 <= i < |h| && h[i].colour == Grey ==> done[i] == |g[i]| && ReachFrom(g, roots, i))
  }

  lemma MarkedFromRoot(g: Graph, roots: set<nat>, before: seq<Header>, h: seq<Header>, was: seq<nat>, done: seq<nat>, r: nat)
    requires GreyFromRoots(g, roots, before, was) && GreyFrame(g, before, h, was, done, r, NONE) && r in roots
    ensures GreyFromRoots(g, roots, h, done)
    ensures forall i :: 0 <= i < |h| && before[i].colour == Grey ==> h[i].colour == Grey
  {
    forall i | 0 <= i < |h|
      ensures h[i].colour == Grey ==> done[i] == |g[i]| && ReachFrom(g, roots, i)
      ensures before[i].colour == Grey ==> h[i].colour == Grey
    {
      assert GreyAt(g, before, h, was, done, r, NONE, i);
    }
  }

  /** The roots are the whole buffer. */
  ghost predicate AllTaken(roots: seq<nat>, h: seq<Header>) {
    forall i :: 0 <= i < |h| ==> (h[i].buffered <==> i in roots)
  }

  lemma WholeBuffer(cand: seq<nat>, h: seq<Header>, f: seq<nat>)
    requires BufferOk(cand, h, f)
    ensures AllTaken(cand, h)
  {
  }

  ghost predicate RootsGrey(roots: seq<nat>, n: nat, h: seq<Header>) {
    n <= |roots| && forall b :: 0 <= b < n ==> roots[b] < |h| && h[roots[b]].colour == Grey
  }

  lemma RootsStayGrey(roots: seq<nat>, n: nat, before: seq<Header>, h: seq<Header>)
    requires RootsGrey(roots, n, before) && |h| == |before| && n < |roots| && roots[n] < |h| && h[roots[n]].colour == Grey
    requires forall i :: 0 <= i < |h| && before[i].colour == Grey ==> h[i].colour == Grey
    ensures RootsGrey(roots, n + 1, h)
  {
  }

  ghost function Members(s: seq<nat>): set<nat> {
    set r | r in s
  }

  // ----- sweeping -----

  /** What the sweep may free: white and not waiting in the buffer. */
  ghost predicate Sweepable(h: seq<Header>, i: nat) {
    i < |h| && h[i].colour == White && !h[i].buffered
  }

  ghost function Sweepables(h: seq<Header>): set<nat> {
    set i: nat | i < |h| && Sweepable(h, i)
  }

  /** Every object is untouched, or was sweepable and has been freed once and turned black. */
  ghost predicate Swept(grey: set<nat>, h0: seq<Header>, f0: seq<nat>, h: seq<Header>, f: seq<nat>) {
    && |h| == |h0| == |f| == |f0|
    && (forall i :: 0 <= i < |h| ==>
          || (h[i] == h0[i] && f[i] == f0[i])
          || (i in grey && Sweepable(h0, i) && h[i] == h0[i].(colour := Black) && f[i] == f0[i] + 1))
  }

  /** Nothing freed since `h0` references anything still sweepable, except past the first `n`
      references of `x`. */
  ghost predicate SweepClosed(g: Graph, h0: seq<Header>, h: seq<Header>, x: nat, n: nat) {
    && |h| == |h0| == |g|
    && (forall i, k :: 0 <= i < |g| && Sweepable(h0, i) && !Sweepable(h, i) && 0 <= k < |g[i]| && (i == x ==> k < n) && g[i][k].To? ==>
          !Sweepable(h, g[i][k].id))
  }

  /** Everything freed since `h0` was reached from `x` through objects of `base`. */
  ghost predicate SweptFrom(g: Graph, base: set<nat>, h0: seq<Header>, h: seq<Header>, x: nat) {
    forall i {:trigger Reach(Restrict(g, base), x, i)} :: Sweepable(h0, i) && !Sweepable(h, i) ==> Reach(Restrict(g, base), x, i)
  }

  lemma SweptFromStep(g: Graph, base: set<nat>, h0: seq<Header>, h1: seq<Header>, h: seq<Header>, x: nat, y: nat)
    requires SweptFrom(g, base, h0, h1, x) && SweptFrom(g, base, h1, h, y)
    requires x in base && Edge(g, x, y)
    ensures SweptFrom(g, base, h0, h, x)
  {
    var r := Restrict(g, base);
    forall i: nat | Sweepable(h0, i) && !Sweepable(h, i) ensures Reach(r, x, i) {
      if Sweepable(h1, i) {
        assert Reach(r, y, i);
        assert Edge(r, x, y);
        ReachStep(r, x, y, i);
      }
    }
  }

  ghost predicate SweptFromAll(g: Graph, base: set<nat>, h0: seq<Header>, h: seq<Header>, roots: set<nat>) {
    forall i {:trigger ReachFrom(Restrict(g, base), roots, i)} ::
      Sweepable(h0, i) && !Sweepable(h, i) ==> ReachFrom(Restrict(g, base), roots, i)
  }

  lemma SweptFromRoot(g: Graph, base: set<nat>, h0: seq<Header>, h1: seq<Header>, h: seq<Header>, roots: set<nat>, x: nat)
    requires SweptFromAll(g, base, h0, h1, roots) && SweptFrom(g, base, h1, h, x) && x in roots
    ensures SweptFromAll(g, base, h0, h, roots)
  {
  }

  lemma SweptTrans(grey: set<nat>, h0: seq<Header>, f0: seq<nat>, h1: seq<Header>, f1: seq<nat>, h: seq<Header>, f: seq<nat>)
    requires Swept(grey, h0, f0, h1, f1) && Swept(grey, h1, f1, h, f)
    ensures Swept(grey, h0, f0, h, f)
  {
  }

  /** Sweeping one child of `x` and all below it extends what is closed. */
  lemma SweepClosedStep(g: Graph, grey: set<nat>, h0: seq<Header>, f0: seq<nat>, h1: seq<Header>, f1: seq<nat>, h: seq<Header>, f: seq<nat>, x: nat, n: nat)
    requires Swept(grey, h0, f0, h1, f1) && Swept(grey, h1, f1, h, f)
    requires x < |g| && n < |g[x]| && SweepClosed(g, h0, h1, x, n) && SweepClosed(g, h1, h, |g|, 0)
    requires !Sweepable(h1, x)
    requires g[x][n].To? ==> !Sweepable(h, g[x][n].id)
    ensures SweepClosed(g, h0, h, x, n + 1)
  {
  }

  /** With nothing white left in the buffer, the sweep leaves nothing white. */
  lemma SweepAll(g: Graph, roots: set<nat>, reached: set<nat>, h0: seq<Header>, h: seq<Header>)
    requires Spans(g, roots, reached) && SweepClosed(g, h0, h, |g|, 0)
    requires forall i :: i in reached && h0[i].colour == White ==> !h0[i].buffered
    requires forall x, y: nat :: x in reached && h0[x].colour != White && Edge(g, x, y) ==> y < |g| && h0[y].colour != White
    requires forall i :: 0 <= i < |g| && Sweepable(h, i) ==> Sweepable(h0, i)
    requires forall r :: r in roots ==> !Sweepable(h, r)
    ensures forall i :: i in reached ==> !Sweepable(h, i)
  {
    var s := set i | i in reached && !Sweepable(h, i);
    forall x, y | x in s && Edge(g, x, y) ensures y in s {
      var k :| 0 <= k < |g[x]| && g[x][k] == To(y);
      if h0[x].colour == White {
        assert Sweepable(h0, x) && !Sweepable(h, g[x][k].id);
      }
    }
    SpansInduct(g, roots, reached, s);
  }

  /** Sweeping changes neither what is live nor any count, and frees nothing a second time. */
  lemma SweptConsistent(g: Graph, grey: set<nat>, h0: seq<Header>, f0: seq<nat>, h: seq<Header>, f: seq<nat>, ext: seq<nat>, local: seq<bool>, cand: seq<nat>)
    requires Consistent(g, h0, f0, ext, local) && BufferOk(cand, h0, f0) && Swept(grey, h0, f0, h, f)
    requires forall i :: i in grey && i < |f0| ==> f0[i] == 0
    ensures Consistent(g, h, f, ext, local) && BufferOk(cand, h, f)
  {
    assert Live(h, f) == Live(h0, f0);
  }

  ghost predicate Unbuffered(h0: seq<Header>, h: seq<Header>, roots: seq<nat>) {
    && |h| == |h0|
    && (forall i :: 0 <= i < |h| ==> h[i] == if i in roots then h0[i].(buffered := false) else h0[i])
  }

  lemma TakeConsistent(g: Graph, h0: seq<Header>, h: seq<Header>, f: seq<nat>, ext: seq<nat>, local: seq<bool>, roots: seq<nat>, rest: seq<nat>)
    requires Consistent(g, h0, f, ext, local) && BufferOk(roots + rest, h0, f) && Unbuffered(h0, h, roots)
    ensures Consistent(g, h, f, ext, local)
    ensures BufferOk(rest, h, f)
  {
    assert Live(h, f) == Live(h0, f);
    var all := roots + rest;
    forall a | 0 <= a < |rest| ensures rest[a] < |h| && h[rest[a]].buffered {
      assert rest[a] == all[|roots| + a];
      assert forall b :: 0 <= b < |roots| ==> all[b] == roots[b];
    }
    forall a, b | 0 <= a < b < |rest| ensures rest[a] != rest[b] {
      assert rest[a] == all[|roots| + a] && rest[b] == all[|roots| + b];
    }
  }

  /** Freeing a live object with no count, or one already found garbage. */
  lemma FreeConsistent(g: Graph, h: seq<Header>, f: seq<nat>, ext: seq<nat>, local: seq<bool>, cand: seq<nat>, p: nat)
    requires Consistent(g, h, f, ext, local) && BufferOk(cand, h, f)
    requires p < |h| && f[p] == 0 && h[p].rc == 0 && !local[p] && !h[p].buffered
    ensures Consistent(g, h, f[p := 1], ext, local) && BufferOk(cand, h, f[p := 1])
  {
    var live, live' := Live(h, f), Live(h, f[p := 1]);
    assert live' == live - {p};
    forall i | i in live' ensures h[i].rc >= ext[i] + From(g, live', i) {
      FromMono(g, live', live, i);
    }
    FromZero(g, live, p);
  }

  // ----- what one collection did, told from the heap before it -----

  ghost function CountedRoots(roots: seq<nat>, h0: seq<Header>): set<nat> {
    set r | r in roots && r < |h0| && h0[r].rc > 0
  }

  ghost predicate ZeroRoot(roots: seq<nat>, h0: seq<Header>, i: nat) {
    i in roots && i < |h0| && h0[i].rc == 0
  }

  /** Unreclaimed although found to be garbage. */
  ghost predicate LeftWhite(h: seq<Header>, f: seq<nat>, i: nat) {
    i < |h| == |f| && h[i].colour == White && f[i] == 0
  }

  /** Reached, and not upheld by any count the reached objects do not account for. */
  ghost predicate Garbage(g: Graph, reached: set<nat>, h0: seq<Header>, i: nat) {
    |h0| == |g| && i in reached && i < |g| && !Surplus(g, reached, h0, i)
  }

  /** The garbage the sweep may pass through: not waiting in what is left of the buffer. */
  ghost function Passable(g: Graph, roots: seq<nat>, reached: set<nat>, h0: seq<Header>): set<nat> {
    set i | i in reached && Garbage(g, reached, h0, i) && (i in roots || !h0[i].buffered)
  }

  /** The garbage the sweep gets to. */
  ghost predicate Reclaimed(g: Graph, roots: seq<nat>, reached: set<nat>, h0: seq<Header>, i: nat) {
    var pass := Passable(g, roots, reached, h0);
    i in pass && ReachFrom(Restrict(g, pass), CountedRoots(roots, h0), i)
  }

  /** Exactly what one pass frees, and exactly what it leaves white. */
  ghost predicate PassExact(g: Graph, roots: seq<nat>, reached: set<nat>, h0: seq<Header>, f0: seq<nat>, h: seq<Header>, f: seq<nat>) {
    && |h| == |f| == |f0| == |h0| == |g|
    && (forall i {:trigger f[i]} :: 0 <= i < |g| ==>
          f[i] == f0[i] + if ZeroRoot(roots, h0, i) || Reclaimed(g, roots, reached, h0, i) then 1 else 0)
    && (forall i :: 0 <= i < |g| ==>
          (LeftWhite(h, f, i) <==> f[i] == 0 && (Garbage(g, reached, h0, i) || h0[i].colour == White)))
  }

  /** All trial garbage is freed, and the only garbage left is what an earlier bounded pass left
      outside the buffer. */
  ghost predicate FreedAll(g: Graph, reached: set<nat>, h0: seq<Header>, f0: seq<nat>, h: seq<Header>, f: seq<nat>) {
    && |h| == |f| == |f0| == |h0| == |g|
    && (forall i :: 0 <= i < |g| && Garbage(g, reached, h0, i) ==> f[i] == f0[i] + 1)
    && (forall i :: 0 <= i < |g| ==> (LeftWhite(h, f, i) <==> LeftWhite(h0, f0, i) && !h0[i].buffered))
  }

  /** Surplus depends on the counts only. */
  lemma SurplusSame(g: Graph, reached: set<nat>, h0: seq<Header>, h: seq<Header>, i: nat)
    requires |h| == |h0| == |g| && forall j :: 0 <= j < |g| ==> h[j].rc == h0[j].rc
    ensures Surplus(g, reached, h0, i) <==> Surplus(g, reached, h, i)
  {
  }

  /** The heaps and free counts at the stages of one collection. */
  ghost predicate Staged(g: Graph, roots: seq<nat>, live: seq<nat>, reached: set<nat>, h0: seq<Header>, f0: seq<nat>,
                         h1: seq<Header>, f1: seq<nat>, h2: seq<Header>, h: seq<Header>, f: seq<nat>) {
    && |f0| == |f1| == |h0| == |g|
    && Unbuffered(h0, h1, roots)
    && (forall i :: 0 <= i < |g| ==> f1[i] == f0[i] + if i in roots && h1[i].rc == 0 then 1 else 0)
    && (forall i :: i in live <==> i in roots && i < |g| && h1[i].rc > 0)
    && Spans(g, Members(live), reached) && reached <= Live(h1, f1)
    && TrialExact(g, reached, h1, h2)
    && Swept(reached, h2, f1, h, f)
  }

  lemma CollectRootsSpan(g: Graph, roots: seq<nat>, live: seq<nat>, reached: set<nat>, h0: seq<Header>, f0: seq<nat>,
                         h1: seq<Header>, f1: seq<nat>, h2: seq<Header>, h: seq<Header>, f: seq<nat>)
    requires Staged(g, roots, live, reached, h0, f0, h1, f1, h2, h, f)
    ensures Members(live) == CountedRoots(roots, h0) && Spans(g, CountedRoots(roots, h0), reached)
    ensures reached * Sweepables(h2) == Passable(g, roots, reached, h0)
  {
    assert Members(live) == CountedRoots(roots, h0);
    forall i | i in reached ensures i in Sweepables(h2) <==> i in Passable(g, roots, reached, h0) {
      SurplusSame(g, reached, h0, h1, i);
    }
  }

  /** What the sweep freed is what it could get to. */
  lemma SweepExact(g: Graph, roots: set<nat>, base: set<nat>, h2: seq<Header>, h: seq<Header>, i: nat)
    requires SweepClosed(g, h2, h, |g|, 0) && SweptFromAll(g, base, h2, h, roots) && WellFormed(g)
    requires forall j :: j in base ==> Sweepable(h2, j)
    requires forall j :: j in roots ==> j < |g| && !Sweepable(h, j)
    requires i in base
    ensures !Sweepable(h, i) <==> ReachFrom(Restrict(g, base), roots, i)
  {
    var r := Restrict(g, base);
    if ReachFrom(r, roots, i) {
      var x :| x in roots && Reach(r, x, i);
      var s := set j: nat | j < |g| && (!Sweepable(h, j) || j !in base);
      forall a, b | a in s && Edge(r, a, b) ensures b in s {
        var k :| 0 <= k < |r[a]| && r[a][k] == To(b);
        assert a in base && g[a][k] == To(b) && !Sweepable(h, g[a][k].id);
      }
      ClosedReach(r, s, x, i);
    }
  }

  lemma CollectExact(g: Graph, roots: seq<nat>, live: seq<nat>, reached: set<nat>, h0: seq<Header>, f0: seq<nat>,
                     h1: seq<Header>, f1: seq<nat>, h2: seq<Header>, h: seq<Header>, f: seq<nat>)
    requires WellFormed(g) && Staged(g, roots, live, reached, h0, f0, h1, f1, h2, h, f)
    requires SweepClosed(g, h2, h, |g|, 0) && SweptFromAll(g, reached * Sweepables(h2), h2, h, Members(live))
    requires forall a :: 0 <= a < |live| ==> !Sweepable(h, live[a])
    ensures Spans(g, CountedRoots(roots, h0), reached) && reached <= Live(h0, f0)
    ensures PassExact(g, roots, reached, h0, f0, h, f)
  {
    CollectRootsSpan(g, roots, live, reached, h0, f0, h1, f1, h2, h, f);
    forall i: nat | i < |g|
      ensures f[i] == f0[i] + if ZeroRoot(roots, h0, i) || Reclaimed(g, roots, reached, h0, i) then 1 else 0
      ensures LeftWhite(h, f, i) <==> f[i] == 0 && (Garbage(g, reached, h0, i) || h0[i].colour == White)
    {
      if i in reached * Sweepables(h2) {
        SweepExact(g, Members(live), reached * Sweepables(h2), h2, h, i);
      }
      CollectExactAt(g, roots, live, reached, h0, f0, h1, f1, h2, h, f, i);
    }
  }

  lemma CollectExactAt(g: Graph, roots: seq<nat>, live: seq<nat>, reached: set<nat>, h0: seq<Header>, f0: seq<nat>,
                       h1: seq<Header>, f1: seq<nat>, h2: seq<Header>, h: seq<Header>, f: seq<nat>, i: nat)
    requires Staged(g, roots, live, reached, h0, f0, h1, f1, h2, h, f) && i < |g|
    requires reached * Sweepables(h2) == Passable(g, roots, reached, h0)
    requires i in reached && Sweepable(h2, i) ==> (!Sweepable(h, i) <==> Reclaimed(g, roots, reached, h0, i))
    ensures f[i] == f0[i] + if ZeroRoot(roots, h0, i) || Reclaimed(g, roots, reached, h0, i) then 1 else 0
    ensures LeftWhite(h, f, i) <==> f[i] == 0 && (Garbage(g, reached, h0, i) || h0[i].colour == White)
  {
    SurplusSame(g, reached, h0, h1, i);
  }

  lemma CollectFreedAll(g: Graph, roots: seq<nat>, live: seq<nat>, reached: set<nat>, h0: seq<Header>, f0: seq<nat>,
                        h1: seq<Header>, f1: seq<nat>, h2: seq<Header>, h: seq<Header>, f: seq<nat>)
    requires Staged(g, roots, live, reached, h0, f0, h1, f1, h2, h, f)
    requires SweepClosed(g, h2, h, |g|, 0) && Closed(g, Live(h2, f1))
    requires forall a :: 0 <= a < |live| ==> !Sweepable(h, live[a])
    requires forall i :: 0 <= i < |g| ==> (h0[i].buffered <==> i in roots)
    ensures FreedAll(g, reached, h0, f0, h, f)
  {
    forall x, y: nat | x in reached && h2[x].colour != White && Edge(g, x, y) ensures y < |g| && h2[y].colour != White {
      assert x in Live(h2, f1);
    }
    SweepAll(g, Members(live), reached, h2, h);
    forall i: nat | i < |g| {
      CollectLeftWhite(g, roots, live, reached, h0, f0, h1, f1, h2, h, f, i);
    }
  }

  /** Both outcomes of a pass together. */
  lemma CollectOutcome(g: Graph, roots: seq<nat>, live: seq<nat>, reached: set<nat>, h0: seq<Header>, f0: seq<nat>,
                       h1: seq<Header>, f1: seq<nat>, h2: seq<Header>, h: seq<Header>, f: seq<nat>)
    requires WellFormed(g) && Staged(g, roots, live, reached, h0, f0, h1, f1, h2, h, f)
    requires SweepClosed(g, h2, h, |g|, 0) && SweptFromAll(g, reached * Sweepables(h2), h2, h, Members(live)) && Closed(g, Live(h2, f1))
    requires forall a :: 0 <= a < |live| ==> !Sweepable(h, live[a])
    ensures Spans(g, CountedRoots(roots, h0), reached) && reached <= Live(h0, f0)
    ensures PassExact(g, roots, reached, h0, f0, h, f)
    ensures AllTaken(roots, h0) ==> FreedAll(g, reached, h0, f0, h, f)
  {
    CollectExact(g, roots, live, reached, h0, f0, h1, f1, h2, h, f);
    if AllTaken(roots, h0) {
      CollectFreedAll(g, roots, live, reached, h0, f0, h1, f1, h2, h, f);
    }
  }

  lemma CollectLeftWhite(g: Graph, roots: seq<nat>, live: seq<nat>, reached: set<nat>, h0: seq<Header>, f0: seq<nat>,
                         h1: seq<Header>, f1: seq<nat>, h2: seq<Header>, h: seq<Header>, f: seq<nat>, i: nat)
    requires Staged(g, roots, live, reached, h0, f0, h1, f1, h2, h, f) && i < |g|
    requires i in reached ==> !Sweepable(h, i)
    requires forall i :: 0 <= i < |g| ==> (h0[i].buffered <==> i in roots)
    ensures LeftWhite(h, f, i) <==> LeftWhite(h0, f0, i) && !h0[i].buffered
    ensures Garbage(g, reached, h0, i) ==> f[i] == f0[i] + 1
  {
    SurplusSame(g, reached, h0, h1, i);
    if i in roots && h1[i].rc > 0 {
      assert i in live && i in Members(live);
    }
  }

  // ----- what becomes of garbage -----

  /** Garbage found white stays what it is: outside the buffer it is never freed and never buffered
      again; in the buffer it keeps count zero until its own turn frees it, once. Freed stays freed. */
  ghost predicate WhitesKept(h0: seq<Header>, f0: seq<nat>, h: seq<Header>, f: seq<nat>) {
    && |h0| == |f0| <= |f| == |h|
    && (forall i :: 0 <= i < |h0| ==> WhiteKept(h0, f0, h, f, i))
  }

  ghost predicate WhiteKept(h0: seq<Header>, f0: seq<nat>, h: seq<Header>, f: seq<nat>, i: nat)
    requires i < |h0| == |f0| <= |f| == |h|
  {
    && (f0[i] == 1 ==> f[i] == 1)
    && (LeftWhite(h0, f0, i) && !h0[i].buffered ==> LeftWhite(h, f, i) && !h[i].buffered)
    && (LeftWhite(h0, f0, i) && h0[i].buffered ==> f[i] == 1 || (LeftWhite(h, f, i) && h[i].buffered && h[i].rc == 0))
  }

  lemma WhitesKeptTrans(h0: seq<Header>, f0: seq<nat>, h1: seq<Header>, f1: seq<nat>, h: seq<Header>, f: seq<nat>)
    requires WhitesKept(h0, f0, h1, f1) && WhitesKept(h1, f1, h, f)
    ensures WhitesKept(h0, f0, h, f)
  {
    forall i | 0 <= i < |h0| ensures WhiteKept(h0, f0, h, f, i) {
      assert WhiteKept(h0, f0, h1, f1, i) && WhiteKept(h1, f1, h, f, i);
    }
  }

  /** A change to one object that is not white keeps the whites. */
  lemma OneChanged(g: Graph, h0: seq<Header>, f0: seq<nat>, ext: seq<nat>, local: seq<bool>, h: seq<Header>, f: seq<nat>, p: nat)
    requires Consistent(g, h0, f0, ext, local) && |h| == |f| == |h0| && p in Live(h0, f0)
    requires forall i :: 0 <= i < |h0| && i != p ==> h[i] == h0[i] && f[i] == f0[i]
    ensures WhitesKept(h0, f0, h, f)
  {
  }

  ghost predicate Holder(ext: seq<nat>, local: seq<bool>, x: nat) {
    x < |ext| == |local| && (ext[x] > 0 || local[x])
  }

  /** Reachable from something held outside the graph. */
  ghost predicate Accessible(g: Graph, ext: seq<nat>, local: seq<bool>, y: nat) {
    exists x :: Holder(ext, local, x) && Reach(g, x, y)
  }

  /** Safety: whatever an outside holder can reach is neither freed nor marked as garbage. */
  lemma AccessibleIsLive(g: Graph, h: seq<Header>, f: seq<nat>, ext: seq<nat>, local: seq<bool>, y: nat)
    requires Consistent(g, h, f, ext, local) && Accessible(g, ext, local, y)
    ensures y in Live(h, f)
  {
    var x :| Holder(ext, local, x) && Reach(g, x, y);
    ClosedReach(g, Live(h, f), x, y);
  }

  /** One more counted holder. */
  lemma RetainConsistent(g: Graph, h: seq<Header>, f: seq<nat>, ext: seq<nat>, local: seq<bool>, cand: seq<nat>, p: nat)
    requires Consistent(g, h, f, ext, local) && BufferOk(cand, h, f) && Accessible(g, ext, local, p)
    ensures p < |h| && p in Live(h, f)
    ensures Consistent(g, h[p := h[p].(rc := h[p].rc + 1)], f, ext[p := ext[p] + 1], local[p := false])
    ensures BufferOk(cand, h[p := h[p].(rc := h[p].rc + 1)], f)
  {
    AccessibleIsLive(g, h, f, ext, local, p);
    var h' := h[p := h[p].(rc := h[p].rc + 1)];
    assert Live(h', f) == Live(h, f);
    BufferKept(cand, h, h', f);
  }

  /** One counted holder less, the object recoloured black or purple or not at all, and buffered
      if it was or if it is appended to the buffer. */
  lemma ReleaseConsistent(g: Graph, h: seq<Header>, f: seq<nat>, ext: seq<nat>, local: seq<bool>, cand: seq<nat>, p: nat, q: Header)
    requires Consistent(g, h, f, ext, local) && BufferOk(cand, h, f) && p < |h| && ext[p] > 0
    requires q.rc == h[p].rc - 1 && (q.colour == Black || q.colour == Purple || q.colour == h[p].colour)
    requires h[p].buffered ==> q.buffered
    ensures Consistent(g, h[p := q], f, ext[p := ext[p] - 1], local)
    ensures BufferOk(if q.buffered && !h[p].buffered then cand + [p] else cand, h[p := q], f)
  {
    assert Live(h[p := q], f) == Live(h, f);
  }

  /** A new object, held by its creator and referencing nothing. */
  lemma AllocConsistent(g: Graph, h: seq<Header>, f: seq<nat>, ext: seq<nat>, local: seq<bool>, fields: seq<Ref>)
    requires Consistent(g, h, f, ext, local) && forall k :: 0 <= k < |fields| ==> fields[k] == Null
    ensures Consistent(g + [fields], h + [Header(0, Black, false)], f + [0], ext + [0], local + [true])
  {
    var g', h', f' := g + [fields], h + [Header(0, Black, false)], f + [0];
    var live, live' := Live(h, f), Live(h', f');
    assert live' == live + {|g|};
    forall x: nat, y: nat | Edge(g', x, y) ensures x < |g| && Edge(g, x, y) {
    }
    forall i | i in live' ensures h'[i].rc >= (ext + [0])[i] + From(g', live', i) {
      FromGrow(g, live, live', fields, i);
      if i == |g| {
        FromZero(g', live', i);
      }
    }
  }

  /** The holds after `v` moved into a field whose old content moved out. */
  function Moved(ext: seq<nat>, v: Ref, was: Ref): (r: seq<nat>)
    requires v.To? ==> v.id < |ext| && ext[v.id] > 0
    requires was.To? ==> was.id < |ext|
    ensures |r| == |ext|
    ensures forall i :: 0 <= i < |ext| ==> r[i] + (if v == To(i) then 1 else 0) == ext[i] + (if was == To(i) then 1 else 0)
  {
    var e := if v.To? then ext[v.id := ext[v.id] - 1] else ext;
    if was.To? then e[was.id := e[was.id] + 1] else e
  }

  /** Storing a held reference into a field, and holding what was there instead. */
  lemma StoreConsistent(g: Graph, h: seq<Header>, f: seq<nat>, ext: seq<nat>, local: seq<bool>, x: nat, k: nat, v: Ref)
    requires Consistent(g, h, f, ext, local) && x in Live(h, f) && k < |g[x]|
    requires v.To? ==> v.id < |ext| && ext[v.id] > 0
    ensures Consistent(g[x := g[x][k := v]], h, f, Moved(ext, v, g[x][k]), local)
  {
    var g', live := g[x := g[x][k := v]], Live(h, f);
    var was := g[x][k];
    if was.To? {
      assert Edge(g, x, was.id);
    }
    forall a, b: nat | a in live && Edge(g', a, b) ensures b in live {
      if a == x {
        var j :| 0 <= j < |g'[x]| && g'[x][j] == To(b);
        if j != k {
          assert Edge(g, x, b);
        }
      } else {
        assert Edge(g, a, b);
      }
    }
    forall i | i in live ensures h[i].rc >= Moved(ext, v, was)[i] + From(g', live, i) {
      FromUpdate(g, live, x, k, v, i);
    }
  }
}
