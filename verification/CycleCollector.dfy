/** The cycle collector: counted headers, the candidate buffer, the shared child window, and the
    program that holds objects from outside. */
module CycleCollector {
  import opened Basics
  import opened CycleGraph
  import opened CycleTrial
  import opened CycleFrames
  import opened CycleHeap
  import opened CycleExact

  const THETA_BUFFER: nat := 4096
  const K_ROOTS: nat := 256

  class Collector {
    var kids: seq<seq<Ref>>     // what `children` reports, object by object
    var hdr: seq<Header>
    var frees: seq<nat>         // how often each object's storage was handed back
    var ext: seq<nat>           // counted holders outside the graph: containers and such
    var local: seq<bool>        // allocated and never retained: held by its creator only
    var cand: seq<nat>
    var walk: seq<Ref>          // the child window: `walkLen` entries in use, the rest is slack
    var walkLen: nat
    ghost var lost: set<nat>    // freed because their count was zero
    ghost var alone: set<nat>   // stored into themselves with the last hold on them

    ghost predicate Valid()
      reads this
    {
      Consistent(kids, hdr, frees, ext, local) && BufferOk(cand, hdr, frees) && Balanced(kids, hdr, frees, ext, lost) && walkLen <= |walk|
    }

    ghost function Snap(): Snapshot
      reads this
    {
      Snapshot(kids, hdr, frees, ext, local, cand, lost, alone)
    }

    constructor ()
      ensures Valid() && kids == [] && hdr == [] && frees == [] && ext == [] && local == [] && cand == []
      ensures lost == {} && alone == {} && Snap().Covered()
    {
      kids, hdr, frees, ext, local, cand, walk, walkLen := [], [], [], [], [], [], [], 0;
      lost, alone := {}, {};
    }

    // ----- the child window -----

    twostate predicate WindowKept()
      reads this
    {
      old(walkLen <= |walk|) ==> walkLen == old(walkLen) && walkLen <= |walk| && walk[..walkLen] == old(walk[..walkLen])
    }

    method WalkPush(p: Ref)
      requires walkLen <= |walk|
      modifies this`walk, this`walkLen
      ensures walkLen == old(walkLen) + 1 <= |walk|
      ensures walk[..walkLen] == old(walk[..walkLen]) + [p]
    {
      if walkLen == |walk| {
        var grow := if |walk| != 0 then |walk| * 2 else 64;
        walk := walk + seq(grow - |walk|, _ => Null);
      }
      walk := walk[walkLen := p];
      walkLen := walkLen + 1;
    }

    /** `children(x, cyc_walk_push)`. */
    method PushChildren(x: nat)
      requires x < |kids| && walkLen <= |walk|
      modifies this`walk, this`walkLen
      ensures walkLen <= |walk|
      ensures walk[..walkLen] == old(walk[..walkLen]) + kids[x]
    {
      var k := 0;
      while k < |kids[x]|
        invariant k <= |kids[x]| && walkLen <= |walk|
        invariant walk[..walkLen] == old(walk[..walkLen]) + kids[x][..k]
      {
        WalkPush(kids[x][k]);
        k := k + 1;
      }
    }

    // ----- marking -----

    method MarkGrey(x: nat, ghost live: set<nat>, ghost h0: seq<Header>, ghost done: seq<nat>) returns (ghost done': seq<nat>)
      requires Counted(kids, live, h0) && x in live
      requires MarkInv(kids, live, h0, hdr, done, {x})
      requires walkLen <= |walk|
      modifies this`hdr, this`walk, this`walkLen
      ensures MarkInv(kids, live, h0, hdr, done', {})
      ensures hdr[x].colour == Grey && GreyFrame(kids, old(hdr), hdr, done, done', x, NONE)
      ensures WindowKept()
      decreases NotGrey(hdr), 0
    {
      done' := done;
      if hdr[x].colour == Grey {
        GreyNull(kids, hdr, done, x, 0);
        return;
      }
      GreyStart(kids, hdr, done, x);
      hdr := hdr[x := hdr[x].(colour := Grey)];
      var base := walkLen;
      PushChildren(x);
      var end := walkLen;
      ghost var window := walk[..end];
      var i := base;
      while i < end
        invariant base <= i <= end == walkLen <= |walk| && walk[..end] == window
        invariant MarkInv(kids, live, h0, hdr, done', {})
        invariant hdr[x].colour == Grey && done'[x] == i - base
        invariant GreyFrame(kids, old(hdr), hdr, done, done', x, x) && NotGrey(hdr) <= NotGrey(old(hdr)) - {x}
      {
        assert walk[i] == window[i] == kids[x][i - base];
        ghost var h1, d1 := hdr, done';
        done' := MarkChild(x, walk[i], live, h0, done');
        GreyTrans(kids, old(hdr), h1, hdr, done, d1, done', x, x);
        GreyShrinks(kids, h1, hdr, d1, done', x, x);
        i := i + 1;
      }
      walkLen := base;
      assert walk[..base] == window[..base];
      GreyClose(kids, old(hdr), hdr, done, done', x);
    }

    /** One turn of the marking loop: reference number `done[x]` of the grey object `x`. */
    method MarkChild(x: nat, y: Ref, ghost live: set<nat>, ghost h0: seq<Header>, ghost done: seq<nat>) returns (ghost done': seq<nat>)
      requires Counted(kids, live, h0)
      requires MarkInv(kids, live, h0, hdr, done, {})
      requires x < |kids| && hdr[x].colour == Grey && done[x] < |kids[x]| && y == kids[x][done[x]]
      requires walkLen <= |walk|
      modifies this`hdr, this`walk, this`walkLen
      ensures MarkInv(kids, live, h0, hdr, done', {})
      ensures GreyFrame(kids, old(hdr), hdr, done, done', x, x) && hdr[x].colour == Grey && done'[x] == done[x] + 1
      ensures WindowKept()
      decreases NotGrey(hdr), 1
    {
      done' := done[x := done[x] + 1];
      if y.Null? {
        MarkNull(kids, live, h0, hdr, done, x);
        GreyNull(kids, hdr, done, x, done[x] + 1);
        return;
      }
      MarkEdge(kids, live, h0, hdr, done, x, y.id);
      if hdr[y.id].rc > 0 {
        hdr := hdr[y.id := hdr[y.id].(rc := hdr[y.id].rc - 1)];
      }
      assert NotGrey(hdr) == NotGrey(old(hdr));
      ghost var h1 := hdr;
      done' := MarkGrey(y.id, live, h0, done');
      assert Edge(kids, x, y.id);
      GreyStep(kids, old(hdr), h1, hdr, done, done', x, y.id, done[x] + 1);
    }

    /** Marks everything the roots reach, and nothing else. */
    method MarkRoots(roots: seq<nat>, ghost live: set<nat>)
      requires Counted(kids, live, hdr) && walkLen <= |walk|
      requires forall i :: 0 <= i < |hdr| ==> hdr[i].colour != Grey
      requires forall a :: 0 <= a < |roots| ==> roots[a] in live
      modifies this`hdr, this`walk, this`walkLen
      ensures Marked(kids, Greys(hdr), old(hdr), hdr)
      ensures Spans(kids, Members(roots), Greys(hdr)) && Greys(hdr) <= live
      ensures WindowKept()
    {
      ghost var h0 := hdr;
      ghost var rootSet := Members(roots);
      ghost var done := Whole(kids, {});
      forall i: nat | i < |hdr| ensures Arrived(kids, done, i) == 0 {
        WalkedZero(kids, done, |kids|, i);
      }
      var a := 0;
      while a < |roots|
        invariant a <= |roots| && WindowKept()
        invariant MarkInv(kids, live, h0, hdr, done, {})
        invariant RootsGrey(roots, a, hdr)
        invariant GreyFromRoots(kids, rootSet, hdr, done)
      {
        ghost var before, was := hdr, done;
        done := MarkGrey(roots[a], live, h0, done);
        MarkedFromRoot(kids, rootSet, before, hdr, was, done, roots[a]);
        RootsStayGrey(roots, a, before, hdr);
        a := a + 1;
      }
      MarkDone(kids, live, h0, hdr, done);
    }

    // ----- scanning -----

    method ScanBlack(x: nat, ghost grey: set<nat>, ghost up: set<nat>, ghost h1: seq<Header>, ghost done: seq<nat>)
      returns (ghost done': seq<nat>)
      requires WellFormed(kids) && Closed(kids, grey) && Closed(kids, up)
      requires ScanInv(kids, grey, up, h1, hdr, done, {x})
      requires x < |kids| && x in grey && x in up && hdr[x].colour != Black
      requires walkLen <= |walk|
      modifies this`hdr, this`walk, this`walkLen
      ensures ScanInv(kids, grey, up, h1, hdr, done', {})
      ensures hdr[x].colour == Black && BlackFrame(kids, old(hdr), hdr, done, done', NONE)
      ensures WindowKept()
      decreases NotBlack(hdr), 0
    {
      done' := done;
      BlackStart(kids, hdr, done, x);
      hdr := hdr[x := hdr[x].(colour := Black)];
      var base := walkLen;
      PushChildren(x);
      var end := walkLen;
      ghost var window := walk[..end];
      var i := base;
      while i < end
        invariant base <= i <= end == walkLen <= |walk| && walk[..end] == window
        invariant ScanInv(kids, grey, up, h1, hdr, done', {})
        invariant hdr[x].colour == Black && done'[x] == i - base
        invariant BlackFrame(kids, old(hdr), hdr, done, done', x) && NotBlack(hdr) <= NotBlack(old(hdr)) - {x}
      {
        assert walk[i] == window[i] == kids[x][i - base];
        ghost var h, d := hdr, done';
        done' := BlackChild(x, walk[i], grey, up, h1, done');
        BlackTrans(kids, old(hdr), h, hdr, done, d, done', x);
        BlackShrinks(kids, h, hdr, d, done', x);
        i := i + 1;
      }
      walkLen := base;
      assert walk[..base] == window[..base];
      BlackClose(kids, old(hdr), hdr, done, done', x);
    }

    /** One turn of the blackening loop: reference number `done[x]` of the black object `x`. */
    method BlackChild(x: nat, y: Ref, ghost grey: set<nat>, ghost up: set<nat>, ghost h1: seq<Header>, ghost done: seq<nat>)
      returns (ghost done': seq<nat>)
      requires WellFormed(kids) && Closed(kids, grey) && Closed(kids, up)
      requires ScanInv(kids, grey, up, h1, hdr, done, {})
      requires x < |kids| && x in grey && hdr[x].colour == Black && done[x] < |kids[x]| && y == kids[x][done[x]]
      requires walkLen <= |walk|
      modifies this`hdr, this`walk, this`walkLen
      ensures ScanInv(kids, grey, up, h1, hdr, done', {})
      ensures BlackFrame(kids, old(hdr), hdr, done, done', x) && hdr[x].colour == Black && done'[x] == done[x] + 1
      ensures WindowKept()
      decreases NotBlack(hdr), 2
    {
      done' := done[x := done[x] + 1];
      if y.Null? {
        BlackNull(kids, grey, up, h1, hdr, done, x);
        BlackNone(kids, hdr, hdr, done, x, done[x] + 1);
        return;
      }
      done' := BlackReference(x, y.id, grey, up, h1, done);
    }

    /** The reference gives its count back, and its target turns black if it is not. */
    method BlackReference(x: nat, y: nat, ghost grey: set<nat>, ghost up: set<nat>, ghost h1: seq<Header>, ghost done: seq<nat>)
      returns (ghost done': seq<nat>)
      requires WellFormed(kids) && Closed(kids, grey) && Closed(kids, up)
      requires ScanInv(kids, grey, up, h1, hdr, done, {})
      requires x < |kids| && x in grey && hdr[x].colour == Black && done[x] < |kids[x]| && kids[x][done[x]] == To(y)
      requires walkLen <= |walk|
      modifies this`hdr, this`walk, this`walkLen
      ensures ScanInv(kids, grey, up, h1, hdr, done', {})
      ensures BlackFrame(kids, old(hdr), hdr, done, done', x) && hdr[x].colour == Black && done'[x] == done[x] + 1
      ensures WindowKept()
      decreases NotBlack(hdr), 1
    {
      done' := done[x := done[x] + 1];
      BlackEdge(kids, grey, up, h1, hdr, done, x, y);
      hdr := hdr[y := hdr[y].(rc := hdr[y].rc + 1)];
      assert NotBlack(hdr) == NotBlack(old(hdr));
      BlackNone(kids, old(hdr), hdr, done, x, done[x] + 1);
      if hdr[y].colour != Black {
        ghost var h := hdr;
        done' := ScanBlack(y, grey, up, h1, done');
        BlackStep(kids, old(hdr), h, hdr, done, done', x, done[x] + 1);
      }
    }

    method Scan(x: nat, ghost grey: set<nat>, ghost up: set<nat>, ghost h1: seq<Header>, ghost done: seq<nat>, ghost seen: seq<nat>)
      returns (ghost done': seq<nat>, ghost seen': seq<nat>)
      requires WellFormed(kids) && Closed(kids, grey) && Upholds(kids, grey, h1, up)
      requires ScanInv(kids, grey, up, h1, hdr, done, {}) && BlackWhole(kids, grey, hdr, done) && SeenInv(kids, grey, hdr, seen)
      requires x < |kids| && x in grey && walkLen <= |walk|
      modifies this`hdr, this`walk, this`walkLen
      ensures ScanInv(kids, grey, up, h1, hdr, done', {}) && BlackWhole(kids, grey, hdr, done') && SeenInv(kids, grey, hdr, seen')
      ensures hdr[x].colour != Grey && ScanFrame(kids, old(hdr), hdr, seen, seen', NONE)
      ensures WindowKept()
      decreases Greys(hdr), 0
    {
      done', seen' := done, seen;
      if hdr[x].colour != Grey {
        ScanNone(kids, hdr, seen, NONE);
        return;
      }
      if hdr[x].rc > 0 {
        NotBlackCount(kids, grey, up, h1, hdr, done, x);
        done' := ScanBlack(x, grey, up, h1, done);
        ScanBlackened(kids, grey, old(hdr), hdr, done, done', seen);
        return;
      }
      Whiten(kids, grey, up, h1, hdr, done, seen, x);
      Whitened(hdr, x);
      hdr := hdr[x := hdr[x].(colour := White)];
      done', seen' := ScanChildren(x, grey, up, h1, done, seen[x := 0]);
      ScanWhole(kids, old(hdr), hdr, seen, seen', x);
    }

    /** The rest of the scan of `x`, which has just turned white: its children in order. */
    method ScanChildren(x: nat, ghost grey: set<nat>, ghost up: set<nat>, ghost h1: seq<Header>,
                        ghost done: seq<nat>, ghost seen: seq<nat>)
      returns (ghost done': seq<nat>, ghost seen': seq<nat>)
      requires WellFormed(kids) && Closed(kids, grey) && Upholds(kids, grey, h1, up)
      requires ScanInv(kids, grey, up, h1, hdr, done, {}) && BlackWhole(kids, grey, hdr, done) && SeenInv(kids, grey, hdr, seen)
      requires x < |kids| && x in grey && hdr[x].colour != Grey && seen[x] == 0 && walkLen <= |walk|
      modifies this`hdr, this`walk, this`walkLen
      ensures ScanInv(kids, grey, up, h1, hdr, done', {}) && BlackWhole(kids, grey, hdr, done') && SeenInv(kids, grey, hdr, seen')
      ensures ScanFrame(kids, old(hdr), hdr, seen, seen', x) && seen'[x] == |kids[x]|
      ensures WindowKept()
      decreases Greys(hdr), 2
    {
      done', seen' := done, seen;
      ScanNone(kids, hdr, seen, x);
      var base := walkLen;
      PushChildren(x);
      var end := walkLen;
      ghost var window := walk[..end];
      var i := base;
      while i < end
        invariant base <= i <= end == walkLen <= |walk| && walk[..end] == window
        invariant ScanInv(kids, grey, up, h1, hdr, done', {}) && BlackWhole(kids, grey, hdr, done') && SeenInv(kids, grey, hdr, seen')
        invariant hdr[x].colour != Grey && seen'[x] == i - base
        invariant ScanFrame(kids, old(hdr), hdr, seen, seen', x) && Greys(hdr) <= Greys(old(hdr))
      {
        assert walk[i] == window[i] == kids[x][i - base];
        ghost var h, s := hdr, seen';
        done', seen' := ScanChild(x, walk[i], grey, up, h1, done', seen');
        ScanTrans(kids, old(hdr), h, hdr, seen, s, seen', x);
        ScanShrinks(kids, h, hdr, s, seen', x);
        i := i + 1;
      }
      walkLen := base;
      assert walk[..base] == window[..base];
    }

    /** One turn of the scanning loop: reference number `seen[x]` of `x`, which is white or was. */
    method ScanChild(x: nat, y: Ref, ghost grey: set<nat>, ghost up: set<nat>, ghost h1: seq<Header>,
                     ghost done: seq<nat>, ghost seen: seq<nat>)
      returns (ghost done': seq<nat>, ghost seen': seq<nat>)
      requires WellFormed(kids) && Closed(kids, grey) && Upholds(kids, grey, h1, up)
      requires ScanInv(kids, grey, up, h1, hdr, done, {}) && BlackWhole(kids, grey, hdr, done) && SeenInv(kids, grey, hdr, seen)
      requires x < |kids| && x in grey && hdr[x].colour != Grey && seen[x] < |kids[x]| && y == kids[x][seen[x]]
      requires walkLen <= |walk|
      modifies this`hdr, this`walk, this`walkLen
      ensures ScanInv(kids, grey, up, h1, hdr, done', {}) && BlackWhole(kids, grey, hdr, done') && SeenInv(kids, grey, hdr, seen')
      ensures ScanFrame(kids, old(hdr), hdr, seen, seen', x) && hdr[x].colour != Grey && seen'[x] == seen[x] + 1
      ensures WindowKept()
      decreases Greys(hdr), 1
    {
      done', seen' := done, seen;
      ScanNone(kids, hdr, seen, NONE);
      if y.To? {
        assert Edge(kids, x, y.id);
        done', seen' := Scan(y.id, grey, up, h1, done, seen);
      }
      ScanStep(kids, old(hdr), hdr, seen, seen', x, seen'[x] + 1);
      SeenOne(kids, grey, hdr, seen', x);
      seen' := seen'[x := seen'[x] + 1];
    }

    method ScanRoots(roots: seq<nat>, ghost grey: set<nat>, ghost up: set<nat>)
      returns (ghost done: seq<nat>, ghost seen: seq<nat>)
      requires WellFormed(kids) && Closed(kids, grey) && Upholds(kids, grey, hdr, up)
      requires Scanned(kids, grey, up, hdr, hdr, Whole(kids, {}), Whole(kids, {}))
      requires forall a :: 0 <= a < |roots| ==> roots[a] in grey && roots[a] < |kids|
      requires walkLen <= |walk|
      modifies this`hdr, this`walk, this`walkLen
      ensures WindowKept()
      ensures Scanned(kids, grey, up, old(hdr), hdr, done, seen)
      ensures forall a :: 0 <= a < |roots| ==> hdr[roots[a]].colour != Grey
    {
      done, seen := Whole(kids, {}), Whole(kids, {});
      var a := 0;
      while a < |roots|
        invariant a <= |roots| && WindowKept()
        invariant Scanned(kids, grey, up, old(hdr), hdr, done, seen)
        invariant forall b :: 0 <= b < a ==> hdr[roots[b]].colour != Grey
      {
        ghost var h, s := hdr, seen;
        done, seen := Scan(roots[a], grey, up, old(hdr), done, seen);
        forall i: nat | i < |kids|
          ensures h[i].colour != Grey ==> hdr[i].colour != Grey
          ensures i in grey && hdr[i].colour == White ==> seen[i] == |kids[i]|
        {
          assert ScanAt(kids, h, hdr, s, seen, NONE, i);
        }
        a := a + 1;
      }
    }

    /** Scanning, after the roots and all they reach were marked from the consistent heap `h0`. */
    method ScanMarked(roots: seq<nat>, ghost reached: set<nat>, ghost h0: seq<Header>)
      requires Consistent(kids, h0, frees, ext, local) && BufferOk(cand, h0, frees) && walkLen <= |walk|
      requires Balanced(kids, h0, frees, ext, lost)
      requires Spans(kids, Members(roots), reached) && reached <= Live(h0, frees) && Marked(kids, reached, h0, hdr)
      requires forall a :: 0 <= a < |roots| ==> roots[a] < |h0| && h0[roots[a]].rc > 0
      modifies this`hdr, this`walk, this`walkLen
      ensures Valid() && WindowKept()
      ensures TrialExact(kids, reached, h0, hdr)
    {
      ghost var g, h1 := kids, hdr;
      ghost var up := SurplusUpholds(g, reached, h0, h1);
      ScanStart(g, reached, up, h0, h1);
      assert forall a :: 0 <= a < |roots| ==> roots[a] in Members(roots);
      ghost var done, seen := ScanRoots(roots, reached, up);
      ghost var h2 := hdr;
      TrialDone(cand, g, h0, h1, h2, frees, ext, local, roots, reached, up, done, seen);
      TrialBalanced(g, h0, h2, frees, ext, lost, reached);
    }

    /** Marks and scans from roots that are live and counted. */
    method Trial(roots: seq<nat>) returns (ghost reached: set<nat>)
      requires Valid()
      requires forall a :: 0 <= a < |roots| ==> roots[a] in Live(hdr, frees) && hdr[roots[a]].rc > 0
      modifies this`hdr, this`walk, this`walkLen
      ensures Valid() && WindowKept()
      ensures Spans(kids, Members(roots), reached) && reached <= old(Live(hdr, frees))
      ensures TrialExact(kids, reached, old(hdr), hdr)
    {
      MarkRoots(roots, Live(hdr, frees));
      reached := Greys(hdr);
      ScanMarked(roots, reached, old(hdr));
    }

    // ----- sweeping -----

    method FreeObject(p: nat)
      requires p < |frees|
      modifies this`frees
      ensures frees == old(frees)[p := old(frees)[p] + 1]
    {
      frees := frees[p := frees[p] + 1];
    }

    method CollectWhite(x: nat, ghost grey: set<nat>, ghost base: set<nat>)
      requires WellFormed(kids) && Closed(kids, grey) && x in grey && x < |kids| == |hdr| == |frees| && walkLen <= |walk|
      requires forall i :: i in grey && Sweepable(hdr, i) ==> i in base
      modifies this`hdr, this`frees, this`walk, this`walkLen
      ensures Swept(grey, old(hdr), old(frees), hdr, frees) && SweepClosed(kids, old(hdr), hdr, |kids|, 0)
      ensures !Sweepable(hdr, x)
      ensures SweptFrom(kids, base, old(hdr), hdr, x)
      ensures WindowKept()
      decreases Sweepables(hdr)
    {
      if hdr[x].colour != White || hdr[x].buffered {
        return;
      }
      hdr := hdr[x := hdr[x].(colour := Black)];
      assert x in Sweepables(old(hdr)) && x !in Sweepables(hdr);
      // The children are copied out before the object is freed.
      var start := walkLen;
      PushChildren(x);
      var copy := walk[start..walkLen];
      walkLen := start;
      assert copy == kids[x];
      FreeObject(x);
      ReachSelf(Restrict(kids, base), x);
      var i := 0;
      while i < |copy|
        invariant 0 <= i <= |copy| && copy == kids[x] && WindowKept()
        invariant Swept(grey, old(hdr), old(frees), hdr, frees) && !Sweepable(hdr, x)
        invariant SweepClosed(kids, old(hdr), hdr, x, i) && SweptFrom(kids, base, old(hdr), hdr, x)
      {
        ghost var h1, f1 := hdr, frees;
        if copy[i].To? {
          assert Edge(kids, x, copy[i].id);
          assert x in Sweepables(old(hdr)) && x !in Sweepables(hdr) && Sweepables(hdr) <= Sweepables(old(hdr));
          CollectWhite(copy[i].id, grey, base);
          SweptFromStep(kids, base, old(hdr), h1, hdr, x, copy[i].id);
        }
        SweptTrans(grey, old(hdr), old(frees), h1, f1, hdr, frees);
        SweepClosedStep(kids, grey, old(hdr), old(frees), h1, f1, hdr, frees, x, i);
        i := i + 1;
      }
    }

    method Sweep(roots: seq<nat>, ghost reached: set<nat>)
      requires Valid() && Spans(kids, Members(roots), reached)
      requires forall i :: i in reached ==> frees[i] == 0
      modifies this`hdr, this`frees, this`walk, this`walkLen
      ensures Valid() && WindowKept()
      ensures Swept(reached, old(hdr), old(frees), hdr, frees) && SweepClosed(kids, old(hdr), hdr, |kids|, 0)
      ensures forall a :: 0 <= a < |roots| ==> !Sweepable(hdr, roots[a])
      ensures SweptFromAll(kids, reached * Sweepables(old(hdr)), old(hdr), hdr, Members(roots))
    {
      ghost var base := reached * Sweepables(hdr);
      assert forall a :: 0 <= a < |roots| ==> roots[a] in Members(roots);
      var a := 0;
      while a < |roots|
        invariant a <= |roots| && WindowKept()
        invariant Swept(reached, old(hdr), old(frees), hdr, frees) && SweepClosed(kids, old(hdr), hdr, |kids|, 0)
        invariant forall b :: 0 <= b < a ==> !Sweepable(hdr, roots[b])
        invariant SweptFromAll(kids, base, old(hdr), hdr, Members(roots))
      {
        ghost var h1, f1 := hdr, frees;
        CollectWhite(roots[a], reached, base);
        SweptFromRoot(kids, base, old(hdr), h1, hdr, Members(roots), roots[a]);
        SweptTrans(reached, old(hdr), old(frees), h1, f1, hdr, frees);
        a := a + 1;
      }
      SweptConsistent(kids, reached, old(hdr), old(frees), hdr, frees, ext, local, cand);
      assert Live(hdr, frees) == Live(old(hdr), old(frees));
      SameBalanced(kids, old(hdr), old(frees), ext, lost, hdr, frees);
    }

    // ----- one collection -----

    /** Takes the first `take` candidates out of the buffer and clears their flags. */
    method TakeRoots(take: nat) returns (roots: seq<nat>)
      requires Valid() && take <= |cand|
      modifies this`hdr, this`cand
      ensures Valid()
      ensures roots == old(cand)[..take] && cand == old(cand)[take..]
      ensures Unbuffered(old(hdr), hdr, roots)
      ensures forall a :: 0 <= a < |roots| ==> roots[a] < |hdr| && frees[roots[a]] == 0 && !local[roots[a]]
      ensures forall a, b :: 0 <= a < b < |roots| ==> roots[a] != roots[b]
    {
      roots := cand[..take];
      assert cand == roots + cand[take..];
      cand := cand[take..];
      ClearFlags(roots);
      TakeConsistent(kids, old(hdr), hdr, frees, ext, local, roots, cand);
      TakeBalanced(kids, old(hdr), frees, ext, lost, hdr, roots);
    }

    method ClearFlags(roots: seq<nat>)
      requires forall a :: 0 <= a < |roots| ==> roots[a] < |hdr|
      modifies this`hdr
      ensures Unbuffered(old(hdr), hdr, roots)
    {
      var a := 0;
      while a < |roots|
        invariant 0 <= a <= |roots| && Unbuffered(old(hdr), hdr, roots[..a])
      {
        hdr := hdr[roots[a] := hdr[roots[a]].(buffered := false)];
        a := a + 1;
      }
      assert roots[..a] == roots;
    }

    method FreeUncounted(p: nat)
      requires Valid() && p < |hdr| && frees[p] == 0 && hdr[p].rc == 0 && !local[p] && !hdr[p].buffered
      modifies this`frees, this`lost
      ensures Valid() && frees == old(frees)[p := 1] && lost == LostWith(hdr, old(frees), old(lost), p)
    {
      FreeConsistent(kids, hdr, frees, ext, local, cand, p);
      FreeBalanced(kids, hdr, frees, ext, local, lost, p);
      lost := LostWith(hdr, frees, lost, p);
      FreeObject(p);
    }

    /** Frees the roots whose count reached zero while they waited, and keeps the others in order. */
    method DropZeroRoots(roots: seq<nat>) returns (live: seq<nat>)
      requires Valid()
      requires forall a :: 0 <= a < |roots| ==>
                 roots[a] < |hdr| && frees[roots[a]] == 0 && !local[roots[a]] && !hdr[roots[a]].buffered
      requires forall a, b :: 0 <= a < b < |roots| ==> roots[a] != roots[b]
      modifies this`frees, this`lost
      ensures Valid() && Dropped(hdr, old(frees), frees, old(lost), lost, roots)
      ensures forall i :: i in live <==> i in roots && i < |hdr| && hdr[i].rc > 0
    {
      live := [];
      ghost var f0, lost0 := frees, lost;
      var a := 0;
      while a < |roots|
        invariant 0 <= a <= |roots| && Valid() && Dropped(hdr, f0, frees, lost0, lost, roots[..a])
        invariant forall i :: i in live <==> i in roots[..a] && i < |hdr| && hdr[i].rc > 0
      {
        var r := roots[a];
        assert r !in roots[..a] && roots[..a + 1] == roots[..a] + [r];
        assert DroppedAt(hdr, f0, frees, lost, roots[..a], r);
        DropStep(hdr, f0, frees, lost0, lost, roots[..a], r);
        if hdr[r].rc == 0 {
          FreeUncounted(r);
        } else {
          live := live + [r];
        }
        a := a + 1;
      }
      assert roots[..a] == roots;
    }

    /** `cyc_collect` with its root count decided: the first `take` candidates. */
    method CollectRoots(take: nat) returns (ghost reached: set<nat>)
      requires Valid() && take <= |cand|
      modifies this`hdr, this`frees, this`lost, this`cand, this`walk, this`walkLen
      ensures Valid() && WindowKept() && cand == old(cand)[take..]
      ensures Onward(old(Snap()), Snap())
      ensures Spans(kids, CountedRoots(old(cand)[..take], old(hdr)), reached) && reached <= old(Live(hdr, frees))
      ensures PassExact(kids, old(cand)[..take], reached, old(hdr), old(frees), hdr, frees)
      ensures take == |old(cand)| ==> FreedAll(kids, reached, old(hdr), old(frees), hdr, frees)
    {
      ghost var a := Snap();
      WholeBuffer(cand, hdr, frees);
      var roots := TakeRoots(take);
      assert a.cand == roots + cand;
      assert take == |a.cand| ==> roots == a.cand;
      reached := PassFrom(roots, a);
    }

    /** The pass over roots taken out of the buffer, told from the state before they were. */
    method PassFrom(roots: seq<nat>, ghost a: Snapshot) returns (ghost reached: set<nat>)
      requires Valid() && a.Ok() && a == Snap().(h := a.h, cand := roots + cand) && Unbuffered(a.h, hdr, roots)
      requires forall a :: 0 <= a < |roots| ==> roots[a] < |hdr| && frees[roots[a]] == 0 && !local[roots[a]]
      requires forall a, b :: 0 <= a < b < |roots| ==> roots[a] != roots[b]
      modifies this`hdr, this`frees, this`lost, this`walk, this`walkLen
      ensures Valid() && WindowKept() && Onward(a, Snap())
      ensures Spans(kids, CountedRoots(roots, a.h), reached) && |a.h| == |old(frees)| && reached <= Live(a.h, old(frees))
      ensures PassExact(kids, roots, reached, a.h, old(frees), hdr, frees)
      ensures AllTaken(roots, a.h) ==> FreedAll(kids, reached, a.h, old(frees), hdr, frees)
    {
      reached := PassOver(roots, a.h);
      PassOnward(a, Snap(), roots, reached);
    }

    /** The pass over roots that have been taken out of the buffer; `h0` is the heap before that. */
    method PassOver(roots: seq<nat>, ghost h0: seq<Header>) returns (ghost reached: set<nat>)
      requires Valid() && Unbuffered(h0, hdr, roots)
      requires forall a :: 0 <= a < |roots| ==> roots[a] < |hdr| && frees[roots[a]] == 0 && !local[roots[a]]
      requires forall a, b :: 0 <= a < b < |roots| ==> roots[a] != roots[b]
      modifies this`hdr, this`frees, this`lost, this`walk, this`walkLen
      ensures Valid() && WindowKept() && old(lost) <= lost
      ensures |h0| == |old(frees)| && forall i: nat :: i in Live(h0, old(frees)) && ZeroRoot(roots, h0, i) ==> i in lost
      ensures Spans(kids, CountedRoots(roots, h0), reached) && |h0| == |old(frees)| && reached <= Live(h0, old(frees))
      ensures PassExact(kids, roots, reached, h0, old(frees), hdr, frees)
      ensures AllTaken(roots, h0) ==> FreedAll(kids, reached, h0, old(frees), hdr, frees)
    {
      ghost var h1, f0 := hdr, frees;
      var live := DropZeroRoots(roots);
      ghost var f1 := frees;
      DroppedRoots(hdr, f0, f1, old(lost), lost, roots);
      CountedIsLive(kids, h1, f1, ext, local);
      reached := Trial(live);
      ghost var h2 := hdr;
      Sweep(live, reached);
      CollectOutcome(kids, roots, live, reached, h0, f0, h1, f1, h2, hdr, frees);
    }

    /** `cyc_collect`: everything, or at most 256 roots. */
    method Collect(all: bool) returns (take: nat, ghost reached: set<nat>)
      requires Valid()
      modifies this`hdr, this`frees, this`lost, this`cand, this`walk, this`walkLen
      ensures Valid() && WindowKept()
      ensures Onward(old(Snap()), Snap())
      ensures take == if all || |old(cand)| < K_ROOTS then |old(cand)| else K_ROOTS
      ensures cand == old(cand)[take..]
      ensures Spans(kids, CountedRoots(old(cand)[..take], old(hdr)), reached) && reached <= old(Live(hdr, frees))
      ensures PassExact(kids, old(cand)[..take], reached, old(hdr), old(frees), hdr, frees)
      ensures all ==> FreedAll(kids, reached, old(hdr), old(frees), hdr, frees)
      ensures WhitesKept(old(hdr), old(frees), hdr, frees)
    {
      take := if all || |cand| < K_ROOTS then |cand| else K_ROOTS;
      reached := CollectRoots(take);
    }

    /** `cyc_final`: the pass at exit. */
    method Final() returns (ghost reached: set<nat>)
      requires Valid()
      modifies this`hdr, this`frees, this`lost, this`cand, this`walk, this`walkLen
      ensures Valid() && cand == []
      ensures Onward(old(Snap()), Snap())
      ensures old(cand) == [] ==> hdr == old(hdr) && frees == old(frees) && lost == old(lost)
      ensures old(cand) != [] ==> Spans(kids, CountedRoots(old(cand), old(hdr)), reached) && reached <= old(Live(hdr, frees))
      ensures old(cand) != [] ==> PassExact(kids, old(cand), reached, old(hdr), old(frees), hdr, frees)
      ensures old(cand) != [] ==> FreedAll(kids, reached, old(hdr), old(frees), hdr, frees)
    {
      reached := {};
      ghost var passed := false;
      OnwardSame(Snap());
      while |cand| > 0
        invariant Onward(old(Snap()), Snap())
        invariant Valid() && (passed ==> cand == []) && (!passed ==> cand == old(cand) && hdr == old(hdr) && frees == old(frees) && lost == old(lost))
        invariant passed ==> old(cand) != [] && PassedAll(old(cand), old(hdr), old(frees), reached)
        decreases |cand|
      {
        assert cand[..|cand|] == cand && cand[|cand|..] == [];
        var take;
        ghost var before := Snap();
        take, reached := Collect(true);
        OnwardTrans(old(Snap()), before, Snap());
        passed := true;
      }
    }

    /** The outcome of a pass over the whole buffer `roots` from the heap `h0`, `f0`. */
    ghost predicate PassedAll(roots: seq<nat>, h0: seq<Header>, f0: seq<nat>, reached: set<nat>)
      reads this
    {
      && |h0| == |f0|
      && Spans(kids, CountedRoots(roots, h0), reached) && reached <= Live(h0, f0)
      && PassExact(kids, roots, reached, h0, f0, hdr, frees) && FreedAll(kids, reached, h0, f0, hdr, frees)
    }

    // ----- the operations a program performs -----

    /** `cyc_alloc` and the `cyc_set_type` stamp that follows it: `slots` cyclic fields, all null. */
    method Alloc(slots: nat) returns (p: nat)
      requires Valid()
      modifies this`kids, this`hdr, this`frees, this`ext, this`local
      ensures Valid() && p == |old(hdr)|
      ensures kids == old(kids) + [seq(slots, _ => Null)] && hdr == old(hdr) + [Header(0, Black, false)]
      ensures frees == old(frees) + [0] && ext == old(ext) + [0] && local == old(local) + [true]
      ensures WhitesKept(old(hdr), old(frees), hdr, frees) && Onward(old(Snap()), Snap())
    {
      p := |hdr|;
      var fields: seq<Ref> := seq(slots, _ => Null);
      ghost var a := Snap();
      NewObject(fields);
      AllocOnward(a, Snap(), fields);
    }

    method NewObject(fields: seq<Ref>)
      requires Valid() && forall k :: 0 <= k < |fields| ==> fields[k] == Null
      modifies this`kids, this`hdr, this`frees, this`ext, this`local
      ensures Valid()
      ensures kids == old(kids) + [fields] && hdr == old(hdr) + [Header(0, Black, false)]
      ensures frees == old(frees) + [0] && ext == old(ext) + [0] && local == old(local) + [true]
    {
      AllocConsistent(kids, hdr, frees, ext, local, fields);
      AllocBalanced(kids, hdr, frees, ext, local, lost, fields);
      kids, hdr, frees := kids + [fields], hdr + [Header(0, Black, false)], frees + [0];
      ext, local := ext + [0], local + [true];
    }

    /** `cyc_retain`, by a program that can reach the object. */
    method Retain(p: Ref)
      requires Valid() && (p.To? ==> Accessible(kids, ext, local, p.id))
      modifies this`hdr, this`ext, this`local
      ensures Valid()
      ensures p.Null? ==> hdr == old(hdr) && ext == old(ext) && local == old(local)
      ensures p.To? ==> p.id < |old(hdr)| == |old(ext)| == |old(local)|
      ensures p.To? ==> hdr == old(hdr)[p.id := old(hdr)[p.id].(rc := old(hdr)[p.id].rc + 1)]
      ensures p.To? ==> ext == old(ext)[p.id := old(ext)[p.id] + 1] && local == old(local)[p.id := false]
      ensures WhitesKept(old(hdr), old(frees), hdr, frees) && Onward(old(Snap()), Snap())
    {
      if p.Null? {
        OnwardSame(Snap());
        return;
      }
      RetainObject(p.id);
    }

    method RetainObject(p: nat)
      requires Valid() && Accessible(kids, ext, local, p)
      modifies this`hdr, this`ext, this`local
      ensures Valid() && p < |old(hdr)| == |old(ext)| == |old(local)|
      ensures hdr == old(hdr)[p := old(hdr)[p].(rc := old(hdr)[p].rc + 1)]
      ensures ext == old(ext)[p := old(ext)[p] + 1] && local == old(local)[p := false]
      ensures WhitesKept(old(hdr), old(frees), hdr, frees) && Onward(old(Snap()), Snap())
    {
      ghost var a := Snap();
      CountMore(p);
      OneChanged(kids, old(hdr), frees, old(ext), old(local), hdr, frees, p);
      assert p in Within(a);
      RetainOnward(a, Snap(), p);
    }

    method CountMore(p: nat)
      requires Valid() && Accessible(kids, ext, local, p)
      modifies this`hdr, this`ext, this`local
      ensures Valid() && p < |old(hdr)| == |old(ext)| == |old(local)| && Live(hdr, frees) == old(Live(hdr, frees))
      ensures hdr == old(hdr)[p := old(hdr)[p].(rc := old(hdr)[p].rc + 1)]
      ensures ext == old(ext)[p := old(ext)[p] + 1] && local == old(local)[p := false]
      ensures old(p in Live(hdr, frees))
    {
      AccessibleIsLive(kids, hdr, frees, ext, local, p);
      var h, e, l := hdr[p := hdr[p].(rc := hdr[p].rc + 1)], ext[p := ext[p] + 1], local[p := false];
      RetainedBalanced(p, h, e, l);
      hdr, ext, local := h, e, l;
    }

    lemma RetainedBalanced(p: nat, h: seq<Header>, e: seq<nat>, l: seq<bool>)
      requires Valid() && Accessible(kids, ext, local, p) && p < |hdr|
      requires h == hdr[p := hdr[p].(rc := hdr[p].rc + 1)] && e == ext[p := ext[p] + 1] && l == local[p := false]
      ensures Consistent(kids, h, frees, e, l) && BufferOk(cand, h, frees) && Balanced(kids, h, frees, e, lost)
      ensures p in Live(hdr, frees) && Live(h, frees) == Live(hdr, frees)
    {
      RetainConsistent(kids, hdr, frees, ext, local, cand, p);
      RetainBalanced(kids, hdr, frees, ext, lost, p);
    }

    /** `cyc_release`, by a holder giving its hold back. `reached` is what the collection walked,
        when the release filled the buffer and started one. */
    method Release(p: Ref) returns (ghost reached: set<nat>)
      requires Valid() && (p.To? ==> Holder(ext, local, p.id))
      modifies this`hdr, this`frees, this`lost, this`ext, this`cand, this`walk, this`walkLen
      ensures Valid() && WindowKept()
      ensures p.Null? || old(hdr[p.id].rc) == 0 ==>
                ext == old(ext) && hdr == old(hdr) && frees == old(frees) && cand == old(cand) && lost == old(lost)
      ensures p.To? && old(hdr[p.id].rc) > 0 ==> ext == old(ext)[p.id := old(ext)[p.id] - 1]
      ensures p.To? && old(hdr[p.id].rc) == 1 ==> LastReleased(p.id)
      ensures p.To? && old(hdr[p.id].rc) > 1 ==> OneReleased(p.id, reached)
      ensures |frees| == |old(frees)| && forall i :: 0 <= i < |frees| ==> frees[i] >= old(frees)[i]
      ensures WhitesKept(old(hdr), old(frees), hdr, frees) && Onward(old(Snap()), Snap())
    {
      reached := {};
      if p.Null? || hdr[p.id].rc == 0 {
        OnwardSame(Snap());
        return;
      }
      if hdr[p.id].rc == 1 {
        ReleaseLast(p.id);
      } else {
        reached := ReleaseOne(p.id);
      }
    }

    twostate predicate LastReleased(p: nat)
      requires old(p < |hdr| == |frees|)
      reads this
    {
      && cand == old(cand)
      && (if old(hdr[p].buffered)
          then hdr == old(hdr)[p := old(hdr[p]).(rc := 0, colour := Black)] && frees == old(frees) && lost == old(lost)
          else hdr == old(hdr)[p := old(hdr[p]).(rc := 0)] && frees == old(frees)[p := 1] && lost == old(lost) + {p})
    }

    /** The count reaches zero: freed at once, or left to the collection that has it buffered. */
    method ReleaseLast(p: nat)
      requires Valid() && p < |ext| && ext[p] > 0 && hdr[p].rc == 1
      modifies this`hdr, this`frees, this`lost, this`ext
      ensures Valid() && ext == old(ext)[p := old(ext)[p] - 1]
      ensures LastReleased(p)
      ensures WhitesKept(old(hdr), old(frees), hdr, frees) && Onward(old(Snap()), Snap())
    {
      if hdr[p].buffered {
        GiveUp(p, Black);
      } else {
        FreeLast(p);
      }
    }

    /** One hold less on an object that is already a candidate. */
    method GiveUp(p: nat, colour: Colour)
      requires Valid() && p < |ext| && ext[p] > 0 && hdr[p].buffered && hdr[p].rc > 0 && (colour == Black || colour == hdr[p].colour)
      modifies this`hdr, this`ext
      ensures Valid() && ext == old(ext)[p := old(ext)[p] - 1] && hdr == old(hdr)[p := Header(old(hdr)[p].rc - 1, colour, true)]
      ensures WhitesKept(old(hdr), frees, hdr, frees) && Onward(old(Snap()), Snap())
    {
      var h := Header(hdr[p].rc - 1, colour, true);
      ReleaseConsistent(kids, hdr, frees, ext, local, cand, p, h);
      HoldBalanced(kids, hdr, frees, ext, lost, p, h, ext[p] - 1);
      hdr, ext := hdr[p := h], ext[p := ext[p] - 1];
      OneChanged(kids, old(hdr), frees, old(ext), local, hdr, frees, p);
      StillCandidate(old(Snap()), Snap(), p);
    }

    /** The last hold on an object that is no candidate. */
    method FreeLast(p: nat)
      requires Valid() && p < |ext| && ext[p] > 0 && hdr[p].rc == 1 && !hdr[p].buffered
      modifies this`hdr, this`frees, this`lost, this`ext
      ensures Valid() && ext == old(ext)[p := old(ext)[p] - 1]
      ensures hdr == old(hdr)[p := old(hdr)[p].(rc := 0)] && frees == old(frees)[p := 1] && lost == old(lost) + {p}
      ensures WhitesKept(old(hdr), old(frees), hdr, frees) && Onward(old(Snap()), Snap())
    {
      DropHold(p);
      FreeUncounted(p);
      FreeOnward(old(Snap()), Snap(), p);
    }

    method DropHold(p: nat)
      requires Valid() && p < |ext| && ext[p] > 0 && hdr[p].rc == 1 && !hdr[p].buffered
      modifies this`hdr, this`ext
      ensures Valid() && ext == old(ext)[p := old(ext)[p] - 1] && hdr == old(hdr)[p := old(hdr)[p].(rc := 0)]
      ensures old(p in Live(hdr, frees)) && Live(hdr, frees) == old(Live(hdr, frees))
    {
      ReleaseConsistent(kids, hdr, frees, ext, local, cand, p, hdr[p].(rc := 0));
      HoldBalanced(kids, hdr, frees, ext, lost, p, hdr[p].(rc := 0), ext[p] - 1);
      hdr, ext := hdr[p := hdr[p].(rc := 0)], ext[p := ext[p] - 1];
    }

    twostate predicate OneReleased(p: nat, reached: set<nat>)
      requires old(p < |hdr| && hdr[p].rc > 0)
      reads this
    {
      var h := old(hdr[p]);
      if h.buffered then
        hdr == old(hdr)[p := h.(rc := h.rc - 1)] && frees == old(frees) && cand == old(cand) && lost == old(lost)
      else
        var hdr1, cand1 := old(hdr)[p := Header(h.rc - 1, Purple, true)], old(cand) + [p];
        if |cand1| < THETA_BUFFER then
          hdr == hdr1 && frees == old(frees) && cand == cand1 && lost == old(lost)
        else
          && cand == cand1[K_ROOTS..] && PassExact(kids, cand1[..K_ROOTS], reached, hdr1, old(frees), hdr, frees)
          && |hdr1| == |old(frees)| && reached <= Live(hdr1, old(frees)) && Spans(kids, CountedRoots(cand1[..K_ROOTS], hdr1), reached)
    }

    /** The count drops without reaching zero: the one place a candidate is born. */
    method ReleaseOne(p: nat) returns (ghost reached: set<nat>)
      requires Valid() && p < |ext| && ext[p] > 0 && hdr[p].rc > 1
      modifies this`hdr, this`frees, this`lost, this`ext, this`cand, this`walk, this`walkLen
      ensures Valid() && WindowKept() && ext == old(ext)[p := old(ext)[p] - 1]
      ensures OneReleased(p, reached)
      ensures WhitesKept(old(hdr), old(frees), hdr, frees) && Onward(old(Snap()), Snap())
    {
      reached := {};
      var h := hdr[p];
      if h.buffered {
        GiveUp(p, h.colour);
        return;
      }
      BufferOne(p);
      ghost var h1, before := hdr, Snap();
      reached := CollectIfFull();
      OnwardTrans(old(Snap()), before, Snap());
      WhitesKeptTrans(old(hdr), old(frees), h1, old(frees), hdr, frees);
    }

    /** A count less, and the object becomes a candidate. */
    method BufferOne(p: nat)
      requires Valid() && p < |ext| && ext[p] > 0 && hdr[p].rc > 1 && !hdr[p].buffered
      modifies this`hdr, this`ext, this`cand
      ensures Valid() && ext == old(ext)[p := old(ext)[p] - 1] && cand == old(cand) + [p]
      ensures hdr == old(hdr)[p := Header(old(hdr)[p].rc - 1, Purple, true)]
      ensures WhitesKept(old(hdr), frees, hdr, frees) && Onward(old(Snap()), Snap())
    {
      var h := Header(hdr[p].rc - 1, Purple, true);
      ReleaseConsistent(kids, hdr, frees, ext, local, cand, p, h);
      HoldBalanced(kids, hdr, frees, ext, lost, p, h, ext[p] - 1);
      hdr, ext, cand := hdr[p := h], ext[p := ext[p] - 1], cand + [p];
      StillCandidate(old(Snap()), Snap(), p);
      OneChanged(kids, old(hdr), frees, old(ext), local, hdr, frees, p);
    }

    /** Buffer occupancy is what triggers a bounded collection. */
    method CollectIfFull() returns (ghost reached: set<nat>)
      requires Valid()
      modifies this`hdr, this`frees, this`lost, this`cand, this`walk, this`walkLen
      ensures Valid() && WindowKept()
      ensures Onward(old(Snap()), Snap())
      ensures |old(cand)| < THETA_BUFFER ==> hdr == old(hdr) && frees == old(frees) && cand == old(cand) && lost == old(lost)
      ensures |old(cand)| >= THETA_BUFFER ==>
                cand == old(cand)[K_ROOTS..] && PassExact(kids, old(cand)[..K_ROOTS], reached, old(hdr), old(frees), hdr, frees)
      ensures |old(cand)| >= THETA_BUFFER ==>
                Spans(kids, CountedRoots(old(cand)[..K_ROOTS], old(hdr)), reached) && reached <= old(Live(hdr, frees))
      ensures WhitesKept(old(hdr), old(frees), hdr, frees)
    {
      OnwardSame(Snap());
      reached := {};
      if |cand| >= THETA_BUFFER {
        var take;
        take, reached := Collect(false);
      }
    }

    /** A field store: the hold on `v` moves into the field, the old content's hold moves out. */
    method Store(x: nat, k: nat, v: Ref) returns (was: Ref)
      requires Valid() && Holder(ext, local, x) && k < |kids[x]|
      requires v.To? ==> v.id < |ext| && ext[v.id] > 0
      modifies this`kids, this`ext, this`alone
      ensures Valid() && was == old(kids)[x][k] && kids == old(kids)[x := old(kids)[x][k := v]]
      ensures was.To? ==> was.id < |old(ext)|
      ensures ext == Moved(old(ext), v, was) && alone == AloneWith(old(alone), old(ext), x, v) && Onward(old(Snap()), Snap())
    {
      was := kids[x][k];
      StoreConsistent(kids, hdr, frees, ext, local, x, k, v);
      StoreBalanced(kids, hdr, frees, ext, lost, x, k, v);
      alone := AloneWith(alone, ext, x, v);
      ext := Moved(ext, v, was);
      kids := kids[x := kids[x][k := v]];
      StoreOnward(old(Snap()), Snap(), x, k, v);
    }
  }
}
