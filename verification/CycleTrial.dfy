/** Trial deletion on values: what the collector's three traversals keep true at every step,
    and what follows once they have finished. */
module CycleTrial {
  import opened Basics
  import opened CycleGraph

  datatype Colour = Black | Grey | White | Purple

  datatype Header = Header(rc: nat, colour: Colour, buffered: bool)

  // ----- marking: subtract every reference held inside the candidate subgraph -----

  /** `live` is closed, and every count in it covers the references from `live`. */
  ghost predicate Counted(g: Graph, live: set<nat>, h: seq<Header>) {
    && WellFormed(g)
    && |h| == |g|
    && Closed(g, live)
    && (forall y :: y in live ==> y < |g| && h[y].rc >= From(g, live, y))
  }

  /** `done[i]` references of each grey object have been subtracted from the counts in `h0`, and
      each of them leads to a grey object, or to one of the `excused` about to become grey. */
  ghost predicate MarkInv(g: Graph, live: set<nat>, h0: seq<Header>, h: seq<Header>, done: seq<nat>, excused: set<nat>) {
    && |h| == |h0| == |g|
    && Progress(g, done)
    && (forall i :: 0 <= i < |g| ==> h[i].buffered == h0[i].buffered)
    && (forall i :: 0 <= i < |g| && h[i].colour != Grey ==> h[i].colour == h0[i].colour && done[i] == 0)
    && (forall i :: 0 <= i < |g| && h[i].colour == Grey ==> i in live)
    && (forall i {:trigger Arrived(g, done, i)} :: 0 <= i < |g| ==> h[i].rc == h0[i].rc - Arrived(g, done, i))
    && (forall i, k :: 0 <= i < |g| && 0 <= k < done[i] && g[i][k].To? && g[i][k].id < |g| ==>
          h[g[i][k].id].colour == Grey || g[i][k].id in excused)
  }

  /** The guard `rc > 0` of the marking loop never fails, and the subtraction keeps the invariant. */
  lemma MarkEdge(g: Graph, live: set<nat>, h0: seq<Header>, h: seq<Header>, done: seq<nat>, x: nat, y: nat)
    requires Counted(g, live, h0) && MarkInv(g, live, h0, h, done, {})
    requires x < |g| && h[x].colour == Grey && done[x] < |g[x]| && g[x][done[x]] == To(y)
    ensures y in live && y < |g| && h[y].rc > 0
    ensures MarkInv(g, live, h0, h[y := h[y].(rc := h[y].rc - 1)], done[x := done[x] + 1], {y})
  {
    var done' := done[x := done[x] + 1];
    assert Edge(g, x, y);
    WalkOne(g, done, x, |g|, y);
    WalkedMono(g, done', Whole(g, live), |g|, y);
    assert h[y].rc == h0[y].rc - Arrived(g, done, y);
    forall i: nat | i < |g| ensures h[i].rc - (if i == y then 1 else 0) == h0[i].rc - Arrived(g, done', i) {
      WalkOne(g, done, x, |g|, i);
      assert h[i].rc == h0[i].rc - Arrived(g, done, i);
    }
  }

  /** A null reference is skipped. */
  lemma MarkNull(g: Graph, live: set<nat>, h0: seq<Header>, h: seq<Header>, done: seq<nat>, x: nat)
    requires MarkInv(g, live, h0, h, done, {})
    requires x < |g| && h[x].colour == Grey && done[x] < |g[x]| && g[x][done[x]] == Null
    ensures MarkInv(g, live, h0, h, done[x := done[x] + 1], {})
  {
    var done' := done[x := done[x] + 1];
    forall i: nat | i < |g| ensures h[i].rc == h0[i].rc - Arrived(g, done', i) {
      WalkOne(g, done, x, |g|, i);
      assert h[i].rc == h0[i].rc - Arrived(g, done, i);
    }
  }

  /** Marking is finished: the grey objects are exactly `grey`, with all they hold subtracted. */
  ghost predicate Marked(g: Graph, grey: set<nat>, h0: seq<Header>, h1: seq<Header>) {
    && |h1| == |h0| == |g|
    && (forall i :: i in grey ==> i < |g|)
    && Closed(g, grey)
    && (forall i :: 0 <= i < |g| ==> h1[i].buffered == h0[i].buffered)
    && (forall i :: 0 <= i < |g| ==> h1[i].colour == if i in grey then Grey else h0[i].colour)
    && (forall i :: 0 <= i < |g| ==> h1[i].rc == h0[i].rc - From(g, grey, i))
  }

  ghost function Greys(h: seq<Header>): set<nat> {
    set i: nat | i < |h| && h[i].colour == Grey
  }

  lemma MarkDone(g: Graph, live: set<nat>, h0: seq<Header>, h1: seq<Header>, done: seq<nat>)
    requires WellFormed(g) && MarkInv(g, live, h0, h1, done, {})
    requires forall i :: 0 <= i < |g| ==> h0[i].colour != Grey
    requires forall i :: 0 <= i < |g| && h1[i].colour == Grey ==> done[i] == |g[i]|
    ensures Marked(g, Greys(h1), h0, h1)
  {
    var grey := Greys(h1);
    forall x, y | x in grey && Edge(g, x, y) ensures y in grey {
      var k :| 0 <= k < |g[x]| && g[x][k] == To(y);
      assert h1[g[x][k].id].colour == Grey;
    }
    forall i: nat | i < |g| ensures Arrived(g, done, i) == From(g, grey, i) {
      WalkedSame(g, done, Whole(g, grey), |g|, i);
    }
  }

  // ----- scanning: give back what a live object holds, leave the rest white -----

  /** `up` holds every marked object the marking left with a positive count, and all they reach. */
  ghost predicate Upholds(g: Graph, grey: set<nat>, h1: seq<Header>, up: set<nat>) {
    && |h1| == |g|
    && Closed(g, up)
    && (forall r :: r in grey && r < |g| && h1[r].rc > 0 ==> r in up)
  }

  ghost predicate ScanInv(g: Graph, grey: set<nat>, up: set<nat>, h1: seq<Header>, h: seq<Header>, done: seq<nat>, excused: set<nat>) {
    && |h| == |h1| == |g|
    && Progress(g, done)
    && (forall i :: 0 <= i < |g| ==> h[i].buffered == h1[i].buffered)
    && (forall i :: 0 <= i < |g| && i !in grey ==> h[i] == h1[i] && done[i] == 0)
    && (forall i :: 0 <= i < |g| && i in grey ==> h[i].colour != Purple)
    && (forall i :: 0 <= i < |g| && done[i] > 0 ==> h[i].colour == Black)
    && (forall i {:trigger Arrived(g, done, i)} :: 0 <= i < |g| ==> h[i].rc == h1[i].rc + Arrived(g, done, i))
    && (forall i, k :: 0 <= i < |g| && 0 <= k < done[i] && g[i][k].To? && g[i][k].id < |g| ==>
          h[g[i][k].id].colour == Black || g[i][k].id in excused)
    && (forall i :: 0 <= i < |g| && i in grey && h[i].colour == White ==> h1[i].rc == 0)
    && (forall i :: 0 <= i < |g| && i in grey && h[i].colour == Black ==> i in up)
  }

  lemma BlackEdge(g: Graph, grey: set<nat>, up: set<nat>, h1: seq<Header>, h: seq<Header>, done: seq<nat>, x: nat, y: nat)
    requires WellFormed(g) && Closed(g, grey) && Closed(g, up) && ScanInv(g, grey, up, h1, h, done, {})
    requires x < |g| && x in grey && h[x].colour == Black && done[x] < |g[x]| && g[x][done[x]] == To(y)
    ensures y in grey && y < |g| && y in up
    ensures ScanInv(g, grey, up, h1, h[y := h[y].(rc := h[y].rc + 1)], done[x := done[x] + 1], {y})
  {
    assert Edge(g, x, y);
    var done' := done[x := done[x] + 1];
    forall i: nat | i < |g| ensures h[i].rc + (if i == y then 1 else 0) == h1[i].rc + Arrived(g, done', i) {
      WalkOne(g, done, x, |g|, i);
      assert h[i].rc == h1[i].rc + Arrived(g, done, i);
    }
  }

  lemma BlackNull(g: Graph, grey: set<nat>, up: set<nat>, h1: seq<Header>, h: seq<Header>, done: seq<nat>, x: nat)
    requires ScanInv(g, grey, up, h1, h, done, {})
    requires x < |g| && x in grey && h[x].colour == Black && done[x] < |g[x]| && g[x][done[x]] == Null
    ensures ScanInv(g, grey, up, h1, h, done[x := done[x] + 1], {})
  {
    var done' := done[x := done[x] + 1];
    forall i: nat | i < |g| ensures h[i].rc == h1[i].rc + Arrived(g, done', i) {
      WalkOne(g, done, x, |g|, i);
      assert h[i].rc == h1[i].rc + Arrived(g, done, i);
    }
  }

  /** Until an object turns black, nothing has been given back to it. */
  lemma NotBlackCount(g: Graph, grey: set<nat>, up: set<nat>, h1: seq<Header>, h: seq<Header>, done: seq<nat>, x: nat)
    requires ScanInv(g, grey, up, h1, h, done, {})
    requires x < |g| && h[x].colour != Black
    ensures h[x].rc == h1[x].rc
  {
    WalkedZero(g, done, |g|, x);
    assert h[x].rc == h1[x].rc + Arrived(g, done, x);
  }

  /** The first `seen[i]` references of a white object lead to objects no longer grey. */
  ghost predicate SeenInv(g: Graph, grey: set<nat>, h: seq<Header>, seen: seq<nat>) {
    && |h| == |g|
    && Progress(g, seen)
    && (forall i, k :: 0 <= i < |g| && i in grey && h[i].colour == White && 0 <= k < seen[i] && g[i][k].To? && g[i][k].id < |g| ==>
          h[g[i][k].id].colour != Grey)
  }

  ghost predicate BlackWhole(g: Graph, grey: set<nat>, h: seq<Header>, done: seq<nat>) {
    && |h| == |g| == |done|
    && (forall i :: 0 <= i < |g| && i in grey && h[i].colour == Black ==> done[i] == |g[i]|)
  }

  /** A marked object with no count left turns white. */
  lemma Whiten(g: Graph, grey: set<nat>, up: set<nat>, h1: seq<Header>, h: seq<Header>, done: seq<nat>, seen: seq<nat>, x: nat)
    requires ScanInv(g, grey, up, h1, h, done, {}) && BlackWhole(g, grey, h, done) && SeenInv(g, grey, h, seen)
    requires x < |g| && x in grey && h[x].colour == Grey && h[x].rc == 0
    ensures var h' := h[x := h[x].(colour := White)];
            ScanInv(g, grey, up, h1, h', done, {}) && BlackWhole(g, grey, h', done) && SeenInv(g, grey, h', seen[x := 0])
  {
    NotBlackCount(g, grey, up, h1, h, done, x);
  }

  /** Blackening some objects leaves no white object with a newly grey child. */
  lemma SeenKept(g: Graph, grey: set<nat>, h: seq<Header>, h': seq<Header>, seen: seq<nat>)
    requires SeenInv(g, grey, h, seen) && |h'| == |h|
    requires forall i :: 0 <= i < |h| ==> h'[i].colour == Black || h'[i].colour == h[i].colour
    ensures SeenInv(g, grey, h', seen)
  {
  }

  /** One more reference of the white object `x` has been scanned. */
  lemma SeenOne(g: Graph, grey: set<nat>, h: seq<Header>, seen: seq<nat>, x: nat)
    requires SeenInv(g, grey, h, seen) && x < |g| && seen[x] < |g[x]|
    requires g[x][seen[x]].To? && g[x][seen[x]].id < |g| ==> h[g[x][seen[x]].id].colour != Grey
    ensures SeenInv(g, grey, h, seen[x := seen[x] + 1])
  {
  }

  ghost function Whites(grey: set<nat>, h: seq<Header>): set<nat> {
    set i | i in grey && i < |h| && h[i].colour == White
  }

  /** `reached` is what the roots reach: closed, holding the roots, and nothing else. */
  ghost predicate Spans(g: Graph, roots: set<nat>, reached: set<nat>) {
    && Closed(g, reached)
    && roots <= reached
    && (forall i :: i in reached ==> i < |g|)
    && (forall i {:trigger ReachFrom(g, roots, i)} :: i in reached ==> ReachFrom(g, roots, i))
  }

  /** Whatever holds of the roots and passes along every reference holds of all they reach. */
  lemma SpansInduct(g: Graph, roots: set<nat>, reached: set<nat>, s: set<nat>)
    requires Spans(g, roots, reached) && Closed(g, s) && roots <= s
    ensures reached <= s
  {
    forall i | i in reached ensures i in s {
      assert ReachFrom(g, roots, i);
      var x :| x in roots && Reach(g, x, i);
      ClosedReach(g, s, x, i);
    }
  }

  /** The exact outcome of marking and scanning everything in `reached`: which objects are white,
      what every count is, and that nothing outside was touched. */
  ghost predicate TrialExact(g: Graph, reached: set<nat>, h0: seq<Header>, h2: seq<Header>) {
    && |h2| == |h0| == |g|
    && (forall i :: i in reached ==> i < |g|)
    && (forall i :: 0 <= i < |g| && i !in reached ==> h2[i] == h0[i])
    && (forall i :: i in reached ==>
          && h2[i].buffered == h0[i].buffered
          && (h2[i].colour == White || h2[i].colour == Black)
          && h2[i].rc == h0[i].rc - From(g, Whites(reached, h2), i)
          && (h2[i].colour == White ==> h2[i].rc == 0))
    && (forall i {:trigger Surplus(g, reached, h0, i)} :: i in reached ==>
          (h2[i].colour == White <==> !Surplus(g, reached, h0, i)))
  }

  /** `i` is reachable from a reached object whose count exceeds its references from reached objects. */
  ghost predicate Surplus(g: Graph, reached: set<nat>, h0: seq<Header>, i: nat)
    requires |h0| == |g|
  {
    exists r :: r in reached && r < |g| && h0[r].rc > From(g, reached, r) && Reach(g, r, i)
  }

  ghost predicate OnlySurplus(g: Graph, reached: set<nat>, h0: seq<Header>, up: set<nat>)
    requires |h0| == |g|
  {
    forall i {:trigger Surplus(g, reached, h0, i)} :: i in up ==> Surplus(g, reached, h0, i)
  }

  lemma SurplusUpholds(g: Graph, grey: set<nat>, h0: seq<Header>, h1: seq<Header>) returns (up: set<nat>)
    requires Marked(g, grey, h0, h1)
    ensures Upholds(g, grey, h1, up) && OnlySurplus(g, grey, h0, up)
  {
    up := set i | i in grey && Surplus(g, grey, h0, i);
    forall x, y | x in up && Edge(g, x, y) ensures y in up {
      var r :| r in grey && r < |g| && h0[r].rc > From(g, grey, r) && Reach(g, r, x);
      ReachSelf(g, y);
      ReachStep(g, x, y, y);
      ReachTrans(g, r, x, y);
    }
    forall r | r in grey && r < |g| && h1[r].rc > 0 ensures r in up {
      ReachSelf(g, r);
    }
  }

  /** Every reached object is settled: black and given back whole, or white with no grey child. */
  ghost predicate Scanned(g: Graph, grey: set<nat>, up: set<nat>, h1: seq<Header>, h2: seq<Header>, done: seq<nat>, seen: seq<nat>) {
    && ScanInv(g, grey, up, h1, h2, done, {})
    && BlackWhole(g, grey, h2, done)
    && SeenInv(g, grey, h2, seen)
    && (forall i :: 0 <= i < |g| && i in grey && h2[i].colour == White ==> seen[i] == |g[i]|)
  }

  /** Scanning starts with nothing given back and nothing scanned. */
  lemma ScanStart(g: Graph, grey: set<nat>, up: set<nat>, h0: seq<Header>, h1: seq<Header>)
    requires Marked(g, grey, h0, h1)
    ensures Scanned(g, grey, up, h1, h1, Whole(g, {}), Whole(g, {}))
  {
    forall i: nat | i < |g| ensures Arrived(g, Whole(g, {}), i) == 0 {
      WalkedZero(g, Whole(g, {}), |g|, i);
    }
  }

  lemma ScanDone(g: Graph, roots: set<nat>, grey: set<nat>, up: set<nat>, h0: seq<Header>, h1: seq<Header>, h2: seq<Header>,
                 done: seq<nat>, seen: seq<nat>)
    requires WellFormed(g) && Spans(g, roots, grey) && Marked(g, grey, h0, h1)
    requires OnlySurplus(g, grey, h0, up)
    requires Scanned(g, grey, up, h1, h2, done, seen)
    requires forall x :: x in roots ==> h2[x].colour != Grey
    ensures TrialExact(g, grey, h0, h2)
  {
    NoGreyLeft(g, roots, grey, up, h1, h2, done, seen);
    SettledExact(g, grey, up, h0, h1, h2, done);
  }

  lemma SettledExact(g: Graph, grey: set<nat>, up: set<nat>, h0: seq<Header>, h1: seq<Header>, h2: seq<Header>, done: seq<nat>)
    requires WellFormed(g) && Marked(g, grey, h0, h1)
    requires OnlySurplus(g, grey, h0, up)
    requires ScanInv(g, grey, up, h1, h2, done, {}) && BlackWhole(g, grey, h2, done)
    requires forall i :: i in grey ==> h2[i].colour == White || h2[i].colour == Black
    ensures TrialExact(g, grey, h0, h2)
  {
    forall i: nat | i < |g| && i !in grey ensures h2[i] == h0[i] {
      FromZero(g, grey, i);
    }
    forall i | i in grey
      ensures h2[i].rc == h0[i].rc - From(g, Whites(grey, h2), i)
      ensures h2[i].colour == White ==> h2[i].rc == 0
      ensures h2[i].colour == White <==> !Surplus(g, grey, h0, i)
    {
      ScanCounts(g, grey, up, h0, h1, h2, done, i);
      WhiteExact(g, grey, up, h0, h1, h2, done, i);
    }
  }

  ghost function Blacks(grey: set<nat>, h: seq<Header>): set<nat> {
    set i | i in grey && i < |h| && h[i].colour == Black
  }

  lemma ScanCounts(g: Graph, grey: set<nat>, up: set<nat>, h0: seq<Header>, h1: seq<Header>, h2: seq<Header>, done: seq<nat>, i: nat)
    requires Marked(g, grey, h0, h1) && i in grey
    requires ScanInv(g, grey, up, h1, h2, done, {}) && BlackWhole(g, grey, h2, done)
    requires forall i :: i in grey ==> h2[i].colour == White || h2[i].colour == Black
    ensures h2[i].rc == h0[i].rc - From(g, Whites(grey, h2), i)
    ensures h2[i].colour == White ==> h2[i].rc == 0
  {
    var white, black := Whites(grey, h2), Blacks(grey, h2);
    assert black + white == grey;
    FromSplit(g, black, white, i);
    WalkedSame(g, done, Whole(g, black), |g|, i);
    assert h2[i].rc == h1[i].rc + Arrived(g, done, i);
    if h2[i].colour == White {
      NotBlackCount(g, grey, up, h1, h2, done, i);
    }
  }

  lemma WhiteExact(g: Graph, grey: set<nat>, up: set<nat>, h0: seq<Header>, h1: seq<Header>, h2: seq<Header>, done: seq<nat>, i: nat)
    requires WellFormed(g) && Marked(g, grey, h0, h1) && i in grey
    requires ScanInv(g, grey, up, h1, h2, done, {}) && BlackWhole(g, grey, h2, done)
    requires forall i :: i in grey ==> h2[i].colour == White || h2[i].colour == Black
    ensures h2[i].colour == Black ==> i in up
    ensures h2[i].colour == White ==> !Surplus(g, grey, h0, i)
  {
    if h2[i].colour == White && Surplus(g, grey, h0, i) {
      var r :| r in grey && r < |g| && h0[r].rc > From(g, grey, r) && Reach(g, r, i);
      BlackClosed(g, grey, up, h1, h2, done);
      ClosedReach(g, Blacks(grey, h2), r, i);
    }
  }

  lemma BlackClosed(g: Graph, grey: set<nat>, up: set<nat>, h1: seq<Header>, h2: seq<Header>, done: seq<nat>)
    requires WellFormed(g) && Closed(g, grey) && ScanInv(g, grey, up, h1, h2, done, {}) && BlackWhole(g, grey, h2, done)
    ensures Closed(g, Blacks(grey, h2))
  {
  }

  lemma NoGreyLeft(g: Graph, roots: set<nat>, grey: set<nat>, up: set<nat>, h1: seq<Header>, h2: seq<Header>, done: seq<nat>, seen: seq<nat>)
    requires WellFormed(g) && Spans(g, roots, grey) && Scanned(g, grey, up, h1, h2, done, seen)
    requires forall x :: x in roots ==> h2[x].colour != Grey
    ensures forall i :: i in grey ==> h2[i].colour == White || h2[i].colour == Black
  {
    var settled := set i | i in grey && h2[i].colour != Grey;
    forall x, y | x in settled && Edge(g, x, y) ensures y in settled {
      var k :| 0 <= k < |g[x]| && g[x][k] == To(y);
      assert y in grey && h2[g[x][k].id].colour != Grey;
    }
    SpansInduct(g, roots, grey, settled);
  }
}
