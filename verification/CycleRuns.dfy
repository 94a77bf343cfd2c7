/** Whole runs of a program over the cycle collector, and what a bounded pass can leave behind. */
module CycleRuns {
  import opened Basics
  import opened CycleGraph
  import opened CycleTrial
  import opened CycleHeap
  import opened CycleExact
  import opened CycleCollector

  /** What a program can do. An operation its holds do not permit is skipped by `Run`. */
  datatype Op =
    | New(slots: nat)              // allocate
    | Dup(x: nat)                  // take one more counted hold on a held object
    | Load(x: nat, k: nat)         // take a counted hold on what a held object's field references
    | Put(x: nat, k: nat, v: Ref)  // store a held reference into a held object's field
    | Drop(x: nat)                 // give a hold back
    | CollectNow                   // a full collection
    | CollectSome                  // a bounded one

  /** One pass, over the first `take` candidates. */
  ghost predicate PassBetween(a: Snapshot, b: Snapshot, take: nat, reached: set<nat>) {
    && take <= |a.cand| && |a.h| == |a.f| == |a.g| && b == a.(h := b.h, f := b.f, lost := b.lost, cand := a.cand[take..])
    && Spans(a.g, CountedRoots(a.cand[..take], a.h), reached) && reached <= Live(a.h, a.f)
    && PassExact(a.g, a.cand[..take], reached, a.h, a.f, b.h, b.f)
  }

  ghost predicate Passes(a: Snapshot, b: Snapshot, take: nat) {
    exists reached :: PassBetween(a, b, take, reached)
  }

  ghost predicate Shaped(a: Snapshot) {
    |a.h| == |a.f| == |a.ext| == |a.local| == |a.g|
  }

  function OneMore(a: Snapshot, x: nat): Snapshot
    requires x < |a.h| == |a.ext| == |a.local|
  {
    a.(h := a.h[x := a.h[x].(rc := a.h[x].rc + 1)], ext := a.ext[x := a.ext[x] + 1], local := a.local[x := false])
  }

  /** The program gives its hold on `x` back. */
  ghost predicate Dropped(a: Snapshot, x: nat, b: Snapshot)
    requires Shaped(a) && x < |a.h|
  {
    var h := a.h[x];
    if h.rc == 0 then b == a
    else if a.ext[x] == 0 then false
    else
      var ext := a.ext[x := a.ext[x] - 1];
      if h.rc == 1 && h.buffered then b == a.(h := a.h[x := h.(rc := 0, colour := Black)], ext := ext)
      else if h.rc == 1 then b == a.(h := a.h[x := h.(rc := 0)], ext := ext, f := a.f[x := 1], lost := a.lost + {x})
      else if h.buffered then b == a.(h := a.h[x := h.(rc := h.rc - 1)], ext := ext)
      else
        var c := a.(h := a.h[x := Header(h.rc - 1, Purple, true)], ext := ext, cand := a.cand + [x]);
        if |c.cand| < THETA_BUFFER then b == c else Passes(c, b, K_ROOTS)
  }

  /** What one operation does. */
  ghost predicate Did(a: Snapshot, op: Op, b: Snapshot) {
    && Shaped(a)
    && match op
       case New(slots) =>
         b == a.(g := a.g + [seq(slots, _ => Null)], h := a.h + [Header(0, Black, false)], f := a.f + [0], ext := a.ext + [0], local := a.local + [true])
       case Dup(x) => b == if Holder(a.ext, a.local, x) then OneMore(a, x) else a
       case Load(x, k) =>
         if Holder(a.ext, a.local, x) && k < |a.g[x]| && a.g[x][k].To? then a.g[x][k].id < |a.h| && b == OneMore(a, a.g[x][k].id)
         else b == a
       case Put(x, k, v) =>
         if Holder(a.ext, a.local, x) && k < |a.g[x]| && (v.To? ==> v.id < |a.ext| && a.ext[v.id] > 0)
         then (a.g[x][k].To? ==> a.g[x][k].id < |a.ext|)
              && b == a.(g := a.g[x := a.g[x][k := v]], ext := Moved(a.ext, v, a.g[x][k]), alone := AloneWith(a.alone, a.ext, x, v))
         else b == a
       case Drop(x) => if Holder(a.ext, a.local, x) then Dropped(a, x, b) else b == a
       case CollectNow => Passes(a, b, |a.cand|)
       case CollectSome => Passes(a, b, if |a.cand| < K_ROOTS then |a.cand| else K_ROOTS)
  }

  ghost predicate DidAt(trace: seq<Snapshot>, ops: seq<Op>, i: nat) {
    i < |ops| && i + 1 < |trace| && Did(trace[i], ops[i], trace[i + 1])
  }

  /** The states of a run: each operation in turn has done what it does. */
  ghost predicate IsRun(trace: seq<Snapshot>, ops: seq<Op>, n: nat) {
    |trace| == n + 1 && forall i: nat {:trigger DidAt(trace, ops, i)} :: i < n ==> DidAt(trace, ops, i)
  }

  lemma RunMore(trace: seq<Snapshot>, ops: seq<Op>, n: nat, next: Snapshot)
    requires IsRun(trace, ops, n) && n < |ops| && Did(trace[n], ops[n], next)
    ensures IsRun(trace + [next], ops, n + 1)
  {
    forall i: nat | i < n + 1 ensures DidAt(trace + [next], ops, i) {
      if i < n {
        assert DidAt(trace, ops, i);
      }
    }
  }

  /** Over every run: nothing an outside holder can reach is freed or condemned, nothing is freed
      twice, what is freed stays freed, and garbage once found white is lost for ever unless it waits
      in the buffer, where its own turn frees it. What an object freed at count zero references is
      never freed. What is out of the program's reach stays so; and every live object is reached from
      a hold, from a candidate, or from what was leaked. */
  method Run(c: Collector, ops: seq<Op>) returns (ghost trace: seq<Snapshot>)
    requires c.Valid()
    modifies c
    ensures c.Valid() && IsRun(trace, ops, |ops|) && trace[0] == old(c.Snap()) && trace[|ops|] == c.Snap()
    ensures forall y: nat {:trigger Accessible(c.kids, c.ext, c.local, y)} :: Accessible(c.kids, c.ext, c.local, y) ==>
              y < |c.hdr| && c.frees[y] == 0 && c.hdr[y].colour != White
    ensures forall y :: 0 <= y < |c.frees| ==> c.frees[y] <= 1
    ensures WhitesKept(old(c.hdr), old(c.frees), c.hdr, c.frees)
    ensures forall x, y: nat {:trigger Edge(c.kids, x, y)} :: x in c.lost && Edge(c.kids, x, y) ==> y < |c.frees| && c.frees[y] == 0
    ensures Onward(old(c.Snap()), c.Snap())
  {
    OnwardSame(c.Snap());
    trace := [c.Snap()];
    var n := 0;
    while n < |ops|
      invariant n <= |ops| && c.Valid() && WhitesKept(old(c.hdr), old(c.frees), c.hdr, c.frees)
      invariant Onward(old(c.Snap()), c.Snap())
      invariant IsRun(trace, ops, n) && trace[0] == old(c.Snap()) && trace[n] == c.Snap()
    {
      ghost var h1, f1, a := c.hdr, c.frees, c.Snap();
      Perform(c, ops[n]);
      WhitesKeptTrans(old(c.hdr), old(c.frees), h1, f1, c.hdr, c.frees);
      OnwardTrans(old(c.Snap()), a, c.Snap());
      RunMore(trace, ops, n, c.Snap());
      trace := trace + [c.Snap()];
      n := n + 1;
    }
    forall y: nat | Accessible(c.kids, c.ext, c.local, y) ensures y < |c.hdr| && c.frees[y] == 0 && c.hdr[y].colour != White {
      AccessibleIsLive(c.kids, c.hdr, c.frees, c.ext, c.local, y);
    }
  }

  /** A program from its start to its exit: what the last pass leaves unfreed is exactly what the program
      can still reach, what a bounded pass left white outside the buffer, and what is reachable from the
      references of an object freed at count zero or from an object left to itself. */
  method ToExit(ops: seq<Op>) returns (c: Collector, ghost trace: seq<Snapshot>)
    ensures c.Valid() && c.cand == []
    ensures IsRun(trace, ops, |ops|) && trace[0] == Snapshot([], [], [], [], [], [], {}, {})
    ensures c.Snap() == trace[|ops|] || Passes(trace[|ops|], c.Snap(), |trace[|ops|].cand|)
    ensures forall i: nat {:trigger c.Snap().Leaked(i)} :: i < |c.frees| ==>
              (c.frees[i] == 0 <==> Accessible(c.kids, c.ext, c.local, i) || LeftWhite(c.hdr, c.frees, i) || c.Snap().Leaked(i))
  {
    c := new Collector();
    trace := Run(c, ops);
    ghost var b := c.Snap();
    ghost var reached := c.Final();
    ExitPassed(b, c.Snap(), reached);
    assert b.Covered() && c.Snap().Covered();
    forall i: nat | i < |c.frees|
      ensures c.frees[i] == 0 <==> Accessible(c.kids, c.ext, c.local, i) || LeftWhite(c.hdr, c.frees, i) || c.Snap().Leaked(i)
    {
      UnfreedIff(c.Snap(), i);
    }
  }

  lemma ExitPassed(a: Snapshot, b: Snapshot, reached: set<nat>)
    requires |a.h| == |a.f| == |a.g| && b == a.(h := b.h, f := b.f, lost := b.lost, cand := [])
    requires a.cand == [] ==> b == a
    requires a.cand != [] ==> Spans(a.g, CountedRoots(a.cand, a.h), reached) && reached <= Live(a.h, a.f)
    requires a.cand != [] ==> PassExact(a.g, a.cand, reached, a.h, a.f, b.h, b.f)
    ensures b == a || Passes(a, b, |a.cand|)
  {
    if a.cand != [] {
      assert a.cand[..|a.cand|] == a.cand && a.cand[|a.cand|..] == [];
      assert PassBetween(a, b, |a.cand|, reached);
    }
  }

  method Perform(c: Collector, op: Op)
    requires c.Valid()
    modifies c
    ensures c.Valid() && WhitesKept(old(c.hdr), old(c.frees), c.hdr, c.frees) && Onward(old(c.Snap()), c.Snap())
    ensures Did(old(c.Snap()), op, c.Snap())
  {
    if op.Drop? || op.CollectNow? || op.CollectSome? {
      PerformRelease(c, op);
    } else {
      PerformHold(c, op);
    }
  }

  method PerformHold(c: Collector, op: Op)
    requires c.Valid() && !(op.Drop? || op.CollectNow? || op.CollectSome?)
    modifies c`kids, c`hdr, c`frees, c`ext, c`local, c`alone
    ensures c.Valid() && WhitesKept(old(c.hdr), old(c.frees), c.hdr, c.frees) && Onward(old(c.Snap()), c.Snap())
    ensures Did(old(c.Snap()), op, c.Snap())
  {
    OnwardSame(c.Snap());
    match op
    case New(slots) =>
      var _ := c.Alloc(slots);
    case Dup(x) =>
      if x < |c.ext| && (c.ext[x] > 0 || c.local[x]) {
        HeldIsAccessible(c.kids, c.ext, c.local, x);
        Hold(c, x);
      }
    case Load(x, k) =>
      if x < |c.ext| && (c.ext[x] > 0 || c.local[x]) && k < |c.kids[x]| && c.kids[x][k].To? {
        FieldIsAccessible(c.kids, c.ext, c.local, x, k);
        Hold(c, c.kids[x][k].id);
      }
    case Put(x, k, v) =>
      if x < |c.ext| && (c.ext[x] > 0 || c.local[x]) && k < |c.kids[x]| && (v.To? ==> v.id < |c.ext| && c.ext[v.id] > 0) {
        var _ := c.Store(x, k, v);
      }
  }

  method PerformRelease(c: Collector, op: Op)
    requires c.Valid() && (op.Drop? || op.CollectNow? || op.CollectSome?)
    modifies c
    ensures c.Valid() && WhitesKept(old(c.hdr), old(c.frees), c.hdr, c.frees) && Onward(old(c.Snap()), c.Snap())
    ensures Did(old(c.Snap()), op, c.Snap())
  {
    OnwardSame(c.Snap());
    match op
    case Drop(x) =>
      if x < |c.ext| && (c.ext[x] > 0 || c.local[x]) {
        GiveBack(c, x);
      }
    case CollectNow =>
      Pass(c, true);
    case CollectSome =>
      Pass(c, false);
  }

  method Hold(c: Collector, y: nat)
    requires c.Valid() && Accessible(c.kids, c.ext, c.local, y)
    modifies c`hdr, c`ext, c`local
    ensures c.Valid() && WhitesKept(old(c.hdr), c.frees, c.hdr, c.frees) && Onward(old(c.Snap()), c.Snap())
    ensures y < |old(c.hdr)| && Shaped(old(c.Snap())) && c.Snap() == OneMore(old(c.Snap()), y)
  {
    c.Retain(To(y));
  }

  method Pass(c: Collector, all: bool)
    requires c.Valid()
    modifies c`hdr, c`frees, c`lost, c`cand, c`walk, c`walkLen
    ensures c.Valid() && WhitesKept(old(c.hdr), old(c.frees), c.hdr, c.frees) && Onward(old(c.Snap()), c.Snap())
    ensures Passes(old(c.Snap()), c.Snap(), if all || |old(c.cand)| < K_ROOTS then |old(c.cand)| else K_ROOTS)
  {
    var take; ghost var reached;
    take, reached := c.Collect(all);
    assert PassBetween(old(c.Snap()), c.Snap(), take, reached);
  }

  method GiveBack(c: Collector, x: nat)
    requires c.Valid() && Holder(c.ext, c.local, x)
    modifies c
    ensures c.Valid() && WhitesKept(old(c.hdr), old(c.frees), c.hdr, c.frees) && Onward(old(c.Snap()), c.Snap())
    ensures x < |old(c.hdr)| && Shaped(old(c.Snap())) && Dropped(old(c.Snap()), x, c.Snap())
  {
    ghost var a := c.Snap();
    ghost var reached := c.Release(To(x));
    if a.h[x].rc == 1 {
      assert c.LastReleased(x);
    } else if a.h[x].rc > 1 {
      assert c.OneReleased(x, reached);
    }
    Released(a, c.Snap(), x, reached);
  }

  /** The outcomes of a release, told of the states. */
  lemma Released(a: Snapshot, b: Snapshot, x: nat, reached: set<nat>)
    requires Shaped(a) && x < |a.h| && (a.h[x].rc > 0 ==> a.ext[x] > 0)
    requires b == a.(h := b.h, f := b.f, lost := b.lost, ext := b.ext, cand := b.cand)
    requires a.h[x].rc == 0 ==> b == a
    requires a.h[x].rc > 0 ==> b.ext == a.ext[x := a.ext[x] - 1]
    requires a.h[x].rc == 1 ==> LastOutcome(a, b, x)
    requires a.h[x].rc > 1 ==> OneOutcome(a, b, x, reached)
    ensures Dropped(a, x, b)
  {
    var h := a.h[x];
    if h.rc > 1 && !h.buffered && |a.cand| + 1 >= THETA_BUFFER {
      var c := a.(h := a.h[x := Header(h.rc - 1, Purple, true)], ext := b.ext, cand := a.cand + [x]);
      assert PassBetween(c, b, K_ROOTS, reached);
    }
  }

  ghost predicate LastOutcome(a: Snapshot, b: Snapshot, x: nat)
    requires Shaped(a) && x < |a.h|
  {
    var h := a.h[x];
    b.cand == a.cand
    && if h.buffered then b.h == a.h[x := h.(rc := 0, colour := Black)] && b.f == a.f && b.lost == a.lost
       else b.h == a.h[x := h.(rc := 0)] && b.f == a.f[x := 1] && b.lost == a.lost + {x}
  }

  ghost predicate OneOutcome(a: Snapshot, b: Snapshot, x: nat, reached: set<nat>)
    requires Shaped(a) && x < |a.h| && a.h[x].rc > 0
  {
    var h := a.h[x];
    if h.buffered then b.h == a.h[x := h.(rc := h.rc - 1)] && b.f == a.f && b.cand == a.cand && b.lost == a.lost
    else
      var h1, cand1 := a.h[x := Header(h.rc - 1, Purple, true)], a.cand + [x];
      if |cand1| < THETA_BUFFER then b.h == h1 && b.f == a.f && b.cand == cand1 && b.lost == a.lost
      else
        && b.cand == cand1[K_ROOTS..] && PassExact(a.g, cand1[..K_ROOTS], reached, h1, a.f, b.h, b.f)
        && reached <= Live(h1, a.f) && Spans(a.g, CountedRoots(cand1[..K_ROOTS], h1), reached)
  }

  lemma HeldIsAccessible(g: Graph, ext: seq<nat>, local: seq<bool>, x: nat)
    requires Holder(ext, local, x)
    ensures Accessible(g, ext, local, x)
  {
    ReachSelf(g, x);
  }

  lemma FieldIsAccessible(g: Graph, ext: seq<nat>, local: seq<bool>, x: nat, k: nat)
    requires Holder(ext, local, x) && x < |g| && k < |g[x]|
    ensures g[x][k].To? ==> Accessible(g, ext, local, g[x][k].id)
  {
    if g[x][k].To? {
      assert Edge(g, x, g[x][k].id);
      ReachSelf(g, g[x][k].id);
      ReachStep(g, x, g[x][k].id, g[x][k].id);
    }
  }

  // ----- garbage a bounded pass leaves behind -----

  /** The exact condition for a pass, bounded or full, to leave nothing white that no later pass will
      free: nothing was left so before, and what the pass finds to be garbage outside the rest of the
      buffer is reached from its roots without passing through an object that still waits there. */
  lemma PassLosesNoneIff(g: Graph, cand: seq<nat>, take: nat, reached: set<nat>, h0: seq<Header>, f0: seq<nat>, ext: seq<nat>, local: seq<bool>,
                         h: seq<Header>, f: seq<nat>)
    requires Consistent(g, h0, f0, ext, local) && BufferOk(cand, h0, f0) && take <= |cand|
    requires Spans(g, CountedRoots(cand[..take], h0), reached) && reached <= Live(h0, f0)
    requires PassExact(g, cand[..take], reached, h0, f0, h, f) && BufferOk(cand[take..], h, f)
    ensures (forall i :: 0 <= i < |g| ==> !LostWhite(h, f, i)) <==>
            (forall i :: 0 <= i < |g| ==> !LostWhite(h0, f0, i))
            && forall i :: i in Passable(g, cand[..take], reached, h0) ==> Reclaimed(g, cand[..take], reached, h0, i)
  {
    var roots, rest := cand[..take], cand[take..];
    assert cand == roots + rest;
    ReachedCounted(g, Live(h0, f0), h0, CountedRoots(roots, h0), reached);
    forall i | 0 <= i < |g|
      ensures LostWhite(h, f, i) <==> LostWhite(h0, f0, i) || (i in Passable(g, roots, reached, h0) && !Reclaimed(g, roots, reached, h0, i))
    {
      assert f[i] == f0[i] + if ZeroRoot(roots, h0, i) || Reclaimed(g, roots, reached, h0, i) then 1 else 0;
      Split(cand, take, i);
    }
  }

  /** White, unfreed, and no longer in the buffer. */
  ghost predicate LostWhite(h: seq<Header>, f: seq<nat>, i: nat) {
    LeftWhite(h, f, i) && !h[i].buffered
  }

  lemma Split(cand: seq<nat>, take: nat, i: nat)
    requires take <= |cand| && forall a, b :: 0 <= a < b < |cand| ==> cand[a] != cand[b]
    ensures i in cand <==> i in cand[..take] || i in cand[take..]
    ensures !(i in cand[..take] && i in cand[take..])
  {
    assert cand == cand[..take] + cand[take..];
  }

  /** A full pass leaves no garbage white if and only if every white object was still buffered. */
  lemma FullPassLeavesNoneIff(g: Graph, reached: set<nat>, h0: seq<Header>, f0: seq<nat>, h: seq<Header>, f: seq<nat>)
    requires FreedAll(g, reached, h0, f0, h, f)
    ensures (forall i :: 0 <= i < |h| ==> !LeftWhite(h, f, i)) <==>
            (forall i :: 0 <= i < |h0| && LeftWhite(h0, f0, i) ==> h0[i].buffered)
  {
  }
}
