/** Exact counts, and what the collector can and cannot lose. Freeing an object frees its storage and
    follows none of its references, so an object freed because its count is zero still counts as a
    holder of what it references: it is among the `lost`. */
module CycleExact {
  import opened Basics
  import opened CycleGraph
  import opened CycleTrial
  import opened CycleHeap

  /** A live object's count is its outside holds and the references of live and of lost objects to it,
      no more and no less; what a lost object references is live. */
  ghost predicate Balanced(g: Graph, h: seq<Header>, f: seq<nat>, ext: seq<nat>, lost: set<nat>) {
    && |h| == |f| == |ext| == |g|
    && (forall x :: x in lost ==> x < |f| && f[x] > 0)
    && (forall i {:trigger From(g, Live(h, f) + lost, i)} :: i in Live(h, f) ==> h[i].rc == ext[i] + From(g, Live(h, f) + lost, i))
    && (forall x, y :: x in lost && Edge(g, x, y) ==> y in Live(h, f))
  }

  /** Neither what is live, nor its counts, nor what is lost has changed. */
  lemma SameBalanced(g: Graph, h: seq<Header>, f: seq<nat>, ext: seq<nat>, lost: set<nat>, h': seq<Header>, f': seq<nat>)
    requires Balanced(g, h, f, ext, lost) && |h'| == |f'| == |g| && Live(h', f') == Live(h, f)
    requires forall i :: i in Live(h, f) ==> h'[i].rc == h[i].rc
    requires forall x :: x in lost && x < |g| ==> f'[x] > 0
    ensures Balanced(g, h', f', ext, lost)
  {
    forall i | i in Live(h', f') ensures h'[i].rc == ext[i] + From(g, Live(h', f') + lost, i) {
      assert h[i].rc == ext[i] + From(g, Live(h, f) + lost, i);
    }
  }

  lemma TakeBalanced(g: Graph, h: seq<Header>, f: seq<nat>, ext: seq<nat>, lost: set<nat>, h': seq<Header>, roots: seq<nat>)
    requires Balanced(g, h, f, ext, lost) && Unbuffered(h, h', roots)
    ensures Balanced(g, h', f, ext, lost)
  {
    assert Live(h', f) == Live(h, f);
    SameBalanced(g, h, f, ext, lost, h', f);
  }

  /** A trial takes from each count what the white objects held, and only that. */
  lemma TrialBalanced(g: Graph, h0: seq<Header>, h2: seq<Header>, f: seq<nat>, ext: seq<nat>, lost: set<nat>, reached: set<nat>)
    requires Balanced(g, h0, f, ext, lost) && TrialExact(g, reached, h0, h2) && Closed(g, reached) && reached <= Live(h0, f)
    ensures Balanced(g, h2, f, ext, lost)
  {
    var live, live2, white := Live(h0, f), Live(h2, f), Whites(reached, h2);
    TrialLive(g, h0, h2, f, reached);
    forall i | i in live ensures h2[i].rc == ext[i] + From(g, live2 + lost, i) {
      assert h0[i].rc == ext[i] + From(g, live + lost, i);
      assert live + lost == (live2 + lost) + white;
      FromSplit(g, live2 + lost, white, i);
      if i !in reached {
        FromZero(g, white, i);
      }
    }
    forall x, y: nat | x in lost && Edge(g, x, y) ensures y in live2 {
      assert y in live && h2[y].rc == ext[y] + From(g, live2 + lost, y);
      FromZero(g, live2 + lost, y);
    }
  }

  ghost function LostWith(h: seq<Header>, f: seq<nat>, lost: set<nat>, p: nat): set<nat>
    requires |h| == |f|
  {
    if p in Live(h, f) then lost + {p} else lost
  }

  /** Freeing an object whose count is zero: while it was live, what it references is now lost to it. */
  lemma FreeBalanced(g: Graph, h: seq<Header>, f: seq<nat>, ext: seq<nat>, local: seq<bool>, lost: set<nat>, p: nat)
    requires Consistent(g, h, f, ext, local) && Balanced(g, h, f, ext, lost) && p < |h| && f[p] == 0 && h[p].rc == 0
    ensures Balanced(g, h, f[p := 1], ext, LostWith(h, f, lost, p))
    ensures p in Live(h, f) ==> forall y :: Edge(g, p, y) ==> y in Live(h, f[p := 1])
  {
    var live, live', lost' := Live(h, f), Live(h, f[p := 1]), LostWith(h, f, lost, p);
    assert live' == live - {p};
    if p in live {
      assert live' + lost' == live + lost;
      assert h[p].rc == ext[p] + From(g, live + lost, p);
      FromZero(g, live + lost, p);
    } else {
      assert live' == live;
    }
    forall i | i in live' ensures h[i].rc == ext[i] + From(g, live' + lost', i) {
      assert h[i].rc == ext[i] + From(g, live + lost, i);
    }
  }

  /** The zero-count roots among `done` have been freed, and are lost if they were live. */
  ghost predicate Dropped(h: seq<Header>, f0: seq<nat>, f: seq<nat>, lost0: set<nat>, lost: set<nat>, done: seq<nat>) {
    && |h| == |f0| == |f| && lost0 <= lost
    && forall i: nat {:trigger DroppedAt(h, f0, f, lost, done, i)} :: i < |h| ==> DroppedAt(h, f0, f, lost, done, i)
  }

  ghost predicate DroppedAt(h: seq<Header>, f0: seq<nat>, f: seq<nat>, lost: set<nat>, done: seq<nat>, i: nat)
    requires i < |h| == |f0| == |f|
  {
    && f[i] == f0[i] + (if i in done && h[i].rc == 0 then 1 else 0)
    && (i in Live(h, f0) && i in done && h[i].rc == 0 ==> i in lost)
  }

  lemma DropStep(h: seq<Header>, f0: seq<nat>, f: seq<nat>, lost0: set<nat>, lost: set<nat>, done: seq<nat>, r: nat)
    requires Dropped(h, f0, f, lost0, lost, done) && r < |h| && r !in done
    ensures h[r].rc == 0 && f[r] == 0 ==> Dropped(h, f0, f[r := 1], lost0, LostWith(h, f, lost, r), done + [r])
    ensures h[r].rc > 0 ==> Dropped(h, f0, f, lost0, lost, done + [r])
  {
    var f', lost', done' := f[r := 1], LostWith(h, f, lost, r), done + [r];
    assert DroppedAt(h, f0, f, lost, done, r);
    forall i: nat | i < |h|
      ensures h[r].rc == 0 && f[r] == 0 ==> DroppedAt(h, f0, f', lost', done', i)
      ensures h[r].rc > 0 ==> DroppedAt(h, f0, f, lost, done', i)
    {
      assert DroppedAt(h, f0, f, lost, done, i);
    }
    assert lost0 <= lost';
    assert h[r].rc == 0 && f[r] == 0 ==> Dropped(h, f0, f', lost0, lost', done');
  }

  lemma DroppedRoots(h: seq<Header>, f0: seq<nat>, f: seq<nat>, lost0: set<nat>, lost: set<nat>, roots: seq<nat>)
    requires Dropped(h, f0, f, lost0, lost, roots)
    ensures |f| == |f0| == |h| && forall i :: 0 <= i < |h| ==> f[i] == f0[i] + if i in roots && h[i].rc == 0 then 1 else 0
    ensures forall i: nat :: i in Live(h, f0) && i in roots && h[i].rc == 0 ==> i in lost
  {
    forall i: nat | i < |h|
      ensures f[i] == f0[i] + if i in roots && h[i].rc == 0 then 1 else 0
      ensures i in Live(h, f0) && i in roots && h[i].rc == 0 ==> i in lost
    {
      assert DroppedAt(h, f0, f, lost, roots, i);
    }
  }

  /** A count and a hold move together. */
  lemma HoldBalanced(g: Graph, h: seq<Header>, f: seq<nat>, ext: seq<nat>, lost: set<nat>, p: nat, q: Header, e: nat)
    requires Balanced(g, h, f, ext, lost) && p in Live(h, f) && q.rc + ext[p] == h[p].rc + e && q.colour != White
    ensures Balanced(g, h[p := q], f, ext[p := e], lost)
  {
    assert Live(h[p := q], f) == Live(h, f);
    forall i | i in Live(h, f) ensures h[p := q][i].rc == ext[p := e][i] + From(g, Live(h, f) + lost, i) {
      assert h[i].rc == ext[i] + From(g, Live(h, f) + lost, i);
    }
  }

  lemma AllocBalanced(g: Graph, h: seq<Header>, f: seq<nat>, ext: seq<nat>, local: seq<bool>, lost: set<nat>, fields: seq<Ref>)
    requires Consistent(g, h, f, ext, local) && Balanced(g, h, f, ext, lost) && forall k :: 0 <= k < |fields| ==> fields[k] == Null
    ensures Balanced(g + [fields], h + [Header(0, Black, false)], f + [0], ext + [0], lost)
  {
    var g', h', f' := g + [fields], h + [Header(0, Black, false)], f + [0];
    var live, live' := Live(h, f), Live(h', f');
    assert live' == live + {|g|};
    forall x: nat, y: nat | Edge(g', x, y) ensures x < |g| && Edge(g, x, y) {
    }
    forall i | i in live' ensures h'[i].rc == (ext + [0])[i] + From(g', live' + lost, i) {
      FromGrow(g, live + lost, live' + lost, fields, i);
      if i == |g| {
        FromZero(g', live' + lost, i);
      } else {
        assert h[i].rc == ext[i] + From(g, live + lost, i);
      }
    }
  }

  lemma StoreBalanced(g: Graph, h: seq<Header>, f: seq<nat>, ext: seq<nat>, lost: set<nat>, x: nat, k: nat, v: Ref)
    requires Balanced(g, h, f, ext, lost) && x in Live(h, f) && k < |g[x]|
    requires v.To? ==> v.id < |ext| && ext[v.id] > 0
    requires g[x][k].To? ==> g[x][k].id < |ext|
    ensures Balanced(g[x := g[x][k := v]], h, f, Moved(ext, v, g[x][k]), lost)
  {
    var g', live, was := g[x := g[x][k := v]], Live(h, f), g[x][k];
    forall i | i in live ensures h[i].rc == Moved(ext, v, was)[i] + From(g', live + lost, i) {
      assert h[i].rc == ext[i] + From(g, live + lost, i);
      FromUpdate(g, live + lost, x, k, v, i);
    }
    forall a, b: nat | a in lost && Edge(g', a, b) ensures b in live {
      assert a != x && Edge(g, a, b);
    }
  }

  // ----- nothing else is lost -----

  /** The state of the heap, the program's holds, the candidates, the lost, and the objects whose last
      outside hold the program moved into a field of their own. */
  datatype Snapshot = Snapshot(g: Graph, h: seq<Header>, f: seq<nat>, ext: seq<nat>, local: seq<bool>, cand: seq<nat>, lost: set<nat>, alone: set<nat>)
  {
    ghost predicate Ok() {
      Consistent(g, h, f, ext, local) && BufferOk(cand, h, f) && Balanced(g, h, f, ext, lost)
    }

    /** One header, one free count and one set of holds per object; references are to objects. */
    ghost predicate Shaped() {
      WellFormed(g) && |h| == |f| == |ext| == |local| == |g|
    }

    /** A live object that the program holds, that is a candidate, that a lost object references, or that
        was left to itself. */
    ghost predicate Anchor(i: nat) {
      |h| == |f| && i in Live(h, f) && (Holder(ext, local, i) || i in cand || i in alone || exists x :: x in lost && Edge(g, x, i))
    }

    ghost predicate AnchorsIn(s: set<nat>) {
      forall i: nat :: Anchor(i) ==> i in s
    }

    ghost predicate Encloses(s: set<nat>) {
      Closed(g, s) && AnchorsIn(s) ==> |h| == |f| && Live(h, f) <= s
    }

    /** Every live object is reached from an anchor: it is in every closed set that has the anchors. */
    ghost predicate Covered() {
      forall s: set<nat> {:trigger Encloses(s)} :: Encloses(s)
    }

    /** Reachable from what some lost object references, or from a live object left to itself. */
    ghost predicate Leaked(i: nat)
      requires |h| == |f|
    {
      || (exists x, y: nat {:trigger Edge(g, x, y), Reach(g, y, i)} :: x in lost && Edge(g, x, y) && Reach(g, y, i))
      || (exists y {:trigger Reach(g, y, i)} :: y in alone && y in Live(h, f) && Reach(g, y, i))
    }

  }

  /** Storing an object into itself with the last hold on it leaves it to itself. */
  function AloneWith(alone: set<nat>, ext: seq<nat>, x: nat, v: Ref): set<nat>
    requires x < |ext|
  {
    if v == To(x) && ext[x] == 1 then alone + {x} else alone
  }

  /** With as many anchors or more, and no more that is live, everything is still covered. */
  lemma StillCovered(a: Snapshot, b: Snapshot)
    requires a.Shaped() && b.Shaped() && a.Covered() && b.g == a.g && Live(b.h, b.f) <= Live(a.h, a.f)
    requires forall i: nat :: a.Anchor(i) ==> b.Anchor(i)
    ensures b.Covered()
  {
    forall s: set<nat> | Closed(b.g, s) && b.AnchorsIn(s) ensures b.Encloses(s) {
      assert a.AnchorsIn(s) && a.Encloses(s);
    }
  }

  lemma AllocCovered(a: Snapshot, b: Snapshot, fields: seq<Ref>)
    requires a.Ok() && b.Ok() && a.Covered() && forall k :: 0 <= k < |fields| ==> fields[k] == Null
    requires b == Snapshot(a.g + [fields], a.h + [Header(0, Black, false)], a.f + [0], a.ext + [0], a.local + [true], a.cand, a.lost, a.alone)
    ensures b.Covered()
  {
    var n := |a.g|;
    assert Live(b.h, b.f) == Live(a.h, a.f) + {n};
    assert b.Anchor(n);
    forall x: nat, y: nat ensures Edge(b.g, x, y) <==> Edge(a.g, x, y) {
    }
    forall s: set<nat> | Closed(b.g, s) && b.AnchorsIn(s) ensures b.Encloses(s) {
      assert Closed(a.g, s);
      forall i: nat | a.Anchor(i) ensures i in s {
        assert b.Anchor(i);
      }
      assert a.AnchorsIn(s) && a.Encloses(s);
    }
  }

  /** An object freed at count zero anchors what it referenced. */
  lemma FreeCovered(a: Snapshot, b: Snapshot, p: nat)
    requires a.Ok() && b.Ok() && a.Covered() && b.g == a.g && b.cand == a.cand && p !in a.cand
    requires Live(b.h, b.f) == Live(a.h, a.f) - {p} && b.lost == a.lost + {p} && b.alone == a.alone
    requires forall i: nat :: i != p && Holder(a.ext, a.local, i) ==> Holder(b.ext, b.local, i)
    ensures b.Covered()
  {
    forall s: set<nat> | Closed(b.g, s) && b.AnchorsIn(s) ensures b.Encloses(s) {
      var t := s + {p};
      forall x, y | x in t && Edge(a.g, x, y) ensures y in t {
        if x == p {
          assert b.Anchor(y);
        }
      }
      forall i: nat | a.Anchor(i) ensures i in t {
        if i != p {
          assert b.Anchor(i);
        }
      }
      assert Closed(a.g, t) && a.AnchorsIn(t) && a.Encloses(t);
    }
  }

  lemma StoreCovered(a: Snapshot, b: Snapshot, x: nat, k: nat, v: Ref)
    requires a.Ok() && b.Ok() && a.Covered() && Holder(a.ext, a.local, x) && x < |a.g| && k < |a.g[x]|
    requires v.To? ==> v.id < |a.ext| && a.ext[v.id] > 0
    requires a.g[x][k].To? ==> a.g[x][k].id < |a.ext|
    requires b == a.(g := a.g[x := a.g[x][k := v]], ext := Moved(a.ext, v, a.g[x][k]), alone := AloneWith(a.alone, a.ext, x, v))
    ensures b.Covered()
  {
    var was := a.g[x][k];
    HolderLive(a, x);
    assert v.To? ==> b.g[x][k] == v && Edge(b.g, x, v.id);
    assert was.To? ==> Edge(a.g, x, was.id);
    forall s: set<nat> | Closed(b.g, s) && b.AnchorsIn(s) ensures b.Encloses(s) {
      StoreClosed(a, b, x, k, v, s);
      assert a.AnchorsIn(s) && a.Encloses(s);
    }
  }

  lemma HolderLive(a: Snapshot, x: nat)
    requires a.Ok() && Holder(a.ext, a.local, x)
    ensures x in Live(a.h, a.f)
  {
  }

  lemma EdgeChanged(g: Graph, x: nat, k: nat, v: Ref, i: nat, j: nat)
    requires x < |g| && k < |g[x]|
    ensures var g' := g[x := g[x][k := v]];
            && (Edge(g', i, j) ==> Edge(g, i, j) || (i == x && v == To(j)))
            && (Edge(g, i, j) ==> Edge(g', i, j) || (i == x && g[x][k] == To(j)))
  {
    if i == x {
      var was, now := g[x], g[x][k := v];
      if To(j) in now {
        var m :| 0 <= m < |now| && now[m] == To(j);
        assert m != k ==> was[m] == To(j);
      }
      if To(j) in was {
        var m :| 0 <= m < |was| && was[m] == To(j);
        assert m != k ==> now[m] == To(j);
      }
    }
  }

  lemma StoreClosed(a: Snapshot, b: Snapshot, x: nat, k: nat, v: Ref, s: set<nat>)
    requires a.Ok() && b.Ok() && Holder(a.ext, a.local, x) && x < |a.g| && k < |a.g[x]|
    requires v.To? ==> v.id < |a.ext| && a.ext[v.id] > 0
    requires a.g[x][k].To? ==> a.g[x][k].id < |a.ext|
    requires b == a.(g := a.g[x := a.g[x][k := v]], ext := Moved(a.ext, v, a.g[x][k]), alone := AloneWith(a.alone, a.ext, x, v))
    requires Closed(b.g, s) && b.AnchorsIn(s)
    ensures Closed(a.g, s) && forall i: nat :: a.Anchor(i) ==> i in s
  {
    var was := a.g[x][k];
    HolderLive(a, x);
    if was.To? {
      assert Edge(a.g, x, was.id);
      if v != was {
        assert Holder(b.ext, b.local, was.id);
        assert b.Anchor(was.id);
      }
    }
    assert v.To? ==> b.g[x][k] == v && Edge(b.g, x, v.id);
    forall i, j | i in s && Edge(a.g, i, j) ensures j in s {
      EdgeChanged(a.g, x, k, v, i, j);
    }
    forall i: nat | a.Anchor(i) ensures i in s {
      StoreAnchor(a, b, x, k, v, s, i);
    }
  }

  lemma StoreAnchor(a: Snapshot, b: Snapshot, x: nat, k: nat, v: Ref, s: set<nat>, i: nat)
    requires a.Ok() && b.Ok() && Holder(a.ext, a.local, x) && x < |a.g| && k < |a.g[x]|
    requires v.To? ==> v.id < |a.ext| && a.ext[v.id] > 0
    requires a.g[x][k].To? ==> a.g[x][k].id < |a.ext|
    requires b == a.(g := a.g[x := a.g[x][k := v]], ext := Moved(a.ext, v, a.g[x][k]), alone := AloneWith(a.alone, a.ext, x, v))
    requires Closed(b.g, s) && b.AnchorsIn(s) && a.Anchor(i)
    ensures i in s
  {
    var was := a.g[x][k];
    if exists z :: z in a.lost && Edge(a.g, z, i) {
      var z :| z in a.lost && Edge(a.g, z, i);
      HolderLive(a, x);
      assert z != x && Edge(b.g, z, i);
      assert b.Anchor(i);
    } else if v == To(i) {
      assert b.g[x][k] == v && Edge(b.g, x, i);
      assert b.Anchor(x);
    } else {
      assert b.Anchor(i);
    }
  }

  // ----- a whole pass -----

  /** What a pass over `roots` made of `a`. */
  ghost predicate Passed(a: Snapshot, b: Snapshot, roots: seq<nat>, reached: set<nat>) {
    && a.Ok() && b.Ok() && b.g == a.g && b.ext == a.ext && b.local == a.local && b.alone == a.alone
    && a.cand == roots + b.cand
    && Spans(a.g, CountedRoots(roots, a.h), reached) && reached <= Live(a.h, a.f)
    && PassExact(a.g, roots, reached, a.h, a.f, b.h, b.f)
    && a.lost <= b.lost
    && (forall i: nat :: i in Live(a.h, a.f) && ZeroRoot(roots, a.h, i) ==> i in b.lost)
  }

  /** Who is live after a pass. */
  lemma PassLive(a: Snapshot, b: Snapshot, roots: seq<nat>, reached: set<nat>, i: nat)
    requires Passed(a, b, roots, reached) && i < |a.g|
    ensures i in Live(b.h, b.f) <==> i in Live(a.h, a.f) && !ZeroRoot(roots, a.h, i) && !Garbage(a.g, reached, a.h, i)
  {
    if i in Live(a.h, a.f) && Garbage(a.g, reached, a.h, i) {
      assert b.f[i] == 0 ==> LeftWhite(b.h, b.f, i);
    }
    if i !in Live(a.h, a.f) && b.f[i] == 0 {
      assert LeftWhite(b.h, b.f, i);
    }
  }

  /** A surplus count is an outside hold, or a reference from a live object the pass did not reach or
      from a lost one. */
  lemma SurplusFrom(a: Snapshot, reached: set<nat>, r: nat)
    requires a.Ok() && r in reached && reached <= Live(a.h, a.f) && a.h[r].rc > From(a.g, reached, r)
    ensures a.ext[r] > 0 || exists z :: z in (Live(a.h, a.f) - reached) + a.lost && Edge(a.g, z, r)
  {
    var others := (Live(a.h, a.f) - reached) + a.lost;
    assert a.h[r].rc == a.ext[r] + From(a.g, Live(a.h, a.f) + a.lost, r);
    assert Live(a.h, a.f) + a.lost == reached + others;
    FromSplit(a.g, reached, others, r);
    FromZero(a.g, others, r);
  }

  /** Whatever a pass leaves live is still reached from an anchor. */
  lemma PassCovered(a: Snapshot, b: Snapshot, roots: seq<nat>, reached: set<nat>)
    requires Passed(a, b, roots, reached) && a.Covered()
    ensures b.Covered()
  {
    forall s: set<nat> | Closed(b.g, s) && b.AnchorsIn(s) ensures b.Encloses(s) {
      var zero := set i | i in Live(a.h, a.f) && ZeroRoot(roots, a.h, i);
      PassAnchors(a, b, roots, reached, zero, s);
      assert a.Encloses(s + reached + zero);
      assert Live(a.h, a.f) <= s + reached + zero;
      forall y | y in Live(b.h, b.f) ensures y in s {
        PassLive(a, b, roots, reached, y);
        if y in reached {
          UpheldIn(a, b, roots, reached, zero, s, y);
        }
      }
    }
  }

  lemma PassAnchors(a: Snapshot, b: Snapshot, roots: seq<nat>, reached: set<nat>, zero: set<nat>, s: set<nat>)
    requires Passed(a, b, roots, reached) && Closed(b.g, s) && b.AnchorsIn(s)
    requires zero == set i | i in Live(a.h, a.f) && ZeroRoot(roots, a.h, i)
    ensures Closed(a.g, s + reached + zero) && a.AnchorsIn(s + reached + zero)
  {
    var t := s + reached + zero;
    forall x, y: nat | x in t && Edge(a.g, x, y) ensures y in t {
      if x in zero {
        assert x in b.lost && b.Anchor(y);
      }
    }
    forall i: nat | a.Anchor(i) ensures i in t {
      PassLive(a, b, roots, reached, i);
      if i !in reached && i !in zero {
        assert i in Live(b.h, b.f);
        assert i in a.cand ==> i in roots || i in b.cand;
        assert i in roots ==> i in CountedRoots(roots, a.h);
        assert b.Anchor(i);
      }
    }
  }

  /** A reached object that stays live is upheld from outside what was reached. */
  lemma UpheldIn(a: Snapshot, b: Snapshot, roots: seq<nat>, reached: set<nat>, zero: set<nat>, s: set<nat>, y: nat)
    requires Passed(a, b, roots, reached) && Closed(b.g, s) && b.AnchorsIn(s)
    requires zero == set i | i in Live(a.h, a.f) && ZeroRoot(roots, a.h, i)
    requires Live(a.h, a.f) <= s + reached + zero && y in reached && y in Live(b.h, b.f)
    ensures y in s
  {
    PassLive(a, b, roots, reached, y);
    var r :| r in reached && r < |a.g| && a.h[r].rc > From(a.g, reached, r) && Reach(a.g, r, y);
    PassLive(a, b, roots, reached, r);
    ReachSelf(a.g, r);
    assert Surplus(a.g, reached, a.h, r);
    SurplusFrom(a, reached, r);
    if a.ext[r] > 0 {
      assert b.Anchor(r);
    } else {
      var z :| z in (Live(a.h, a.f) - reached) + a.lost && Edge(a.g, z, r);
      if z in a.lost || z in zero {
        assert z in b.lost && b.Anchor(r);
      }
    }
    ClosedReach(a.g, s, r, y);
  }

  /** With no candidate left, exactly these objects are not freed: what the program can still reach,
      what an earlier bounded pass left white, and what is reachable from the references of an object
      that was freed at count zero or from an object left to itself. */
  lemma UnfreedIff(a: Snapshot, i: nat)
    requires a.Ok() && a.Covered() && a.cand == [] && i < |a.f|
    ensures a.f[i] == 0 <==> Accessible(a.g, a.ext, a.local, i) || LeftWhite(a.h, a.f, i) || a.Leaked(i)
  {
    var live := Live(a.h, a.f);
    if Accessible(a.g, a.ext, a.local, i) {
      AccessibleIsLive(a.g, a.h, a.f, a.ext, a.local, i);
    }
    if a.Leaked(i) {
      LeakedIsLive(a, i);
    }
    if i in live {
      var s := set y | y in live && (Accessible(a.g, a.ext, a.local, y) || a.Leaked(y));
      UpheldClosed(a, s);
      assert a.Encloses(s);
      assert live <= s;
    }
  }

  /** What is leaked is never freed nor found to be garbage. */
  lemma LeakedIsLive(a: Snapshot, i: nat)
    requires a.Ok() && a.Leaked(i)
    ensures i in Live(a.h, a.f)
  {
    if exists x, y: nat {:trigger Edge(a.g, x, y), Reach(a.g, y, i)} :: x in a.lost && Edge(a.g, x, y) && Reach(a.g, y, i) {
      var x, y: nat :| x in a.lost && Edge(a.g, x, y) && Reach(a.g, y, i);
      ClosedReach(a.g, Live(a.h, a.f), y, i);
    } else {
      var y :| y in a.alone && y in Live(a.h, a.f) && Reach(a.g, y, i);
      ClosedReach(a.g, Live(a.h, a.f), y, i);
    }
  }

  lemma UpheldClosed(a: Snapshot, s: set<nat>)
    requires a.Ok() && a.cand == [] && s == set y | y in Live(a.h, a.f) && (Accessible(a.g, a.ext, a.local, y) || a.Leaked(y))
    ensures Closed(a.g, s) && a.AnchorsIn(s)
  {
    forall x, y: nat | x in s && Edge(a.g, x, y) ensures y in s {
      ReachSelf(a.g, y);
      ReachStep(a.g, x, y, y);
      if Accessible(a.g, a.ext, a.local, x) {
        var z :| Holder(a.ext, a.local, z) && Reach(a.g, z, x);
        ReachTrans(a.g, z, x, y);
      } else if exists u, z: nat {:trigger Edge(a.g, u, z), Reach(a.g, z, x)} :: u in a.lost && Edge(a.g, u, z) && Reach(a.g, z, x) {
        var u, z: nat :| u in a.lost && Edge(a.g, u, z) && Reach(a.g, z, x);
        ReachTrans(a.g, z, x, y);
      } else {
        var z :| z in a.alone && z in Live(a.h, a.f) && Reach(a.g, z, x);
        ReachTrans(a.g, z, x, y);
      }
    }
    forall i: nat | a.Anchor(i) ensures i in s {
      ReachSelf(a.g, i);
    }
  }

  // ----- what every operation does -----

  /** What is lost stays lost, with its references; what is out of the program's reach stays so; and what
      was covered still is. */
  ghost predicate Onward(a: Snapshot, b: Snapshot) {
    LostStay(a, b) && OutStaysOut(a, b) && (a.Covered() ==> b.Covered())
  }

  ghost predicate LostStay(a: Snapshot, b: Snapshot) {
    |a.g| <= |b.g| && a.lost <= b.lost && forall x {:trigger SameFields(a, b, x)} :: x in a.lost ==> SameFields(a, b, x)
  }

  ghost predicate SameFields(a: Snapshot, b: Snapshot, x: nat) {
    x < |a.g| ==> x < |b.g| && b.g[x] == a.g[x]
  }

  ghost predicate OutStaysOut(a: Snapshot, b: Snapshot) {
    forall y: nat {:trigger StaysOut(a, b, y)} :: y < |a.g| ==> StaysOut(a, b, y)
  }

  ghost predicate StaysOut(a: Snapshot, b: Snapshot, y: nat) {
    Accessible(b.g, b.ext, b.local, y) ==> Accessible(a.g, a.ext, a.local, y)
  }

  lemma OnwardTrans(a: Snapshot, b: Snapshot, c: Snapshot)
    requires Onward(a, b) && Onward(b, c)
    ensures Onward(a, c)
  {
    forall x | x in a.lost ensures SameFields(a, c, x) {
      assert SameFields(a, b, x) && SameFields(b, c, x);
    }
    forall y: nat | y < |a.g| ensures StaysOut(a, c, y) {
      assert StaysOut(a, b, y) && StaysOut(b, c, y);
    }
  }

  /** What the program can reach. */
  ghost function Within(a: Snapshot): (s: set<nat>)
    ensures forall y: nat :: y in s <==> y < |a.g| && Accessible(a.g, a.ext, a.local, y)
  {
    set y: nat | y < |a.g| && Accessible(a.g, a.ext, a.local, y)
  }

  lemma WithinClosed(a: Snapshot)
    requires a.Shaped()
    ensures Closed(a.g, Within(a)) && forall x: nat :: Holder(a.ext, a.local, x) ==> x in Within(a)
  {
    forall x, y: nat | x in Within(a) && Edge(a.g, x, y) ensures y in Within(a) {
      var z :| Holder(a.ext, a.local, z) && Reach(a.g, z, x);
      ReachSelf(a.g, y);
      ReachStep(a.g, x, y, y);
      ReachTrans(a.g, z, x, y);
    }
    forall x: nat | Holder(a.ext, a.local, x) ensures x in Within(a) {
      ReachSelf(a.g, x);
    }
  }

  /** Nothing out of reach comes back when new holds and new references lead to what was in reach. */
  lemma NothingBack(a: Snapshot, b: Snapshot, s: set<nat>)
    requires Closed(b.g, s) && forall x: nat :: Holder(b.ext, b.local, x) ==> x in s
    requires forall y: nat :: y in s ==> y >= |a.g| || y in Within(a)
    ensures OutStaysOut(a, b)
  {
    forall y: nat | y < |a.g| && Accessible(b.g, b.ext, b.local, y) ensures StaysOut(a, b, y) {
      var x :| Holder(b.ext, b.local, x) && Reach(b.g, x, y);
      ClosedReach(b.g, s, x, y);
    }
  }

  lemma AllocOnward(a: Snapshot, b: Snapshot, fields: seq<Ref>)
    requires a.Ok() && b.Ok() && forall k :: 0 <= k < |fields| ==> fields[k] == Null
    requires b == Snapshot(a.g + [fields], a.h + [Header(0, Black, false)], a.f + [0], a.ext + [0], a.local + [true], a.cand, a.lost, a.alone)
    ensures Onward(a, b)
  {
    WithinClosed(a);
    forall x: nat, y: nat ensures Edge(b.g, x, y) <==> Edge(a.g, x, y) {
    }
    NothingBack(a, b, Within(a) + {|a.g|});
    if a.Covered() {
      AllocCovered(a, b, fields);
    }
  }

  /** The graph is the same, and nothing live has lost its anchor. */
  lemma HoldOnward(a: Snapshot, b: Snapshot)
    requires a.Shaped() && b.Shaped() && b.g == a.g && b.lost == a.lost && Live(b.h, b.f) <= Live(a.h, a.f)
    requires forall i: nat :: a.Anchor(i) ==> b.Anchor(i)
    requires forall x: nat :: Holder(b.ext, b.local, x) ==> x in Within(a)
    ensures Onward(a, b)
  {
    HoldOut(a, b);
    if a.Covered() {
      StillCovered(a, b);
    }
  }

  lemma HoldOut(a: Snapshot, b: Snapshot)
    requires a.Shaped() && b.g == a.g && forall x: nat :: Holder(b.ext, b.local, x) ==> x in Within(a)
    ensures OutStaysOut(a, b)
  {
    WithinClosed(a);
    NothingBack(a, b, Within(a));
  }

  lemma OnwardSame(a: Snapshot)
    ensures Onward(a, a)
  {
  }

  /** One more hold on an object in reach. */
  lemma RetainOnward(a: Snapshot, b: Snapshot, p: nat)
    requires a.Shaped() && |b.h| == |b.f| == |a.g| && p in Within(a)
    requires b == a.(h := b.h, ext := a.ext[p := a.ext[p] + 1], local := a.local[p := false]) && Live(b.h, b.f) == Live(a.h, a.f)
    ensures Onward(a, b)
  {
    RetainHolders(a, b, p);
    forall i: nat | a.Anchor(i) ensures b.Anchor(i) {
      if Holder(a.ext, a.local, i) {
        assert Holder(b.ext, b.local, i);
      }
    }
    HoldOnward(a, b);
  }

  lemma RetainHolders(a: Snapshot, b: Snapshot, p: nat)
    requires a.Shaped() && p in Within(a)
    requires b == a.(h := b.h, ext := a.ext[p := a.ext[p] + 1], local := a.local[p := false])
    ensures forall x: nat :: Holder(b.ext, b.local, x) ==> x in Within(a)
  {
    WithinClosed(a);
    forall x: nat | Holder(b.ext, b.local, x) ensures x in Within(a) {
      if x != p {
        assert b.ext[x] == a.ext[x] && b.local[x] == a.local[x];
        assert Holder(a.ext, a.local, x);
      }
    }
  }

  lemma RetainBalanced(g: Graph, h: seq<Header>, f: seq<nat>, ext: seq<nat>, lost: set<nat>, p: nat)
    requires Balanced(g, h, f, ext, lost) && p in Live(h, f)
    ensures Balanced(g, h[p := h[p].(rc := h[p].rc + 1)], f, ext[p := ext[p] + 1], lost)
    ensures Live(h[p := h[p].(rc := h[p].rc + 1)], f) == Live(h, f)
  {
    HoldBalanced(g, h, f, ext, lost, p, h[p].(rc := h[p].rc + 1), ext[p] + 1);
  }

  /** A hold given up on an object that is, or becomes, a candidate. */
  lemma StillCandidate(a: Snapshot, b: Snapshot, p: nat)
    requires a.Shaped() && |b.h| == |b.f| == |b.ext| == |a.g| && p in b.cand && p in Live(b.h, b.f) && a.cand <= b.cand
    requires b == a.(h := b.h, ext := b.ext, cand := b.cand) && Live(b.h, b.f) == Live(a.h, a.f)
    requires forall i :: 0 <= i < |a.ext| && i != p ==> b.ext[i] == a.ext[i]
    requires p < |a.ext| && b.ext[p] <= a.ext[p]
    ensures Onward(a, b)
  {
    WithinClosed(a);
    forall i: nat | Holder(b.ext, b.local, i) ensures i in Within(a) {
      assert Holder(a.ext, a.local, i);
    }
    HoldOnward(a, b);
  }

  lemma FreeOnward(a: Snapshot, b: Snapshot, p: nat)
    requires a.Ok() && b.Ok() && b.g == a.g && b.cand == a.cand && p !in a.cand
    requires Live(b.h, b.f) == Live(a.h, a.f) - {p} && b.lost == a.lost + {p} && b.alone == a.alone
    requires forall i: nat :: i != p && Holder(a.ext, a.local, i) ==> Holder(b.ext, b.local, i)
    requires forall i: nat :: Holder(b.ext, b.local, i) ==> Holder(a.ext, a.local, i)
    ensures Onward(a, b)
  {
    WithinClosed(a);
    NothingBack(a, b, Within(a));
    if a.Covered() {
      FreeCovered(a, b, p);
    }
  }

  lemma StoreOnward(a: Snapshot, b: Snapshot, x: nat, k: nat, v: Ref)
    requires a.Ok() && b.Ok() && Holder(a.ext, a.local, x) && x < |a.g| && k < |a.g[x]|
    requires v.To? ==> v.id < |a.ext| && a.ext[v.id] > 0
    requires a.g[x][k].To? ==> a.g[x][k].id < |a.ext|
    requires b == a.(g := a.g[x := a.g[x][k := v]], ext := Moved(a.ext, v, a.g[x][k]), alone := AloneWith(a.alone, a.ext, x, v))
    ensures Onward(a, b)
  {
    StoreOut(a, b, x, k, v);
    StoreLost(a, b, x, k, v);
    if a.Covered() {
      StoreCovered(a, b, x, k, v);
    }
  }

  lemma StoreOut(a: Snapshot, b: Snapshot, x: nat, k: nat, v: Ref)
    requires a.Ok() && b.Ok() && Holder(a.ext, a.local, x) && x < |a.g| && k < |a.g[x]|
    requires v.To? ==> v.id < |a.ext| && a.ext[v.id] > 0
    requires a.g[x][k].To? ==> a.g[x][k].id < |a.ext|
    requires b == a.(g := a.g[x := a.g[x][k := v]], ext := Moved(a.ext, v, a.g[x][k]), alone := AloneWith(a.alone, a.ext, x, v))
    ensures OutStaysOut(a, b)
  {
    WithinClosed(a);
    StoreReaches(a.g, a.ext, a.local, Within(a), x, k, v);
    NothingBack(a, b, Within(a));
  }

  lemma StoreLost(a: Snapshot, b: Snapshot, x: nat, k: nat, v: Ref)
    requires a.Ok() && b.Ok() && Holder(a.ext, a.local, x) && x < |a.g| && k < |a.g[x]|
    requires v.To? ==> v.id < |a.ext| && a.ext[v.id] > 0
    requires a.g[x][k].To? ==> a.g[x][k].id < |a.ext|
    requires b == a.(g := a.g[x := a.g[x][k := v]], ext := Moved(a.ext, v, a.g[x][k]), alone := AloneWith(a.alone, a.ext, x, v))
    ensures LostStay(a, b)
  {
    HolderLive(a, x);
  }

  /** A set closed under references that has the holders is still one after a store. */
  lemma StoreReaches(g: Graph, ext: seq<nat>, local: seq<bool>, s: set<nat>, x: nat, k: nat, v: Ref)
    requires Closed(g, s) && (forall y: nat :: Holder(ext, local, y) ==> y in s) && |ext| == |local|
    requires Holder(ext, local, x) && x < |g| && k < |g[x]|
    requires v.To? ==> v.id < |ext| && ext[v.id] > 0
    requires g[x][k].To? ==> g[x][k].id < |ext|
    ensures Closed(g[x := g[x][k := v]], s) && forall y: nat :: Holder(Moved(ext, v, g[x][k]), local, y) ==> y in s
  {
    var g', was := g[x := g[x][k := v]], g[x][k];
    if was.To? {
      assert Edge(g, x, was.id);
    }
    forall i, j: nat | i in s && Edge(g', i, j) ensures j in s {
      EdgeChanged(g, x, k, v, i, j);
      assert v == To(j) ==> Holder(ext, local, j);
    }
    forall y: nat | Holder(Moved(ext, v, was), local, y) ensures y in s {
      assert Holder(ext, local, y) || was == To(y);
    }
  }

  lemma PassOnward(a: Snapshot, b: Snapshot, roots: seq<nat>, reached: set<nat>)
    requires Passed(a, b, roots, reached)
    ensures Onward(a, b)
  {
    if a.Covered() {
      PassCovered(a, b, roots, reached);
    }
  }
}
