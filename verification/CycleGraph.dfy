/** The object graph the cycle collector walks: who references whom, how many references
    arrive at an object from a given set of objects, and what is reachable from what.
    Everything here is a value; the collector itself is in CycleCollector.dfy. */
module CycleGraph {
  import opened Basics

  /** `g[x]` is the sequence of references `children(x)` reports; repeats are allowed. */
  type Graph = seq<seq<Ref>>

  ghost predicate WellFormed(g: Graph) {
    forall x, k :: 0 <= x < |g| && 0 <= k < |g[x]| && g[x][k].To? ==> g[x][k].id < |g|
  }

  ghost predicate Edge(g: Graph, x: nat, y: nat) {
    x < |g| && To(y) in g[x]
  }

  ghost predicate Closed(g: Graph, s: set<nat>) {
    forall x, y :: x in s && Edge(g, x, y) ==> y in s
  }

  // ----- reachability -----

  ghost predicate ReachIn(g: Graph, x: nat, y: nat, n: nat)
    decreases n
  {
    if n == 0 then x == y else exists z :: Edge(g, x, z) && ReachIn(g, z, y, n - 1)
  }

  ghost predicate Reach(g: Graph, x: nat, y: nat) {
    exists n: nat :: ReachIn(g, x, y, n)
  }

  ghost predicate ReachFrom(g: Graph, s: set<nat>, y: nat) {
    exists x :: x in s && Reach(g, x, y)
  }

  lemma ReachSelf(g: Graph, x: nat)
    ensures Reach(g, x, x)
  {
    assert ReachIn(g, x, x, 0);
  }

  lemma ReachStep(g: Graph, x: nat, z: nat, y: nat)
    requires Edge(g, x, z) && Reach(g, z, y)
    ensures Reach(g, x, y)
  {
    var n: nat :| ReachIn(g, z, y, n);
    assert ReachIn(g, x, y, n + 1);
  }

  /** A closed set keeps whatever is reachable from inside it. */
  lemma {:induction false} ClosedReach(g: Graph, s: set<nat>, x: nat, y: nat)
    requires Closed(g, s) && x in s && Reach(g, x, y)
    ensures y in s
  {
    var n: nat :| ReachIn(g, x, y, n);
    ClosedReachIn(g, s, x, y, n);
  }

  lemma {:induction false} ClosedReachIn(g: Graph, s: set<nat>, x: nat, y: nat, n: nat)
    requires Closed(g, s) && x in s && ReachIn(g, x, y, n)
    ensures y in s
    decreases n
  {
    if n > 0 {
      var z :| Edge(g, x, z) && ReachIn(g, z, y, n - 1);
      ClosedReachIn(g, s, z, y, n - 1);
    }
  }

  lemma {:induction false} ReachTrans(g: Graph, x: nat, y: nat, z: nat)
    requires Reach(g, x, y) && Reach(g, y, z)
    ensures Reach(g, x, z)
  {
    var n: nat :| ReachIn(g, x, y, n);
    ReachTransIn(g, x, y, z, n);
  }

  lemma {:induction false} ReachTransIn(g: Graph, x: nat, y: nat, z: nat, n: nat)
    requires ReachIn(g, x, y, n) && Reach(g, y, z)
    ensures Reach(g, x, z)
    decreases n
  {
    if n > 0 {
      var w :| Edge(g, x, w) && ReachIn(g, w, y, n - 1);
      ReachTransIn(g, w, y, z, n - 1);
      ReachStep(g, x, w, z);
    }
  }

  /** The graph with only the references held by `s`. */
  ghost function Restrict(g: Graph, s: set<nat>): (r: Graph)
    ensures |r| == |g| && forall x :: 0 <= x < |g| ==> r[x] == if x in s then g[x] else []
  {
    seq(|g|, x requires 0 <= x < |g| => if x in s then g[x] else [])
  }

  // ----- counting references -----

  /** How many of the first `n` references in `refs` are to `y`. */
  ghost function Count(refs: seq<Ref>, n: nat, y: nat): nat
    requires n <= |refs|
  {
    if n == 0 then 0 else Count(refs, n - 1, y) + if refs[n - 1] == To(y) then 1 else 0
  }

  /** How far each object's reference sequence has been walked. */
  ghost predicate Progress(g: Graph, done: seq<nat>) {
    |done| == |g| && forall x :: 0 <= x < |g| ==> done[x] <= |g[x]|
  }

  /** References to `y` among the walked prefixes of the first `m` objects. */
  ghost function Walked(g: Graph, done: seq<nat>, m: nat, y: nat): nat
    requires Progress(g, done) && m <= |g|
  {
    if m == 0 then 0 else Walked(g, done, m - 1, y) + Count(g[m - 1], done[m - 1], y)
  }

  ghost function Arrived(g: Graph, done: seq<nat>, y: nat): nat
    requires Progress(g, done)
  {
    Walked(g, done, |g|, y)
  }

  ghost function Whole(g: Graph, s: set<nat>): (done: seq<nat>)
    ensures Progress(g, done)
    ensures forall x :: 0 <= x < |g| ==> done[x] == if x in s then |g[x]| else 0
  {
    seq(|g|, x requires 0 <= x < |g| => if x in s then |g[x]| else 0)
  }

  /** References to `y` held by the objects of `s`, counted with repeats. */
  ghost function From(g: Graph, s: set<nat>, y: nat): nat {
    Arrived(g, Whole(g, s), y)
  }

  lemma {:induction false} CountPositive(refs: seq<Ref>, n: nat, y: nat, k: nat)
    requires k < n <= |refs| && refs[k] == To(y)
    ensures Count(refs, n, y) > 0
  {
    if k < n - 1 {
      CountPositive(refs, n - 1, y, k);
    }
  }

  lemma {:induction false} CountZero(refs: seq<Ref>, n: nat, y: nat)
    requires n <= |refs| && forall k :: 0 <= k < n ==> refs[k] != To(y)
    ensures Count(refs, n, y) == 0
  {
    if n > 0 {
      CountZero(refs, n - 1, y);
    }
  }

  lemma {:induction false} CountMono(refs: seq<Ref>, n: nat, m: nat, y: nat)
    requires n <= m <= |refs|
    ensures Count(refs, n, y) <= Count(refs, m, y)
  {
    if n < m {
      CountMono(refs, n, m - 1, y);
    }
  }

  lemma {:induction false} WalkedMono(g: Graph, done: seq<nat>, more: seq<nat>, m: nat, y: nat)
    requires Progress(g, done) && Progress(g, more) && m <= |g|
    requires forall x :: 0 <= x < m ==> done[x] <= more[x]
    ensures Walked(g, done, m, y) <= Walked(g, more, m, y)
  {
    if m > 0 {
      WalkedMono(g, done, more, m - 1, y);
      CountMono(g[m - 1], done[m - 1], more[m - 1], y);
    }
  }

  lemma {:induction false} WalkedSame(g: Graph, done: seq<nat>, other: seq<nat>, m: nat, y: nat)
    requires Progress(g, done) && Progress(g, other) && m <= |g|
    requires forall x :: 0 <= x < m ==> done[x] == other[x]
    ensures Walked(g, done, m, y) == Walked(g, other, m, y)
  {
    if m > 0 {
      WalkedSame(g, done, other, m - 1, y);
    }
  }

  /** Walking one more reference of `x` adds one to its target and nothing elsewhere. */
  lemma {:induction false} WalkOne(g: Graph, done: seq<nat>, x: nat, m: nat, y: nat)
    requires Progress(g, done) && x < |g| && done[x] < |g[x]| && m <= |g|
    ensures Progress(g, done[x := done[x] + 1])
    ensures Walked(g, done[x := done[x] + 1], m, y)
         == Walked(g, done, m, y) + if x < m && g[x][done[x]] == To(y) then 1 else 0
  {
    if m > 0 {
      WalkOne(g, done, x, m - 1, y);
    }
  }

  lemma {:induction false} WalkedZero(g: Graph, done: seq<nat>, m: nat, y: nat)
    requires Progress(g, done) && m <= |g|
    requires forall x, k :: 0 <= x < m && 0 <= k < done[x] ==> g[x][k] != To(y)
    ensures Walked(g, done, m, y) == 0
  {
    if m > 0 {
      WalkedZero(g, done, m - 1, y);
      CountZero(g[m - 1], done[m - 1], y);
    }
  }

  lemma {:induction false} WalkedPositive(g: Graph, done: seq<nat>, m: nat, x: nat, k: nat, y: nat)
    requires Progress(g, done) && x < m <= |g| && k < done[x] && g[x][k] == To(y)
    ensures Walked(g, done, m, y) > 0
  {
    if x == m - 1 {
      CountPositive(g[x], done[x], y, k);
    } else {
      WalkedPositive(g, done, m - 1, x, k, y);
    }
  }

  lemma {:induction false} WalkedSplit(g: Graph, a: set<nat>, b: set<nat>, m: nat, y: nat)
    requires a !! b && m <= |g|
    ensures Walked(g, Whole(g, a + b), m, y) == Walked(g, Whole(g, a), m, y) + Walked(g, Whole(g, b), m, y)
  {
    if m > 0 {
      WalkedSplit(g, a, b, m - 1, y);
    }
  }

  /** References from a disjoint union are the sum. */
  lemma FromSplit(g: Graph, a: set<nat>, b: set<nat>, y: nat)
    requires a !! b
    ensures From(g, a + b, y) == From(g, a, y) + From(g, b, y)
  {
    WalkedSplit(g, a, b, |g|, y);
  }

  /** `From` is zero exactly when nothing in the set references `y`. */
  lemma FromZero(g: Graph, s: set<nat>, y: nat)
    ensures From(g, s, y) == 0 <==> forall x :: x in s ==> !Edge(g, x, y)
  {
    if exists x :: x in s && Edge(g, x, y) {
      var x :| x in s && Edge(g, x, y);
      var k :| 0 <= k < |g[x]| && g[x][k] == To(y);
      WalkedPositive(g, Whole(g, s), |g|, x, k, y);
    } else {
      forall x, k | 0 <= x < |g| && 0 <= k < Whole(g, s)[x] ensures g[x][k] != To(y) {
        assert x in s && !Edge(g, x, y);
      }
      WalkedZero(g, Whole(g, s), |g|, y);
    }
  }

  /** Replacing one reference of `x` moves one unit from the old target to the new. */
  lemma {:induction false} CountUpdate(refs: seq<Ref>, k: nat, r: Ref, n: nat, y: nat)
    requires k < |refs| && n <= |refs|
    ensures Count(refs[k := r], n, y) + (if k < n && refs[k] == To(y) then 1 else 0)
         == Count(refs, n, y) + (if k < n && r == To(y) then 1 else 0)
  {
    if n > 0 {
      CountUpdate(refs, k, r, n - 1, y);
    }
  }

  lemma {:induction false} WalkedUpdate(g: Graph, s: set<nat>, x: nat, k: nat, r: Ref, m: nat, y: nat)
    requires x < |g| && k < |g[x]| && m <= |g|
    ensures var g' := g[x := g[x][k := r]];
            Walked(g', Whole(g', s), m, y) + (if x < m && x in s && g[x][k] == To(y) then 1 else 0)
            == Walked(g, Whole(g, s), m, y) + (if x < m && x in s && r == To(y) then 1 else 0)
  {
    if m > 0 {
      WalkedUpdate(g, s, x, k, r, m - 1, y);
      if x == m - 1 && x in s {
        CountUpdate(g[x], k, r, |g[x]|, y);
      }
    }
  }

  lemma FromUpdate(g: Graph, s: set<nat>, x: nat, k: nat, r: Ref, y: nat)
    requires x < |g| && k < |g[x]|
    ensures var g' := g[x := g[x][k := r]];
            From(g', s, y) + (if x in s && g[x][k] == To(y) then 1 else 0)
            == From(g, s, y) + (if x in s && r == To(y) then 1 else 0)
  {
    WalkedUpdate(g, s, x, k, r, |g|, y);
  }

  /** A new object, whose fields are all null, contributes no reference. */
  lemma {:induction false} WalkedGrow(g: Graph, s: set<nat>, t: set<nat>, fields: seq<Ref>, m: nat, y: nat)
    requires m <= |g| && forall x :: 0 <= x < |g| ==> (x in s <==> x in t)
    ensures Walked(g + [fields], Whole(g + [fields], t), m, y) == Walked(g, Whole(g, s), m, y)
  {
    if m > 0 {
      WalkedGrow(g, s, t, fields, m - 1, y);
      assert (g + [fields])[m - 1] == g[m - 1];
    }
  }

  lemma FromGrow(g: Graph, s: set<nat>, t: set<nat>, fields: seq<Ref>, y: nat)
    requires forall x :: 0 <= x < |g| ==> (x in s <==> x in t)
    requires forall k :: 0 <= k < |fields| ==> fields[k] == Null
    ensures From(g + [fields], t, y) == From(g, s, y)
  {
    WalkedGrow(g, s, t, fields, |g|, y);
    var g' := g + [fields];
    assert g'[|g|] == fields;
    CountZero(fields, Whole(g', t)[|g|], y);
  }

  lemma FromMono(g: Graph, s: set<nat>, t: set<nat>, y: nat)
    requires s <= t
    ensures From(g, s, y) <= From(g, t, y)
  {
    WalkedMono(g, Whole(g, s), Whole(g, t), |g|, y);
  }
}
