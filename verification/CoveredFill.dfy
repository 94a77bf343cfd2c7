/** Covered-fill elimination: a zero-fill of a frame array is deleted when a covering nest writes
    the whole array before anything can read it. Programs are control-flow graphs of basic blocks;
    the whole nest, entered from its preheader and left to its exit block, is one block. */
module CoveredFill {
  import opened Basics
  import opened LoopNest

  datatype Stmt<!S> =
    | Fill                                   // the zero-fill under consideration
    | Stores(f: S -> (seq<Write>, S))        // plain stores and everything that leaves the array alone
    | Use(g: (Mem, S) -> (Mem, S))           // loads, calls, copies, other fills: may read the array
    | Cover(nest: Nest<S>)

  type Block<!S> = seq<Stmt<S>>

  datatype Program<!S> = Program(blocks: seq<Block<S>>, succ: seq<set<nat>>, next: (nat, S) -> nat)

  /** Control follows the graph; block number `|blocks|` and beyond mean the program has ended. */
  ghost predicate Legal<S(!new)>(p: Program<S>) {
    && |p.succ| == |p.blocks|
    && (forall b, s :: 0 <= b < |p.blocks| ==> p.next(b, s) in p.succ[b])
    && (forall b, i, mem, s :: 0 <= b < |p.blocks| && 0 <= i < |p.blocks[b]| && p.blocks[b][i].Use? ==>
          |p.blocks[b][i].g(mem, s).0| == |mem|)
  }

  function Zeros(n: nat): (r: Mem)
    ensures |r| == n && forall i :: 0 <= i < n ==> r[i] == 0
  {
    seq(n, _ => 0)
  }

  function Step<S>(st: Stmt<S>, mem: Mem, s: S): (Mem, S) {
    match st
    case Fill => (Zeros(|mem|), s)
    case Stores(f) => var (ws, s') := f(s); (ApplyAll(mem, ws), s')
    case Use(g) => g(mem, s)
    case Cover(nest) => Run(nest, 0, mem, s)
  }

  function RunBlock<S>(b: Block<S>, mem: Mem, s: S): (Mem, S)
    decreases |b|
  {
    if b == [] then (mem, s) else
      var (mem', s') := Step(b[0], mem, s);
      RunBlock(b[1..], mem', s')
  }

  datatype State<!S> = State(pc: nat, mem: Mem, s: S)

  /** `n` blocks of the program from its entry, block 0. */
  function Exec<S>(p: Program<S>, mem: Mem, s: S, n: nat): State<S> {
    if n == 0 then State(0, mem, s) else
      var st := Exec(p, mem, s, n - 1);
      if st.pc >= |p.blocks| then st else
        var (mem', s') := RunBlock(p.blocks[st.pc], st.mem, st.s);
        State(p.next(st.pc, s'), mem', s')
  }

  // ----- the transformation -----

  function Unfilled<S>(b: Block<S>): Block<S>
    decreases |b|
  {
    if b == [] then [] else (if b[0].Fill? then [] else [b[0]]) + Unfilled(b[1..])
  }

  /** Deletes the fill, which is in block `m`. */
  function Delete<S>(p: Program<S>, m: nat): Program<S>
    requires m < |p.blocks|
  {
    p.(blocks := p.blocks[m := Unfilled(p.blocks[m])])
  }

  // ----- dominance -----

  ghost predicate IsPath(succ: seq<set<nat>>, path: seq<nat>) {
    && |path| > 0
    && path[0] == 0
    && (forall i :: 0 <= i < |path| - 1 ==> path[i] < |succ| && path[i + 1] in succ[path[i]])
  }

  /** Every path from the entry to `b` passes `a`. */
  ghost predicate Dominates(succ: seq<set<nat>>, a: nat, b: nat) {
    forall path {:trigger IsPath(succ, path)} :: IsPath(succ, path) && path[|path| - 1] == b ==> a in path
  }

  ghost predicate Reads<S>(b: Block<S>) {
    exists i :: 0 <= i < |b| && b[i].Use?
  }

  ghost function Readers<S>(p: Program<S>): set<nat> {
    set u: nat | u < |p.blocks| && Reads(p.blocks[u])
  }

  /** What the pass checks on the graph: the fill's block `m` dominates the preheader, the nest `c` is
      entered from its preheader only and left to `e` only, and every block that may read the array
      is dominated by `e`. */
  ghost predicate GraphChecked(succ: seq<set<nat>>, readers: set<nat>, m: nat, pre: nat, c: nat, e: nat) {
    && m < |succ| && c < |succ| && pre < |succ| && m != c && c != 0 && e != 0
    && (forall b :: 0 <= b < |succ| && c in succ[b] ==> b == pre)
    && succ[c] == {e}
    && Dominates(succ, m, pre)
    && (forall u :: u in readers ==> u < |succ| && u != c && Dominates(succ, e, u))
  }

  /** What the pass checks: the graph, where the fill and the nest are, and, by `store_covers`, that
      the nest's store covers the array. */
  ghost predicate Checked<S(!new)>(p: Program<S>, size: nat, m: nat, pre: nat, c: nat, e: nat) {
    && |p.succ| == |p.blocks|
    && GraphChecked(p.succ, Readers(p), m, pre, c, e)
    && (forall b, i :: 0 <= b < |p.blocks| && 0 <= i < |p.blocks[b]| && p.blocks[b][i].Fill? ==> b == m)
    && (forall b, i :: 0 <= b < |p.blocks| && 0 <= i < |p.blocks[b]| && p.blocks[b][i].Cover? ==> b == c)
    && |p.blocks[c]| == 1 && p.blocks[c][0].Cover?
    && Covers(p.blocks[c][0].nest, size)
  }

  ghost predicate Covers<S(!new)>(nest: Nest<S>, size: nat) {
    exists stored: nat :: Accepted(stored, Chain(nest), true, size) && Sized(nest, stored)
  }

  /** No path on which the fill has run and the nest has not run since ends in a block that may read
      the array, the fill's own block included. */
  ghost predicate NoStaleRead(succ: seq<set<nat>>, readers: set<nat>, m: nat, c: nat) {
    forall path {:trigger IsPath(succ, path)} :: IsPath(succ, path) && path[|path| - 1] in readers ==>
      path[|path| - 1] != m && !Dirty(path, m, c)
  }

  ghost predicate Deletable<S(!new)>(p: Program<S>, size: nat, m: nat, pre: nat, c: nat, e: nat) {
    Checked(p, size, m, pre, c, e) && NoStaleRead(p.succ, Readers(p), m, c)
  }

  /** Loops are in simplified form where the pass runs: the exit block has no predecessor outside
      the nest. The pass does not test this itself. */
  ghost predicate DedicatedExit(succ: seq<set<nat>>, c: nat, e: nat) {
    forall b :: 0 <= b < |succ| && e in succ[b] ==> b == c
  }

  /** The blocks visited by the first `n` steps and the one reached. */
  ghost function Trail<S>(p: Program<S>, mem: Mem, s: S, n: nat): (r: seq<nat>)
    ensures |r| > 0 && r[|r| - 1] == Exec(p, mem, s, n).pc
  {
    if n == 0 then [0] else
      var st := Exec(p, mem, s, n - 1);
      if st.pc >= |p.blocks| then Trail(p, mem, s, n - 1)
      else Trail(p, mem, s, n - 1) + [Exec(p, mem, s, n).pc]
  }

  lemma {:induction false} TrailIsPath<S(!new)>(p: Program<S>, mem: Mem, s: S, n: nat)
    requires Legal(p)
    ensures IsPath(p.succ, Trail(p, mem, s, n))
  {
    if n > 0 {
      TrailIsPath(p, mem, s, n - 1);
    }
  }

  /** The fill has run and the nest has not run since: the last `m` is later than the last `c`,
      not counting the block just reached. */
  ghost predicate Dirty(trail: seq<nat>, m: nat, c: nat) {
    exists i :: 0 <= i < |trail| - 1 && trail[i] == m && c !in trail[i..|trail| - 1]
  }

  /** The dominance argument: with the fill's block dominating the nest, a path on which the fill
      ran and the nest has not run since cannot have reached a block the exit dominates. */
  lemma DirtyNeverReads(succ: seq<set<nat>>, path: seq<nat>, m: nat, pre: nat, c: nat, e: nat)
    requires IsPath(succ, path) && m != c && c != 0 && e != 0
    requires forall b :: 0 <= b < |succ| && c in succ[b] ==> b == pre
    requires forall b :: 0 <= b < |succ| && e in succ[b] ==> b == c
    requires Dominates(succ, m, pre)
    requires Dirty(path, m, c)
    ensures !Dominates(succ, e, path[|path| - 1])
  {
    var i :| 0 <= i < |path| - 1 && path[i] == m && c !in path[i..|path| - 1];
    var f := FirstAt(path, m, i);
    NestNotBeforeFill(succ, path, m, pre, c, f);
    // splice: entry to the first fill, then from the last fill to here
    var q := path[..f] + path[i..];
    assert IsPath(succ, q) by {
      forall j | 0 <= j < |q| - 1 ensures q[j] < |succ| && q[j + 1] in succ[q[j]] {
        if j < f {
          assert q[j] == path[j] && q[j + 1] == if j + 1 < f then path[j + 1] else path[i];
        } else {
          assert q[j] == path[i + (j - f)] && q[j + 1] == path[i + (j - f) + 1];
        }
      }
    }
    assert q[|q| - 1] == path[|path| - 1];
    forall j | 0 <= j < |q| ensures q[j] != e {
      if j > 0 {
        assert q[j] in succ[q[j - 1]];
        assert q[j - 1] != c by {
          if j - 1 < f {
            assert q[j - 1] == path[j - 1];
          } else {
            assert q[j - 1] == path[i..|path| - 1][j - 1 - f];
          }
        }
      }
    }
  }

  lemma {:induction false} FirstAt(path: seq<nat>, m: nat, i: nat) returns (f: nat)
    requires i < |path| && path[i] == m
    ensures f <= i && path[f] == m && m !in path[..f]
  {
    f := 0;
    while path[f] != m
      invariant f <= i && m !in path[..f]
      decreases i - f
    {
      f := f + 1;
    }
  }

  /** Before the first fill the nest cannot have run. */
  lemma NestNotBeforeFill(succ: seq<set<nat>>, path: seq<nat>, m: nat, pre: nat, c: nat, f: nat)
    requires IsPath(succ, path) && f < |path| && m !in path[..f] && c != 0
    requires forall b :: 0 <= b < |succ| && c in succ[b] ==> b == pre
    requires Dominates(succ, m, pre)
    ensures c !in path[..f]
  {
    forall j | 0 <= j < f ensures path[j] != c {
      if j > 0 {
        var q := path[..j];
        assert forall x :: x in q ==> x in path[..f];
        assert IsPath(succ, q) && m !in q;
        assert path[j - 1] != pre && path[j] in succ[path[j - 1]];
      }
    }
  }

  /** The fill's own block reads nothing either. */
  lemma FillBlockNeverReads(succ: seq<set<nat>>, path: seq<nat>, m: nat, pre: nat, c: nat, e: nat)
    requires IsPath(succ, path) && path[|path| - 1] == m && m != c && c != 0 && e != 0
    requires forall b :: 0 <= b < |succ| && c in succ[b] ==> b == pre
    requires forall b :: 0 <= b < |succ| && e in succ[b] ==> b == c
    requires Dominates(succ, m, pre)
    ensures !Dominates(succ, e, m)
  {
    var f := FirstAt(path, m, |path| - 1);
    NestNotBeforeFill(succ, path, m, pre, c, f);
    var q := path[..f + 1];
    assert IsPath(succ, q) && q[|q| - 1] == m;
    forall j | 0 <= j < |q| ensures q[j] != e {
      if j > 0 {
        assert path[j - 1] in path[..f] && path[j] in succ[path[j - 1]];
      }
    }
  }

  // ----- meaning is preserved -----

  /** Only fills and plain stores: the outside state does not depend on the array, nor on the fills. */
  lemma {:induction false} SilentBlock<S>(b: Block<S>, a: Mem, b': Mem, s: S)
    requires forall i :: 0 <= i < |b| ==> b[i].Fill? || b[i].Stores?
    requires |a| == |b'|
    ensures RunBlock(b, a, s).1 == RunBlock(Unfilled(b), b', s).1
    ensures |RunBlock(b, a, s).0| == |RunBlock(Unfilled(b), b', s).0| == |a|
    decreases |b|
  {
    if b != [] {
      var (a1, s1) := Step(b[0], a, s);
      if b[0].Fill? {
        SilentBlock(b[1..], a1, b', s1);
        assert Unfilled(b) == Unfilled(b[1..]);
      } else {
        var (b1, _) := Step(b[0], b', s);
        SilentBlock(b[1..], a1, b1, s1);
        assert Unfilled(b) == [b[0]] + Unfilled(b[1..]);
        assert Unfilled(b)[1..] == Unfilled(b[1..]);
      }
    }
  }

  lemma {:induction false} UnfilledSame<S>(b: Block<S>)
    requires forall i :: 0 <= i < |b| ==> !b[i].Fill?
    ensures Unfilled(b) == b
    decreases |b|
  {
    if b != [] {
      UnfilledSame(b[1..]);
    }
  }

  lemma {:induction false} BlockKeepsSize<S(!new)>(p: Program<S>, b: nat, from: nat, mem: Mem, s: S)
    requires Legal(p) && b < |p.blocks| && from <= |p.blocks[b]|
    ensures |RunBlock(p.blocks[b][from..], mem, s).0| == |mem|
    decreases |p.blocks[b]| - from
  {
    if from < |p.blocks[b]| {
      var (mem', s') := Step(p.blocks[b][from], mem, s);
      BlockKeepsSize(p, b, from + 1, mem', s');
      assert p.blocks[b][from..][1..] == p.blocks[b][from + 1..];
    }
  }

  /** After any number of steps the two programs are at the same place in the same outside state,
      and their arrays agree unless the fill has run and the nest has not run since. */
  ghost predicate Matched<S>(p: Program<S>, m: nat, c: nat, mem: Mem, s: S, n: nat)
    requires m < |p.blocks|
  {
    var a, b := Exec(p, mem, s, n), Exec(Delete(p, m), mem, s, n);
    && a.pc == b.pc && a.s == b.s && |a.mem| == |b.mem| == |mem|
    && (a.mem == b.mem || Dirty(Trail(p, mem, s, n), m, c))
  }

  lemma {:induction false} DeletionMatches<S(!new)>(p: Program<S>, size: nat, m: nat, pre: nat, c: nat, e: nat, mem: Mem, s: S, n: nat)
    requires Legal(p) && Deletable(p, size, m, pre, c, e) && |mem| == size
    ensures Matched(p, m, c, mem, s, n)
  {
    if n > 0 {
      DeletionMatches(p, size, m, pre, c, e, mem, s, n - 1);
      var a, b := Exec(p, mem, s, n - 1), Exec(Delete(p, m), mem, s, n - 1);
      if a.pc < |p.blocks| {
        TrailIsPath(p, mem, s, n - 1);
        if a.pc == m {
          MatchFill(p, size, m, pre, c, e, mem, s, n);
        } else if a.pc == c {
          MatchNest(p, size, m, pre, c, e, mem, s, n);
        } else {
          MatchOther(p, size, m, pre, c, e, mem, s, n);
        }
      }
    }
  }

  lemma MatchFill<S(!new)>(p: Program<S>, size: nat, m: nat, pre: nat, c: nat, e: nat, mem: Mem, s: S, n: nat)
    requires Legal(p) && Deletable(p, size, m, pre, c, e) && |mem| == size && n > 0
    requires Matched(p, m, c, mem, s, n - 1) && Exec(p, mem, s, n - 1).pc == m
    requires IsPath(p.succ, Trail(p, mem, s, n - 1))
    ensures Matched(p, m, c, mem, s, n)
  {
    var a, b := Exec(p, mem, s, n - 1), Exec(Delete(p, m), mem, s, n - 1);
    var trail := Trail(p, mem, s, n - 1);
    assert m !in Readers(p);
    SilentBlock(p.blocks[m], a.mem, b.mem, a.s);
    var trail' := Trail(p, mem, s, n);
    assert trail'[|trail| - 1] == m && trail'[|trail| - 1..|trail'| - 1] == [m];
  }

  lemma MatchNest<S(!new)>(p: Program<S>, size: nat, m: nat, pre: nat, c: nat, e: nat, mem: Mem, s: S, n: nat)
    requires Legal(p) && Deletable(p, size, m, pre, c, e) && |mem| == size && n > 0
    requires Matched(p, m, c, mem, s, n - 1) && Exec(p, mem, s, n - 1).pc == c
    ensures Matched(p, m, c, mem, s, n)
  {
    var a, b := Exec(p, mem, s, n - 1), Exec(Delete(p, m), mem, s, n - 1);
    var nest := p.blocks[c][0].nest;
    var stored: nat :| Accepted(stored, Chain(nest), true, size) && Sized(nest, stored);
    AcceptedCovers(nest, stored, size);
    CoverForgets(nest, stored, a.mem, b.mem, a.s);
    assert p.blocks[c][1..] == [];
    assert RunBlock(p.blocks[c], a.mem, a.s) == Run(nest, 0, a.mem, a.s);
    assert RunBlock(p.blocks[c], b.mem, a.s) == Run(nest, 0, b.mem, a.s);
  }

  lemma MatchOther<S(!new)>(p: Program<S>, size: nat, m: nat, pre: nat, c: nat, e: nat, mem: Mem, s: S, n: nat)
    requires Legal(p) && Deletable(p, size, m, pre, c, e) && |mem| == size && n > 0
    requires Matched(p, m, c, mem, s, n - 1)
    requires Exec(p, mem, s, n - 1).pc < |p.blocks| && Exec(p, mem, s, n - 1).pc != m && Exec(p, mem, s, n - 1).pc != c
    requires IsPath(p.succ, Trail(p, mem, s, n - 1))
    ensures Matched(p, m, c, mem, s, n)
  {
    var a, b := Exec(p, mem, s, n - 1), Exec(Delete(p, m), mem, s, n - 1);
    var trail, trail' := Trail(p, mem, s, n - 1), Trail(p, mem, s, n);
    var block := p.blocks[a.pc];
    BlockKeepsSize(p, a.pc, 0, a.mem, a.s);
    BlockKeepsSize(p, a.pc, 0, b.mem, a.s);
    assert block[0..] == block;
    if a.mem != b.mem {
      assert a.pc !in Readers(p);
      SilentBlock(block, a.mem, b.mem, a.s);
      UnfilledSame(block);
      var i :| 0 <= i < |trail| - 1 && trail[i] == m && c !in trail[i..|trail| - 1];
      assert trail'[i..|trail'| - 1] == trail[i..|trail| - 1] + [a.pc];
      assert trail'[i] == m;
    }
  }

  /** Deleting the fill changes nothing a program can observe: for every input, initial array
      content and number of steps, control and outside state are the same; and whenever control is
      at a block that may read the array, so is the array. */
  lemma DeletionPreservesMeaning<S(!new)>(p: Program<S>, size: nat, m: nat, pre: nat, c: nat, e: nat, mem: Mem, s: S, n: nat)
    requires Legal(p) && Deletable(p, size, m, pre, c, e) && |mem| == size
    ensures var a, b := Exec(p, mem, s, n), Exec(Delete(p, m), mem, s, n);
            a.pc == b.pc && a.s == b.s && (a.pc < |p.blocks| && Reads(p.blocks[a.pc]) ==> a.mem == b.mem)
  {
    DeletionMatches(p, size, m, pre, c, e, mem, s, n);
    TrailIsPath(p, mem, s, n);
    var pc := Exec(p, mem, s, n).pc;
    assert pc < |p.blocks| && Reads(p.blocks[pc]) ==> pc in Readers(p);
  }

  /** With loops in simplified form no read is stale, so the pass's own tests are enough there. */
  lemma DedicatedIsSafe(succ: seq<set<nat>>, readers: set<nat>, m: nat, pre: nat, c: nat, e: nat)
    requires GraphChecked(succ, readers, m, pre, c, e) && DedicatedExit(succ, c, e)
    ensures NoStaleRead(succ, readers, m, c)
  {
    forall path | IsPath(succ, path) && path[|path| - 1] in readers ensures path[|path| - 1] != m && !Dirty(path, m, c) {
      if path[|path| - 1] == m {
        FillBlockNeverReads(succ, path, m, pre, c, e);
      }
      if Dirty(path, m, c) {
        DirtyNeverReads(succ, path, m, pre, c, e);
      }
    }
  }

  // ----- a shared exit -----

  const oneStore: Nest<int> := Core((s: int) => [1])
  const oneTurn: Nest<int> := Loop(1, 1, (k: nat, s: int) => ([], s), oneStore, (k: nat, s: int) => ([], s))

  /** Block 0 fills and branches to the preheader 1 or straight to 3, which reads; the nest 2 exits
      to 3 as well. */
  const sharedExit: Program<int> := Program(
    [[Fill], [], [Cover(oneTurn)], [Use((mem: Mem, s: int) => (mem, if |mem| > 0 then mem[0] as int else s))]],
    [{1, 3}, {2}, {3}, {4}],
    (b: nat, s: int) => if b == 0 then (if s == 0 then 3 else 1) else b + 1)

  lemma SharedExitChecked()
    ensures Legal(sharedExit) && Checked(sharedExit, 1, 0, 1, 2, 3)
    ensures !DedicatedExit(sharedExit.succ, 2, 3) && !NoStaleRead(sharedExit.succ, Readers(sharedExit), 0, 2)
  {
    var p := sharedExit;
    assert p.blocks[3][0].Use? && 3 in Readers(p);
    var path := [0, 3];
    assert IsPath(p.succ, path) && path[0..1] == [0] && Dirty(path, 0, 2);
    assert 3 in p.succ[0];
    assert Span(oneTurn, 1) == Span(oneStore, 1) * 1 && Fits(oneTurn, 1);
    ChainFits(oneTurn, 1);
    assert Sized(oneStore, 1) && Sized(oneTurn, 1);
    assert Accepted(1, Chain(oneTurn), true, 1);
    assert Covers(oneTurn, 1);
    forall u | u in Readers(p) ensures u == 3 && Dominates(p.succ, 3, u) {
    }
  }

  /** With a shared exit the check passes and the deletion is visible: the original reads 0, the
      transformed program reads whatever the array held. */
  lemma SharedExitChangesMeaning()
    ensures Exec(sharedExit, [7], 0, 2).s == 0 && Exec(Delete(sharedExit, 0), [7], 0, 2).s == 7
  {
    var p, q := sharedExit, Delete(sharedExit, 0);
    assert p.blocks[0] == [Fill] && Unfilled(p.blocks[0][1..]) == [];
    assert q.blocks[0] == [];
    assert RunBlock(p.blocks[0], [7], 0) == (Zeros(1), 0);
    assert Exec(p, [7], 0, 1) == State(3, Zeros(1), 0);
    assert Exec(q, [7], 0, 1) == State(3, [7], 0);
    assert p.blocks[3][1..] == [];
  }
}
