/** The exact graph condition for deleting a covered fill: where it fails, a program on that very
    graph, which passes every test of the pass, shows the deletion. */
module CoveredFillExact {
  import opened Basics
  import opened LoopNest
  import opened CoveredFill

  /** The outside state of the probe: how many blocks have run, and the byte it read. */
  datatype Probe = Probe(pos: nat, seen: int)

  const START: Probe := Probe(0, -1)

  ghost function Sevens(n: nat): (r: Mem)
    ensures |r| == n && forall i :: 0 <= i < n ==> r[i] == 7
  {
    seq(n, _ => 7)
  }

  function Next(s: Probe): Probe {
    s.(pos := s.pos + 1)
  }

  /** Counts a block; stores nothing. */
  ghost function Tick(): Stmt<Probe> {
    Stores((s: Probe) => ([], Next(s)))
  }

  ghost function Peeked(at: nat, mem: Mem, s: Probe): Probe {
    if s.pos == at && |mem| > 0 then s.(seen := mem[0]) else s
  }

  /** Reads the array's first byte in the `at`-th block run. */
  ghost function Peek(at: nat): Stmt<Probe> {
    Use((mem: Mem, s: Probe) => (mem, Peeked(at, mem, s)))
  }

  /** One turn that stores sevens over the whole array, and counts as a block. */
  ghost function ProbeNest(size: nat): Nest<Probe> {
    Loop(1, size, (k: nat, s: Probe) => ([], Next(s)), Core((s: Probe) => Sevens(size)), (k: nat, s: Probe) => ([], s))
  }

  ghost function ProbeBlock(readers: set<nat>, size: nat, m: nat, c: nat, at: nat, b: nat): Block<Probe> {
    if b == c then [Cover(ProbeNest(size))]
    else [Tick()] + (if b == m then [Fill] else []) + (if b in readers then [Peek(at)] else [])
  }

  ghost function Pick(s: set<nat>): (x: nat)
    ensures s != {} ==> x in s
  {
    if s == {} then 0 else var x :| x in s; x
  }

  /** Follows `path`; off it, any successor. */
  ghost function Follow(succ: seq<set<nat>>, path: seq<nat>, b: nat, s: Probe): nat {
    if b >= |succ| then 0
    else if s.pos < |path| && path[s.pos] in succ[b] then path[s.pos]
    else Pick(succ[b])
  }

  /** The program that follows `path` and reads in its last block. */
  ghost function Witness(succ: seq<set<nat>>, readers: set<nat>, size: nat, m: nat, c: nat, path: seq<nat>): Program<Probe> {
    Program(seq(|succ|, b requires 0 <= b < |succ| => ProbeBlock(readers, size, m, c, |path|, b)), succ,
            (b: nat, s: Probe) => Follow(succ, path, b, s))
  }

  /** A graph the pass accepts, for an array it may look at. */
  ghost predicate Accepts(succ: seq<set<nat>>, readers: set<nat>, size: nat, m: nat, pre: nat, c: nat, e: nat) {
    && GraphChecked(succ, readers, m, pre, c, e) && 0 < size <= LIMIT
    && (forall b :: 0 <= b < |succ| ==> succ[b] != {})
  }

  lemma OneTurn<S(!new)>(n: Nest<S>, size: nat)
    requires n.Loop? && n.inner.Core? && n.trips == 1
    ensures Span(n, size) == size
  {
    var k := n.trips;
    assert Span(n.inner, size) == size;
    assert size * k == size;
  }

  lemma ProbeCovers(size: nat)
    requires size <= LIMIT
    ensures Covers(ProbeNest(size), size)
  {
    var n := ProbeNest(size);
    OneTurn(n, size);
    assert Fits(n, size);
    ChainFits(n, size);
    assert Chain(n.inner) == [];
    assert |Chain(n)| == 1;
    assert Sized(n.inner, size) && Sized(n, size);
    assert Accepted(size, Chain(n), true, size);
  }

  /** The witness is a program the pass accepts, on the given graph, with the given reading blocks. */
  lemma WitnessChecked(succ: seq<set<nat>>, readers: set<nat>, size: nat, m: nat, pre: nat, c: nat, e: nat, path: seq<nat>)
    requires Accepts(succ, readers, size, m, pre, c, e)
    ensures var q := Witness(succ, readers, size, m, c, path);
            Legal(q) && Checked(q, size, m, pre, c, e) && q.succ == succ && Readers(q) == readers
  {
    var q := Witness(succ, readers, size, m, c, path);
    forall b: nat | b < |succ| ensures b in readers <==> Reads(q.blocks[b]) {
      var block := ProbeBlock(readers, size, m, c, |path|, b);
      if b in readers {
        assert block[|block| - 1].Use?;
      }
    }
    assert Readers(q) == readers;
    ProbeCovers(size);
  }

  // ----- what the witness does -----

  /** The fill has run and the nest has not since, before block number `i` of the path. */
  ghost function DirtyAt(path: seq<nat>, m: nat, c: nat, i: nat): bool
    requires i < |path|
  {
    i > 0 && (path[i - 1] == m || (path[i - 1] != c && DirtyAt(path, m, c, i - 1)))
  }

  lemma {:induction false} DirtySince(path: seq<nat>, m: nat, c: nat, j: nat, i: nat)
    requires j < i < |path| && path[j] == m && forall k :: j <= k < i ==> path[k] != c
    ensures DirtyAt(path, m, c, i)
  {
    if i - 1 > j {
      DirtySince(path, m, c, j, i - 1);
    }
  }

  lemma DirtyAtEnd(path: seq<nat>, m: nat, c: nat)
    requires path != [] && Dirty(path, m, c)
    ensures DirtyAt(path, m, c, |path| - 1)
  {
    var j :| 0 <= j < |path| - 1 && path[j] == m && c !in path[j..|path| - 1];
    forall k | j <= k < |path| - 1 ensures path[k] != c {
      assert path[k] == path[j..|path| - 1][k - j];
    }
    DirtySince(path, m, c, j, |path| - 1);
  }

  lemma NestRuns(size: nat, mem: Mem, s: Probe)
    requires |mem| == size
    ensures Run(ProbeNest(size), 0, mem, s) == (Sevens(size), Next(s))
  {
    var n := ProbeNest(size);
    var r := Run(n.inner, 0, mem, Next(s));
    assert r == (Apply(mem, Write(0, Sevens(size))), Next(s));
    assert r.0 == Sevens(size);
    assert RunFrom(n, 0, 0, mem, s) == RunFrom(n, 1, 0, r.0, r.1);
  }

  lemma RunTwo(a: Stmt<Probe>, rest: Block<Probe>, mem: Mem, s: Probe)
    ensures RunBlock([a] + rest, mem, s) == RunBlock(rest, Step(a, mem, s).0, Step(a, mem, s).1)
  {
    assert ([a] + rest)[1..] == rest;
  }

  /** One block of the witness, with the fill in it or deleted from it. */
  ghost function Plain(readers: set<nat>, at: nat, b: nat): Block<Probe> {
    if b in readers then [Peek(at)] else []
  }

  lemma PlainRuns(readers: set<nat>, at: nat, b: nat, mem: Mem, s: Probe)
    ensures RunBlock(Plain(readers, at, b), mem, s) == (mem, if b in readers then Peeked(at, mem, s) else s)
  {
    if b in readers {
      RunTwo(Peek(at), [], mem, s);
      assert [Peek(at)] + [] == [Peek(at)];
    }
  }

  lemma BlockRuns(readers: set<nat>, size: nat, m: nat, c: nat, at: nat, b: nat, mem: Mem, s: Probe)
    requires |mem| == size && m != c && c !in readers
    ensures var block := ProbeBlock(readers, size, m, c, at, b);
            var after := if b == c then Sevens(size) else if b == m then Zeros(size) else mem;
            RunBlock(block, mem, s) == (after, if b in readers then Peeked(at, after, Next(s)) else Next(s))
  {
    if b == c {
      NestRuns(size, mem, s);
      RunTwo(Cover(ProbeNest(size)), [], mem, s);
      assert [Cover(ProbeNest(size))] + [] == [Cover(ProbeNest(size))];
    } else {
      var rest := (if b == m then [Fill] else []) + Plain(readers, at, b);
      assert ProbeBlock(readers, size, m, c, at, b) == [Tick()] + rest;
      RunTwo(Tick(), rest, mem, s);
      assert Step(Tick(), mem, s) == (mem, Next(s));
      if b == m {
        RunTwo(Fill, Plain(readers, at, b), mem, Next(s));
        PlainRuns(readers, at, b, Zeros(size), Next(s));
      } else {
        assert rest == Plain(readers, at, b);
        PlainRuns(readers, at, b, mem, Next(s));
      }
    }
  }

  /** The same block of the transformed program. */
  lemma UnfilledRuns(readers: set<nat>, size: nat, m: nat, c: nat, at: nat, b: nat, mem: Mem, s: Probe)
    requires |mem| == size && m != c && c !in readers && b == m
    ensures var block := Unfilled(ProbeBlock(readers, size, m, c, at, b));
            RunBlock(block, mem, s) == (mem, if b in readers then Peeked(at, mem, Next(s)) else Next(s))
  {
    var plain := Plain(readers, at, b);
    var block := ProbeBlock(readers, size, m, c, at, b);
    assert block == [Tick()] + ([Fill] + plain);
    assert block[1..] == [Fill] + plain && ([Fill] + plain)[1..] == plain;
    UnfilledSame(plain);
    assert Unfilled([Fill] + plain) == plain;
    assert Unfilled(block) == [Tick()] + plain;
    RunTwo(Tick(), plain, mem, s);
    assert Step(Tick(), mem, s) == (mem, Next(s));
    PlainRuns(readers, at, b, mem, Next(s));
  }

  /** Both programs follow the path; the original's array is zero while dirty, the other's never. */
  lemma {:induction false} FollowsPath(succ: seq<set<nat>>, readers: set<nat>, size: nat, m: nat, c: nat, path: seq<nat>, i: nat)
    requires IsPath(succ, path) && i < |path| && m < |succ| && m != c && c !in readers
    ensures var q := Witness(succ, readers, size, m, c, path);
            && Exec(q, Sevens(size), START, i) == State(path[i], if DirtyAt(path, m, c, i) then Zeros(size) else Sevens(size), Probe(i, -1))
            && Exec(Delete(q, m), Sevens(size), START, i) == State(path[i], Sevens(size), Probe(i, -1))
  {
    if i > 0 {
      FollowsPath(succ, readers, size, m, c, path, i - 1);
      var q := Witness(succ, readers, size, m, c, path);
      var b, s := path[i - 1], Probe(i - 1, -1);
      assert b < |succ| && path[i] in succ[b];
      var was := if DirtyAt(path, m, c, i - 1) then Zeros(size) else Sevens(size);
      BlockRuns(readers, size, m, c, |path|, b, was, s);
      assert Follow(succ, path, b, Next(s)) == path[i];
      assert q.next(b, Next(s)) == path[i];
      DeletedRuns(succ, readers, size, m, c, path, b, s);
    }
  }

  lemma DeletedRuns(succ: seq<set<nat>>, readers: set<nat>, size: nat, m: nat, c: nat, path: seq<nat>, b: nat, s: Probe)
    requires b < |succ| && m < |succ| && m != c && c !in readers
    ensures var q := Delete(Witness(succ, readers, size, m, c, path), m);
            RunBlock(q.blocks[b], Sevens(size), s) ==
            (Sevens(size), if b in readers then Peeked(|path|, Sevens(size), Next(s)) else Next(s))
  {
    if b == m {
      UnfilledRuns(readers, size, m, c, |path|, b, Sevens(size), s);
    } else {
      BlockRuns(readers, size, m, c, |path|, b, Sevens(size), s);
    }
  }

  /** A stale read is visible: the original reads zero, the transformed program a seven. */
  lemma StaleReadShows(succ: seq<set<nat>>, readers: set<nat>, size: nat, m: nat, pre: nat, c: nat, e: nat, path: seq<nat>)
    requires Accepts(succ, readers, size, m, pre, c, e)
    requires IsPath(succ, path) && path[|path| - 1] in readers && (path[|path| - 1] == m || Dirty(path, m, c))
    ensures var q := Witness(succ, readers, size, m, c, path);
            Exec(q, Sevens(size), START, |path|).s.seen == 0 && Exec(Delete(q, m), Sevens(size), START, |path|).s.seen == 7
  {
    var q, i := Witness(succ, readers, size, m, c, path), |path| - 1;
    var b, s := path[i], Probe(i, -1);
    FollowsPath(succ, readers, size, m, c, path, i);
    if b != m {
      DirtyAtEnd(path, m, c);
    }
    var was := if DirtyAt(path, m, c, i) then Zeros(size) else Sevens(size);
    BlockRuns(readers, size, m, c, |path|, b, was, s);
    DeletedRuns(succ, readers, size, m, c, path, b, s);
    assert RunBlock(q.blocks[b], was, s) == (Zeros(size), Peeked(|path|, Zeros(size), Next(s)));
  }

  // ----- the exact condition -----

  /** A program the pass would transform, on this graph with these reading blocks. */
  ghost predicate OnGraph(q: Program<Probe>, succ: seq<set<nat>>, readers: set<nat>, size: nat, m: nat, pre: nat, c: nat, e: nat) {
    Legal(q) && Checked(q, size, m, pre, c, e) && q.succ == succ && Readers(q) == readers
  }

  /** The deletion cannot be observed, whatever the input, the initial content and the number of steps. */
  ghost predicate Unobservable(q: Program<Probe>, size: nat, m: nat)
    requires m < |q.blocks|
  {
    forall mem: Mem, s: Probe, n: nat {:trigger Exec(q, mem, s, n)} :: |mem| == size ==>
      Exec(q, mem, s, n).pc == Exec(Delete(q, m), mem, s, n).pc && Exec(q, mem, s, n).s == Exec(Delete(q, m), mem, s, n).s
  }

  /** The exact condition: on a graph the pass accepts, no read is stale if and only if deleting the
      fill is unobservable in every program on that graph. */
  lemma NoStaleReadIff(succ: seq<set<nat>>, readers: set<nat>, size: nat, m: nat, pre: nat, c: nat, e: nat)
    requires Accepts(succ, readers, size, m, pre, c, e)
    ensures NoStaleRead(succ, readers, m, c) <==>
            forall q: Program<Probe> {:trigger OnGraph(q, succ, readers, size, m, pre, c, e)} ::
              OnGraph(q, succ, readers, size, m, pre, c, e) ==> Unobservable(q, size, m)
  {
    if NoStaleRead(succ, readers, m, c) {
      forall q: Program<Probe> | OnGraph(q, succ, readers, size, m, pre, c, e) ensures Unobservable(q, size, m) {
        forall mem: Mem, s: Probe, n: nat | |mem| == size
          ensures Exec(q, mem, s, n).pc == Exec(Delete(q, m), mem, s, n).pc && Exec(q, mem, s, n).s == Exec(Delete(q, m), mem, s, n).s
        {
          DeletionPreservesMeaning(q, size, m, pre, c, e, mem, s, n);
        }
      }
    } else {
      var path :| IsPath(succ, path) && path[|path| - 1] in readers && (path[|path| - 1] == m || Dirty(path, m, c));
      var q := Witness(succ, readers, size, m, c, path);
      WitnessChecked(succ, readers, size, m, pre, c, e, path);
      StaleReadShows(succ, readers, size, m, pre, c, e, path);
      assert OnGraph(q, succ, readers, size, m, pre, c, e) && !Unobservable(q, size, m);
    }
  }
}
