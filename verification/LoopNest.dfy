/** A loop nest around one covering store, over the bytes of one frame array: how the nest runs,
    the tiling check on its steps and trip counts, and what passing the check means. */
module LoopNest {
  import opened Basics

  type Mem = seq<Byte>

  datatype Write = Write(at: int, bytes: seq<Byte>)

  /** One store; whatever falls outside the array lands elsewhere. */
  function Apply(mem: Mem, w: Write): (r: Mem)
    ensures |r| == |mem|
    ensures forall i :: 0 <= i < |mem| ==> r[i] == if w.at <= i < w.at + |w.bytes| then w.bytes[i - w.at] else mem[i]
  {
    seq(|mem|, i requires 0 <= i < |mem| => if w.at <= i < w.at + |w.bytes| then w.bytes[i - w.at] else mem[i])
  }

  function ApplyAll(mem: Mem, ws: seq<Write>): (r: Mem)
    ensures |r| == |mem|
    decreases |ws|
  {
    if ws == [] then mem else ApplyAll(Apply(mem, ws[0]), ws[1..])
  }

  /** `S` is everything outside the array: registers and all other memory. The other stores of a
      loop body, before and after what it encloses, may depend on `S` and the iteration in any way,
      but do not read the array. */
  datatype Nest<!S> =
    | Core(value: S -> seq<Byte>)
    | Loop(trips: nat, step: int, before: (nat, S) -> (seq<Write>, S), inner: Nest<S>, after: (nat, S) -> (seq<Write>, S))

  /** Runs the nest with the covering store's address starting at `at`. */
  function Run<S>(n: Nest<S>, at: int, mem: Mem, s: S): (r: (Mem, S))
    ensures |r.0| == |mem|
    decreases n, 2, 0
  {
    match n
    case Core(value) => (Apply(mem, Write(at, value(s))), s)
    case Loop(trips, _, _, _, _) => RunFrom(n, 0, at, mem, s)
  }

  function RunFrom<S>(n: Nest<S>, k: nat, at: int, mem: Mem, s: S): (r: (Mem, S))
    requires n.Loop? && k <= n.trips
    ensures |r.0| == |mem|
    decreases n, 1, n.trips - k
  {
    if k == n.trips then (mem, s) else
      var (ws, s1) := n.before(k, s);
      var (mem2, s2) := Run(n.inner, at + k * n.step, ApplyAll(mem, ws), s1);
      var (ws', s3) := n.after(k, s2);
      RunFrom(n, k + 1, at, ApplyAll(mem2, ws'), s3)
  }

  /** The addresses the covering store hits, in the order it hits them. */
  function Hits<S>(n: Nest<S>, at: int): seq<int>
    decreases n, 2, 0
  {
    match n
    case Core(_) => [at]
    case Loop(_, _, _, _, _) => HitsFrom(n, 0, at)
  }

  function HitsFrom<S>(n: Nest<S>, k: nat, at: int): seq<int>
    requires n.Loop? && k <= n.trips
    decreases n, 1, n.trips - k
  {
    if k == n.trips then [] else Hits(n.inner, at + k * n.step) + HitsFrom(n, k + 1, at)
  }

  /** Bytes the nest covers when every step fits: the store's size times every trip count. */
  function Span<S>(n: Nest<S>, size: nat): nat {
    match n
    case Core(_) => size
    case Loop(trips, _, _, inner, _) => Span(inner, size) * trips
  }

  function Tiles<S>(n: Nest<S>): nat {
    match n
    case Core(_) => 1
    case Loop(trips, _, _, inner, _) => Tiles(inner) * trips
  }

  /** Each loop steps by exactly what the loops inside it cover. */
  predicate Fits<S>(n: Nest<S>, size: nat) {
    match n
    case Core(_) => true
    case Loop(trips, step, _, inner, _) => trips > 0 && step == Span(inner, size) && Fits(inner, size)
  }

  ghost predicate Sized<S(!new)>(n: Nest<S>, size: nat) {
    match n
    case Core(value) => forall s :: |value(s)| == size
    case Loop(_, _, _, inner, _) => Sized(inner, size)
  }

  // ----- the tiling -----

  ghost function Progression(at: int, size: nat, count: nat): (r: seq<int>)
    ensures |r| == count && forall i :: 0 <= i < count ==> r[i] == at + i * size
  {
    seq(count, i requires 0 <= i < count => at + i * size)
  }

  lemma ProgressionJoin(at: int, size: nat, a: nat, b: nat)
    ensures Progression(at, size, a) + Progression(at + a * size, size, b) == Progression(at, size, a + b)
  {
  }

  lemma {:induction false} SpanIsTiles<S>(n: Nest<S>, size: nat)
    ensures Span(n, size) == Tiles(n) * size
  {
    match n
    case Core(_) =>
    case Loop(trips, _, _, inner, _) =>
      SpanIsTiles(inner, size);
      assert Tiles(inner) * size * trips == Tiles(inner) * trips * size;
  }

  /** The covering store hits every store-sized tile exactly once, in address order, at any depth. */
  lemma {:induction false} NestTiles<S>(n: Nest<S>, size: nat, at: int)
    requires Fits(n, size)
    ensures Hits(n, at) == Progression(at, size, Tiles(n))
    decreases n, 2, 0
  {
    if n.Loop? {
      NestTilesFrom(n, size, 0, at);
      assert at + 0 * n.step == at;
    } else {
      assert at + 0 * size == at;
    }
  }

  lemma {:induction false} NestTilesFrom<S>(n: Nest<S>, size: nat, k: nat, at: int)
    requires n.Loop? && Fits(n, size) && k <= n.trips
    ensures HitsFrom(n, k, at) == Progression(at + k * n.step, size, Tiles(n.inner) * (n.trips - k))
    decreases n, 1, n.trips - k
  {
    if k < n.trips {
      var t, lo := Tiles(n.inner), at + k * n.step;
      NestTiles(n.inner, size, lo);
      NestTilesFrom(n, size, k + 1, at);
      SpanIsTiles(n.inner, size);
      TurnTiles(at, k, n.step, t, n.trips - k, size);
    }
  }

  /** One turn's tiles and those of the turns behind it. */
  lemma TurnTiles(at: int, k: nat, step: int, t: nat, left: nat, size: nat)
    requires left > 0 && step == t * size
    ensures Progression(at + k * step, size, t) + Progression(at + (k + 1) * step, size, t * (left - 1)) == Progression(at + k * step, size, t * left)
  {
    NextTurn(k, step);
    TurnsLeft(t, left);
    ProgressionJoin(at + k * step, size, t, t * (left - 1));
  }

  lemma NextTurn(k: nat, step: int)
    ensures (k + 1) * step == k * step + step
  {
  }

  lemma TurnsLeft(t: nat, left: nat)
    requires left > 0
    ensures t * left == t + t * (left - 1)
  {
  }

  // ----- running over two different starting contents -----

  /** Agreement outside `[lo, hi)` may still be missing; inside it is established. */
  ghost predicate AgreeWhere(a: Mem, b: Mem, ok: iset<int>) {
    |a| == |b| && forall i :: 0 <= i < |a| && i in ok ==> a[i] == b[i]
  }

  lemma {:induction false} ApplyAllAgree(a: Mem, b: Mem, ws: seq<Write>, ok: iset<int>)
    requires AgreeWhere(a, b, ok)
    ensures AgreeWhere(ApplyAll(a, ws), ApplyAll(b, ws), ok)
    decreases |ws|
  {
    if ws != [] {
      ApplyAllAgree(Apply(a, ws[0]), Apply(b, ws[0]), ws[1..], ok);
    }
  }

  ghost predicate Between(lo: int, hi: int, i: int) {
    lo <= i < hi
  }

  ghost function Range(lo: int, hi: int): iset<int> {
    iset i | Between(lo, hi, i)
  }

  /** Two runs of the same nest over different contents end in the same outside state, and agree
      wherever they agreed before and on every byte the nest covers. */
  lemma {:induction false} RunAgree<S(!new)>(n: Nest<S>, size: nat, at: int, a: Mem, b: Mem, s: S, ok: iset<int>)
    requires Fits(n, size) && Sized(n, size) && AgreeWhere(a, b, ok)
    ensures Run(n, at, a, s).1 == Run(n, at, b, s).1
    ensures AgreeWhere(Run(n, at, a, s).0, Run(n, at, b, s).0, ok + Range(at, at + Span(n, size)))
    decreases n, 2, 0
  {
    if n.Loop? {
      RunFromAgree(n, size, 0, at, a, b, s, ok);
      assert at + 0 * n.step == at && at + n.trips * n.step == at + Span(n, size);
    }
  }

  lemma {:induction false} RunFromAgree<S(!new)>(n: Nest<S>, size: nat, k: nat, at: int, a: Mem, b: Mem, s: S, ok: iset<int>)
    requires n.Loop? && k <= n.trips && Fits(n, size) && Sized(n, size) && AgreeWhere(a, b, ok)
    ensures RunFrom(n, k, at, a, s).1 == RunFrom(n, k, at, b, s).1
    ensures AgreeWhere(RunFrom(n, k, at, a, s).0, RunFrom(n, k, at, b, s).0, ok + Range(at + k * n.step, at + n.trips * n.step))
    decreases n, 1, n.trips - k
  {
    if k < n.trips {
      var (ws, s1) := n.before(k, s);
      var lo := at + k * n.step;
      ApplyAllAgree(a, b, ws, ok);
      RunAgree(n.inner, size, lo, ApplyAll(a, ws), ApplyAll(b, ws), s1, ok);
      var (a2, s2) := Run(n.inner, lo, ApplyAll(a, ws), s1);
      var (b2, _) := Run(n.inner, lo, ApplyAll(b, ws), s1);
      var ok2 := ok + Range(lo, lo + n.step);
      var (ws', s3) := n.after(k, s2);
      ApplyAllAgree(a2, b2, ws', ok2);
      RunFromAgree(n, size, k + 1, at, ApplyAll(a2, ws'), ApplyAll(b2, ws'), s3, ok2);
      NextTurn(k, n.step);
      TurnsOrdered(k + 1, n.trips, n.step);
      assert ok2 + Range(lo + n.step, at + n.trips * n.step) == ok + Range(lo, at + n.trips * n.step);
    }
  }

  lemma TurnsOrdered(k: nat, trips: nat, step: int)
    requires k <= trips && step >= 0
    ensures k * step <= trips * step
  {
  }

  /** A nest that covers the array leaves nothing of what was there before. */
  lemma CoverForgets<S(!new)>(n: Nest<S>, size: nat, a: Mem, b: Mem, s: S)
    requires Fits(n, size) && Sized(n, size) && |a| == |b| == Span(n, size)
    ensures Run(n, 0, a, s) == Run(n, 0, b, s)
  {
    RunAgree(n, size, 0, a, b, s, iset{});
    assert Run(n, 0, a, s).0 == Run(n, 0, b, s).0;
  }

  // ----- the check -----

  /** What the check asks about one loop of the address's chain of recurrences. */
  datatype Level = Level(affine: bool, nextOut: bool, step: int, trips: nat, latchExit: bool, everyTurn: bool)

  const LIMIT: nat := 0x100_0000_0000

  /** The bytes covered by the store and the first `k` loops around it. */
  function Covered(stored: nat, levels: seq<Level>, k: nat): nat
    requires k <= |levels|
  {
    if k == 0 then stored else Covered(stored, levels, k - 1) * levels[k - 1].trips
  }

  predicate LevelFits(stored: nat, levels: seq<Level>, k: nat)
    requires k < |levels|
  {
    var l := levels[k];
    && l.affine && l.nextOut && l.latchExit && l.everyTurn
    && l.trips > 0 && l.step == Covered(stored, levels, k)
    && Covered(stored, levels, k + 1) <= LIMIT
  }

  /** What `store_covers` accepts. */
  ghost predicate Accepted(stored: nat, levels: seq<Level>, endsAtArray: bool, size: nat) {
    |levels| > 0 && AllFit(stored, levels) && endsAtArray && Covered(stored, levels, |levels|) == size
  }

  /** `store_covers`: the address is a chain of recurrences, innermost first, that ends at the array
      or does not. The product never leaves 64 bits. */
  method StoreCovers(stored: nat, levels: seq<Level>, endsAtArray: bool, size: nat) returns (ok: bool)
    ensures ok <==> Accepted(stored, levels, endsAtArray, size)
  {
    var span := stored;
    var k := 0;
    while k < |levels|
      invariant k <= |levels| && span == Covered(stored, levels, k)
      invariant forall j :: 0 <= j < k ==> LevelFits(stored, levels, j)
    {
      var l := levels[k];
      if !l.affine || !l.nextOut || l.step < 0 || l.step != span || l.trips == 0 || !l.latchExit || !l.everyTurn {
        assert !LevelFits(stored, levels, k);
        return false;
      }
      if span > LIMIT / l.trips {
        ProductOver(span, l.trips);
        assert !LevelFits(stored, levels, k);
        return false;
      }
      ProductUnder(span, l.trips);
      span := span * l.trips;
      k := k + 1;
    }
    ok := k > 0 && endsAtArray && span == size;
  }

  lemma ProductOver(span: nat, trips: nat)
    requires trips > 0 && span > LIMIT / trips
    ensures span * trips > LIMIT
  {
    assert span * trips >= (LIMIT / trips + 1) * trips;
  }

  lemma ProductUnder(span: nat, trips: nat)
    requires trips > 0 && span <= LIMIT / trips
    ensures span * trips <= LIMIT < 0x1_0000_0000_0000_0000
  {
  }

  /** The chain of a nest, innermost loop first. */
  function Chain<S>(n: Nest<S>): seq<Level> {
    match n
    case Core(_) => []
    case Loop(trips, step, _, inner, _) => Chain(inner) + [Level(true, true, step, trips, true, true)]
  }

  lemma {:induction false} CoveredPrefix(stored: nat, a: seq<Level>, b: seq<Level>, k: nat)
    requires k <= |a|
    ensures Covered(stored, a + b, k) == Covered(stored, a, k)
  {
    if k > 0 {
      CoveredPrefix(stored, a, b, k - 1);
      assert (a + b)[k - 1] == a[k - 1];
    }
  }

  ghost predicate AllFit(stored: nat, levels: seq<Level>) {
    forall k :: 0 <= k < |levels| ==> LevelFits(stored, levels, k)
  }

  /** One more loop around a chain. */
  lemma AllFitSnoc(stored: nat, c: seq<Level>, l: Level)
    ensures Covered(stored, c + [l], |c| + 1) == Covered(stored, c, |c|) * l.trips
    ensures AllFit(stored, c + [l]) <==> AllFit(stored, c) && LevelFits(stored, c + [l], |c|)
    ensures Covered(stored, c + [l], |c|) == Covered(stored, c, |c|)
  {
    forall k | 0 <= k <= |c| ensures Covered(stored, c + [l], k) == Covered(stored, c, k) {
      CoveredPrefix(stored, c, [l], k);
    }
    forall k | 0 <= k < |c| ensures LevelFits(stored, c + [l], k) <==> LevelFits(stored, c, k) {
      assert (c + [l])[k] == c[k];
    }
    if AllFit(stored, c + [l]) {
      forall k | 0 <= k < |c| ensures LevelFits(stored, c, k) {
        assert LevelFits(stored, c + [l], k);
      }
    }
  }

  /** What the check accepts is exactly a nest whose steps tile, up to the size limit, and the
      bytes it counts are the nest's span. */
  lemma {:induction false} ChainFits<S>(n: Nest<S>, size: nat)
    ensures Covered(size, Chain(n), |Chain(n)|) == Span(n, size)
    ensures AllFit(size, Chain(n)) ==> Fits(n, size)
    ensures Fits(n, size) && Span(n, size) <= LIMIT ==> AllFit(size, Chain(n))
  {
    if n.Loop? {
      ChainFits(n.inner, size);
      AllFitSnoc(size, Chain(n.inner), Level(true, true, n.step, n.trips, true, true));
      if n.trips > 0 {
        TurnsOrdered(1, n.trips, Span(n.inner, size));
      }
      var c := Chain(n.inner) + [Level(true, true, n.step, n.trips, true, true)];
      assert LevelFits(size, c, |Chain(n.inner)|) <==>
             n.trips > 0 && n.step == Span(n.inner, size) && Span(n, size) <= LIMIT;
    }
  }

  /** A nest the check accepts covers the array: its store hits each store-sized tile of it once. */
  lemma AcceptedCovers<S>(n: Nest<S>, stored: nat, size: nat)
    requires Accepted(stored, Chain(n), true, size)
    ensures Fits(n, stored) && Span(n, stored) == size && Hits(n, 0) == Progression(0, stored, Tiles(n)) && Tiles(n) * stored == size
  {
    ChainFits(n, stored);
    NestTiles(n, stored, 0);
    SpanIsTiles(n, stored);
  }

  /** The check answers true of a nest of any depth exactly when it is a loop whose steps tile and which
      covers the array, no larger than the limit. */
  lemma AcceptedIff<S>(n: Nest<S>, stored: nat, size: nat)
    ensures Accepted(stored, Chain(n), true, size) <==> n.Loop? && Fits(n, stored) && Span(n, stored) == size <= LIMIT
  {
    ChainFits(n, stored);
    if n.Loop? && AllFit(stored, Chain(n)) {
      assert LevelFits(stored, Chain(n), |Chain(n)| - 1);
    }
  }

  /** The nest that a chain of levels describes, its bodies empty but for the store. */
  function NestOf(levels: seq<Level>): Nest<bool>
    decreases |levels|
  {
    if levels == [] then Core(_ => [])
    else
      var l := levels[|levels| - 1];
      Loop(l.trips, l.step, (_, s) => ([], s), NestOf(levels[..|levels| - 1]), (_, s) => ([], s))
  }

  /** What the check needs of each loop besides its numbers: an affine address, the next loop out, a
      latch that is the only exit, and a body that runs every turn. */
  predicate Regular(levels: seq<Level>) {
    forall k :: 0 <= k < |levels| ==> levels[k].affine && levels[k].nextOut && levels[k].latchExit && levels[k].everyTurn
  }

  lemma {:induction false} ChainOf(levels: seq<Level>)
    ensures Regular(levels) <==> Chain(NestOf(levels)) == levels
    ensures levels != [] <==> NestOf(levels).Loop?
    decreases |levels|
  {
    if levels != [] {
      var front, l := levels[..|levels| - 1], levels[|levels| - 1];
      ChainOf(front);
      assert levels == front + [l];
      assert Regular(levels) <==> Regular(front) && l.affine && l.nextOut && l.latchExit && l.everyTurn;
      var c := Chain(NestOf(levels));
      assert c == Chain(NestOf(front)) + [Level(true, true, l.step, l.trips, true, true)];
      if c == levels {
        assert c[..|c| - 1] == Chain(NestOf(front)) && c[|c| - 1] == l;
      }
    }
  }

  /** The check over any facts about the store's address: it accepts exactly the regular chains that end
      at the array and describe a nest that tiles it. */
  lemma AcceptsExactly(stored: nat, levels: seq<Level>, endsAtArray: bool, size: nat)
    ensures Accepted(stored, levels, endsAtArray, size) <==>
            var n := NestOf(levels);
            endsAtArray && Regular(levels) && n.Loop? && Fits(n, stored) && Span(n, stored) == size <= LIMIT
  {
    ChainOf(levels);
    if Regular(levels) {
      AcceptedIff(NestOf(levels), stored, size);
    } else {
      var k :| 0 <= k < |levels| && !(levels[k].affine && levels[k].nextOut && levels[k].latchExit && levels[k].everyTurn);
      assert !LevelFits(stored, levels, k);
    }
  }
}
