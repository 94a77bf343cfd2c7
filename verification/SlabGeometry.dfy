/** Where the slab allocator's blocks are: 64 KiB spans, each owned by one of 32 size classes and
    cut into equal blocks from a staggered start. A block is named by its span and its index in it. */
module SlabGeometry {

  const GRAIN: nat := 16
  const CLASSES: nat := 32
  const SLAB_MAX: nat := 512
  const SPAN: nat := 65536
  const STAGGER: nat := 1088
  const WINDOW_BYTES: nat := 8192

  /** Bytes in a block of class `c`. */
  function Size(c: nat): (r: nat)
    ensures r >= 16 && r % 16 == 0
  {
    (c + 1) * GRAIN
  }

  /** How far into each of its spans class `c` starts. */
  function Stagger(c: nat): (r: nat)
    ensures r < 4096 && r % 16 == 0
  {
    StaggerAligned(c);
    c * STAGGER % 4096
  }

  lemma StaggerAligned(c: nat)
    ensures c * STAGGER % 4096 % 16 == 0
  {
    var x := c * 68;
    assert c * STAGGER == 16 * x;
    var q, r := 16 * x / 4096, 16 * x % 4096;
    assert 16 * x == 4096 * q + r;
    assert r == 16 * (x - 256 * q);
  }

  /** `rt_base_alloc`'s class for a request, when the slab serves it. */
  function ClassFor(size: nat): (c: nat)
    requires size <= SLAB_MAX
    ensures c < CLASSES && Size(c) >= size
    ensures c > 0 ==> Size(c - 1) < size
  {
    if size == 0 then 0 else (size - 1) / 16
  }

  /** How many blocks a cache is given at a time: 8 KiB worth, and at least 8. */
  function WindowCount(c: nat): (n: nat)
    requires c < CLASSES
    ensures n >= 8 && n * Size(c) <= 8192
  {
    var n := WINDOW_BYTES / Size(c);
    assert Size(c) <= 512;
    assert n * Size(c) <= 8192 by {
      assert WINDOW_BYTES == n * Size(c) + WINDOW_BYTES % Size(c);
    }
    if n > 8 then n else 8
  }

  /** No larger window stays within 8 KiB, where 8 blocks do not already exceed it. */
  lemma WindowIsFull(c: nat)
    requires c < CLASSES
    ensures WindowCount(c) == 8 || (WindowCount(c) + 1) * Size(c) > WINDOW_BYTES
  {
    var n := WINDOW_BYTES / Size(c);
    assert WINDOW_BYTES == n * Size(c) + WINDOW_BYTES % Size(c);
    assert (n + 1) * Size(c) == n * Size(c) + Size(c);
  }

  /** Byte offset of block `idx` in a span of class `c`. */
  function Offset(c: nat, idx: nat): nat {
    Stagger(c) + idx * Size(c)
  }

  /** The first `n` blocks lie wholly inside the span. */
  predicate Within(c: nat, n: nat) {
    Offset(c, n) <= SPAN
  }

  function Addr(base: nat, c: nat, span: nat, idx: nat): nat {
    base + span * SPAN + Offset(c, idx)
  }

  /** `off >> 16`. */
  function SpanOf(base: nat, a: nat): nat
    requires a >= base
  {
    (a - base) / SPAN
  }

  /** A fresh span always has room for a window, whatever the stagger. */
  lemma FreshSpanFits(c: nat)
    requires c < CLASSES
    ensures Within(c, WindowCount(c))
  {
  }

  lemma {:induction false} WithinBound(c: nat, n: nat)
    ensures Within(c, n) ==> n <= SPAN
  {
    if n > 0 {
      MulStep(0, n, Size(c));
      MulLeast(n, Size(c));
    }
  }

  lemma {:induction false} MulLeast(n: nat, s: nat)
    requires s > 0
    ensures n <= n * s
  {
    if n > 0 {
      MulLeast(n - 1, s);
      assert n * s == (n - 1) * s + s;
    }
  }

  /** How many blocks are cut from a span of class `c`, `m` of them already, before no window fits. */
  function Filled(c: nat, m: nat): nat
    requires c < CLASSES
    decreases SPAN - m
  {
    WithinBound(c, m + WindowCount(c));
    if Within(c, m + WindowCount(c)) then Filled(c, m + WindowCount(c)) else m
  }

  lemma OffsetMono(c: nat, i: nat, j: nat)
    requires i < j
    ensures Offset(c, i) + Size(c) <= Offset(c, j)
  {
    MulStep(i, j, Size(c));
  }

  lemma {:induction false} MulStep(i: nat, j: nat, s: nat)
    requires i < j
    ensures i * s + s <= j * s
  {
    assert j * s == (j - 1) * s + s;
    if i < j - 1 {
      MulStep(i, j - 1, s);
    }
  }

  /** Every block is aligned, wholly inside its span, and the span table lookup finds its span. */
  lemma BlockPlaced(base: nat, c: nat, span: nat, idx: nat, n: nat)
    requires base % 16 == 0 && Within(c, n) && idx < n
    ensures Addr(base, c, span, idx) % 16 == 0
    ensures base + span * SPAN <= Addr(base, c, span, idx)
    ensures Addr(base, c, span, idx) + Size(c) <= base + (span + 1) * SPAN
    ensures SpanOf(base, Addr(base, c, span, idx)) == span
  {
    OffsetMono(c, idx, n);
    OffsetAligned(c, idx);
    SumAligned(base, span, Offset(c, idx));
    SpanFound(span, Offset(c, idx));
  }

  lemma OffsetAligned(c: nat, idx: nat)
    ensures Offset(c, idx) % 16 == 0
  {
    MultipleAligned(idx, Size(c));
    AlignedSum(Stagger(c), idx * Size(c));
  }

  lemma {:induction false} MultipleAligned(i: nat, s: nat)
    requires s % 16 == 0
    ensures i * s % 16 == 0
  {
    if i > 0 {
      MultipleAligned(i - 1, s);
      assert i * s == (i - 1) * s + s;
      AlignedSum((i - 1) * s, s);
    }
  }

  lemma AlignedSum(a: nat, b: nat)
    requires a % 16 == 0 && b % 16 == 0
    ensures (a + b) % 16 == 0
  {
  }

  lemma SumAligned(base: nat, span: nat, o: nat)
    requires base % 16 == 0 && o % 16 == 0
    ensures (base + span * SPAN + o) % 16 == 0
  {
  }

  lemma SpanFound(span: nat, o: nat)
    requires o < SPAN
    ensures (span * SPAN + o) / SPAN == span
  {
  }

  /** Two different blocks do not overlap, in one span or in two, of one class or of two. */
  lemma BlocksDisjoint(base: nat, c: nat, span: nat, idx: nat, n: nat, c': nat, span': nat, idx': nat, n': nat)
    requires base % 16 == 0 && Within(c, n) && idx < n && Within(c', n') && idx' < n'
    requires span == span' ==> c == c'
    requires (span, idx) != (span', idx')
    ensures Addr(base, c, span, idx) + Size(c) <= Addr(base, c', span', idx')
         || Addr(base, c', span', idx') + Size(c') <= Addr(base, c, span, idx)
  {
    if span == span' {
      if idx < idx' {
        OffsetMono(c, idx, idx');
      } else {
        OffsetMono(c, idx', idx);
      }
    } else {
      BlockPlaced(base, c, span, idx, n);
      BlockPlaced(base, c', span', idx', n');
      if span < span' {
        assert (span + 1) * SPAN <= span' * SPAN;
      } else {
        assert (span' + 1) * SPAN <= span * SPAN;
      }
    }
  }

  /** `rt_base_realloc` keeps a block exactly while the request fits its class; when it moves to a
      slab block, the new class is larger, so the old class's whole size fits. */
  lemma ReallocRoom(c: nat, size: nat)
    requires c < CLASSES && Size(c) < size <= SLAB_MAX
    ensures Size(ClassFor(size)) >= size > Size(c) && ClassFor(size) > c
  {
  }
}
