/** What one step of each traversal leaves alone: the frames of marking, blackening and scanning, and
    how they compose. `part` is the object whose references are being walked, whose progress is not
    settled yet; -1 is none. */
module CycleFrames {
  import opened Basics
  import opened CycleGraph
  import opened CycleTrial

  const NONE: int := -1

  ghost function NotGrey(h: seq<Header>): set<nat> {
    set i: nat | i < |h| && h[i].colour != Grey
  }

  ghost function NotBlack(h: seq<Header>): set<nat> {
    set i: nat | i < |h| && h[i].colour != Black
  }

  /** Only colours and counts may differ in the way the step says; the colours are the same here. */
  ghost predicate SameColours(h: seq<Header>, h': seq<Header>) {
    |h'| == |h| && forall i :: 0 <= i < |h| ==> h'[i].colour == h[i].colour
  }

  // ----- marking -----

  ghost predicate GreyAt(g: Graph, h0: seq<Header>, h: seq<Header>, d0: seq<nat>, d: seq<nat>, from: nat, part: int, i: nat)
    requires i < |g| == |h0| == |h| == |d0| == |d|
  {
    && (h0[i].colour == Grey ==> h[i].colour == Grey && (i != part ==> d[i] == d0[i]))
    && (h0[i].colour != Grey && h[i].colour == Grey ==> (i != part ==> d[i] == |g[i]|) && Reach(g, from, i))
  }

  /** Grey objects stay grey with their progress; a newly grey one is walked whole and is reached. */
  ghost predicate GreyFrame(g: Graph, h0: seq<Header>, h: seq<Header>, d0: seq<nat>, d: seq<nat>, from: nat, part: int) {
    && |g| == |h0| == |h| == |d0| == |d|
    && (forall i: nat {:trigger GreyAt(g, h0, h, d0, d, from, part, i)} :: i < |g| ==> GreyAt(g, h0, h, d0, d, from, part, i))
  }

  lemma GreyStart(g: Graph, h: seq<Header>, d: seq<nat>, x: nat)
    requires |g| == |h| == |d| && x < |g|
    ensures GreyFrame(g, h, h[x := h[x].(colour := Grey)], d, d, x, x)
    ensures h[x].colour != Grey ==> x in NotGrey(h) && NotGrey(h[x := h[x].(colour := Grey)]) == NotGrey(h) - {x}
  {
    ReachSelf(g, x);
  }

  lemma GreyTrans(g: Graph, h0: seq<Header>, h1: seq<Header>, h: seq<Header>, d0: seq<nat>, d1: seq<nat>, d: seq<nat>, from: nat, part: int)
    requires GreyFrame(g, h0, h1, d0, d1, from, part) && GreyFrame(g, h1, h, d1, d, from, part)
    ensures GreyFrame(g, h0, h, d0, d, from, part)
  {
    forall i: nat | i < |g| ensures GreyAt(g, h0, h, d0, d, from, part, i) {
      assert GreyAt(g, h0, h1, d0, d1, from, part, i) && GreyAt(g, h1, h, d1, d, from, part, i);
    }
  }

  lemma GreyClose(g: Graph, h0: seq<Header>, h: seq<Header>, d0: seq<nat>, d: seq<nat>, x: nat)
    requires GreyFrame(g, h0, h, d0, d, x, x) && x < |g| && h0[x].colour != Grey && d[x] == |g[x]|
    ensures GreyFrame(g, h0, h, d0, d, x, NONE)
  {
    forall i: nat | i < |g| ensures GreyAt(g, h0, h, d0, d, x, NONE, i) {
      assert GreyAt(g, h0, h, d0, d, x, x, i);
    }
  }

  /** A null reference, or none at all, moves only the progress of `x`. */
  lemma GreyNull(g: Graph, h: seq<Header>, d: seq<nat>, x: nat, n: nat)
    requires |g| == |h| == |d| && x < |g|
    ensures GreyFrame(g, h, h, d, d[x := n], x, x) && GreyFrame(g, h, h, d, d, x, NONE)
  {
  }

  /** Marking through a reference of the grey object `x`. */
  lemma GreyStep(g: Graph, h0: seq<Header>, h1: seq<Header>, h: seq<Header>, d0: seq<nat>, d: seq<nat>, x: nat, y: nat, n: nat)
    requires |g| == |h0| == |d0| && x < |g| && h0[x].colour == Grey && SameColours(h0, h1) && Edge(g, x, y)
    requires GreyFrame(g, h1, h, d0[x := n], d, y, NONE)
    ensures GreyFrame(g, h0, h, d0, d, x, x) && h[x].colour == Grey && d[x] == n
  {
    forall i: nat | i < |g| ensures GreyAt(g, h0, h, d0, d, x, x, i) {
      assert GreyAt(g, h1, h, d0[x := n], d, y, NONE, i);
      if h0[i].colour != Grey && h[i].colour == Grey {
        ReachStep(g, x, y, i);
      }
    }
    assert GreyAt(g, h1, h, d0[x := n], d, y, NONE, x);
  }

  lemma GreyShrinks(g: Graph, h0: seq<Header>, h: seq<Header>, d0: seq<nat>, d: seq<nat>, from: nat, part: int)
    requires GreyFrame(g, h0, h, d0, d, from, part)
    ensures NotGrey(h) <= NotGrey(h0)
  {
    forall i | i in NotGrey(h) ensures i in NotGrey(h0) {
      assert GreyAt(g, h0, h, d0, d, from, part, i);
    }
  }

  // ----- blackening -----

  ghost predicate BlackAt(g: Graph, h0: seq<Header>, h: seq<Header>, d0: seq<nat>, d: seq<nat>, part: int, i: nat)
    requires i < |g| == |h0| == |h| == |d0| == |d|
  {
    && (h0[i].colour == Black ==> h[i].colour == Black && (i != part ==> d[i] == d0[i]))
    && (h0[i].colour != Black && i != part ==> (h[i].colour == Black && d[i] == |g[i]|) || h[i].colour == h0[i].colour)
  }

  /** Black objects stay black with their progress; another is given back whole or keeps its colour. */
  ghost predicate BlackFrame(g: Graph, h0: seq<Header>, h: seq<Header>, d0: seq<nat>, d: seq<nat>, part: int) {
    && |g| == |h0| == |h| == |d0| == |d|
    && (forall i: nat {:trigger BlackAt(g, h0, h, d0, d, part, i)} :: i < |g| ==> BlackAt(g, h0, h, d0, d, part, i))
  }

  lemma BlackStart(g: Graph, h: seq<Header>, d: seq<nat>, x: nat)
    requires |g| == |h| == |d| && x < |g| && h[x].colour != Black
    ensures BlackFrame(g, h, h[x := h[x].(colour := Black)], d, d, x)
    ensures x in NotBlack(h) && NotBlack(h[x := h[x].(colour := Black)]) == NotBlack(h) - {x}
  {
  }

  lemma BlackTrans(g: Graph, h0: seq<Header>, h1: seq<Header>, h: seq<Header>, d0: seq<nat>, d1: seq<nat>, d: seq<nat>, part: int)
    requires BlackFrame(g, h0, h1, d0, d1, part) && BlackFrame(g, h1, h, d1, d, part)
    ensures BlackFrame(g, h0, h, d0, d, part)
  {
    forall i: nat | i < |g| ensures BlackAt(g, h0, h, d0, d, part, i) {
      assert BlackAt(g, h0, h1, d0, d1, part, i) && BlackAt(g, h1, h, d1, d, part, i);
    }
  }

  lemma BlackClose(g: Graph, h0: seq<Header>, h: seq<Header>, d0: seq<nat>, d: seq<nat>, x: nat)
    requires BlackFrame(g, h0, h, d0, d, x) && x < |g| && h0[x].colour != Black && h[x].colour == Black && d[x] == |g[x]|
    ensures BlackFrame(g, h0, h, d0, d, NONE)
  {
    forall i: nat | i < |g| ensures BlackAt(g, h0, h, d0, d, NONE, i) {
      assert BlackAt(g, h0, h, d0, d, x, i);
    }
  }

  /** Only the progress of `x` moves. */
  lemma BlackNone(g: Graph, h: seq<Header>, h': seq<Header>, d: seq<nat>, x: nat, n: nat)
    requires |g| == |h| == |d| && x < |g| && h[x].colour == Black && SameColours(h, h')
    ensures BlackFrame(g, h, h', d, d[x := n], x)
  {
  }

  /** Blackening through a reference of the black object `x`. */
  lemma BlackStep(g: Graph, h0: seq<Header>, h1: seq<Header>, h: seq<Header>, d0: seq<nat>, d: seq<nat>, x: nat, n: nat)
    requires |g| == |h0| == |d0| && x < |g| && h0[x].colour == Black && SameColours(h0, h1)
    requires BlackFrame(g, h1, h, d0[x := n], d, NONE)
    ensures BlackFrame(g, h0, h, d0, d, x) && h[x].colour == Black && d[x] == n
  {
    forall i: nat | i < |g| ensures BlackAt(g, h0, h, d0, d, x, i) {
      assert BlackAt(g, h1, h, d0[x := n], d, NONE, i);
    }
    assert BlackAt(g, h1, h, d0[x := n], d, NONE, x);
  }

  lemma BlackShrinks(g: Graph, h0: seq<Header>, h: seq<Header>, d0: seq<nat>, d: seq<nat>, part: int)
    requires BlackFrame(g, h0, h, d0, d, part)
    ensures NotBlack(h) <= NotBlack(h0)
  {
    forall i | i in NotBlack(h) ensures i in NotBlack(h0) {
      assert BlackAt(g, h0, h, d0, d, part, i);
    }
  }

  // ----- scanning -----

  ghost predicate ScanAt(g: Graph, h0: seq<Header>, h: seq<Header>, s0: seq<nat>, s: seq<nat>, part: int, i: nat)
    requires i < |g| == |h0| == |h| == |s0| == |s|
  {
    && (h0[i].colour != Grey ==> h[i].colour != Grey && (i != part ==> s[i] == s0[i]))
    && (h0[i].colour == Grey && h[i].colour == White ==> s[i] == |g[i]|)
    && (h0[i].colour != Purple ==> h[i].colour != Purple)
    && (h0[i].colour == Black ==> h[i].colour == Black)
  }

  /** Nothing turns grey or purple, black stays black, and a newly white object has been scanned whole. */
  ghost predicate ScanFrame(g: Graph, h0: seq<Header>, h: seq<Header>, s0: seq<nat>, s: seq<nat>, part: int) {
    && |g| == |h0| == |h| == |s0| == |s|
    && (forall i: nat {:trigger ScanAt(g, h0, h, s0, s, part, i)} :: i < |g| ==> ScanAt(g, h0, h, s0, s, part, i))
  }

  lemma ScanNone(g: Graph, h: seq<Header>, s: seq<nat>, part: int)
    requires |g| == |h| == |s|
    ensures ScanFrame(g, h, h, s, s, part)
  {
  }

  lemma ScanTrans(g: Graph, h0: seq<Header>, h1: seq<Header>, h: seq<Header>, s0: seq<nat>, s1: seq<nat>, s: seq<nat>, part: int)
    requires ScanFrame(g, h0, h1, s0, s1, part) && ScanFrame(g, h1, h, s1, s, part)
    requires 0 <= part < |g| ==> h0[part].colour != Grey
    ensures ScanFrame(g, h0, h, s0, s, part)
  {
    forall i: nat | i < |g| ensures ScanAt(g, h0, h, s0, s, part, i) {
      assert ScanAt(g, h0, h1, s0, s1, part, i) && ScanAt(g, h1, h, s1, s, part, i);
    }
  }

  /** The scan of one child of `x`, and one more reference of `x` behind it. */
  lemma ScanStep(g: Graph, h0: seq<Header>, h: seq<Header>, s0: seq<nat>, s: seq<nat>, x: nat, n: nat)
    requires ScanFrame(g, h0, h, s0, s, NONE) && x < |g| && h0[x].colour != Grey
    ensures ScanFrame(g, h0, h, s0, s[x := n], x) && s[x] == s0[x] && h[x].colour != Grey
  {
    var s' := s[x := n];
    forall i: nat | i < |g| ensures ScanAt(g, h0, h, s0, s', x, i) {
      assert ScanAt(g, h0, h, s0, s, NONE, i);
    }
    assert ScanAt(g, h0, h, s0, s, NONE, x);
  }

  /** An object turned white and then scanned whole. */
  lemma ScanWhole(g: Graph, h0: seq<Header>, h: seq<Header>, s0: seq<nat>, s: seq<nat>, x: nat)
    requires |g| == |h0| == |s0| && x < |g| && h0[x].colour == Grey
    requires ScanFrame(g, h0[x := h0[x].(colour := White)], h, s0[x := 0], s, x) && s[x] == |g[x]|
    ensures ScanFrame(g, h0, h, s0, s, NONE) && h[x].colour != Grey
  {
    var h1 := h0[x := h0[x].(colour := White)];
    forall i: nat | i < |g| ensures ScanAt(g, h0, h, s0, s, NONE, i) {
      assert ScanAt(g, h1, h, s0[x := 0], s, x, i);
    }
    assert ScanAt(g, h1, h, s0[x := 0], s, x, x);
  }

  /** Blackening is a scan in which nothing turns white. */
  lemma ScanBlackened(g: Graph, grey: set<nat>, h0: seq<Header>, h: seq<Header>, d0: seq<nat>, d: seq<nat>, s: seq<nat>)
    requires BlackFrame(g, h0, h, d0, d, NONE) && SeenInv(g, grey, h0, s) && BlackWhole(g, grey, h0, d0)
    ensures ScanFrame(g, h0, h, s, s, NONE) && SeenInv(g, grey, h, s) && BlackWhole(g, grey, h, d)
  {
    forall i: nat | i < |g| ensures ScanAt(g, h0, h, s, s, NONE, i) && (h[i].colour == Black || h[i].colour == h0[i].colour) {
      assert BlackAt(g, h0, h, d0, d, NONE, i);
    }
    SeenKept(g, grey, h0, h, s);
    forall i | 0 <= i < |g| && i in grey && h[i].colour == Black ensures d[i] == |g[i]| {
      assert BlackAt(g, h0, h, d0, d, NONE, i);
    }
  }

  lemma ScanShrinks(g: Graph, h0: seq<Header>, h: seq<Header>, s0: seq<nat>, s: seq<nat>, part: int)
    requires ScanFrame(g, h0, h, s0, s, part)
    ensures Greys(h) <= Greys(h0)
  {
    forall i | i in Greys(h) ensures i in Greys(h0) {
      assert ScanAt(g, h0, h, s0, s, part, i);
    }
  }

  lemma Whitened(h: seq<Header>, x: nat)
    requires x < |h| && h[x].colour == Grey
    ensures x in Greys(h) && Greys(h[x := h[x].(colour := White)]) == Greys(h) - {x}
  {
  }
}
