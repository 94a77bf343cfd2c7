/** What several components share. */
module Basics {

  type Byte = x: int | 0 <= x < 256

  /** A field or a slot: nothing, or an object by its number. */
  datatype Ref = Null | To(id: nat)

  /** What a removal of the slots from `lo` parks, in the order it parks it: from the last slot down. */
  function Parked(d: seq<Ref>, lo: nat): seq<nat>
    requires lo <= |d|
    decreases |d| - lo
  {
    if lo == |d| then [] else Parked(d, lo + 1) + if d[lo].To? then [d[lo].id] else []
  }

  /** The order in which a list's release gives elements back: last in, first out. */
  function Backwards(s: seq<nat>): (r: seq<nat>)
    ensures |r| == |s| && forall i :: 0 <= i < |s| ==> r[i] == s[|s| - 1 - i]
  {
    if s == [] then [] else [s[|s| - 1]] + Backwards(s[..|s| - 1])
  }

  /** The objects in a row of slots, in order. */
  function Held(d: seq<Ref>): seq<nat> {
    if d == [] then [] else (if d[0].To? then [d[0].id] else []) + Held(d[1..])
  }

  /** What is parked is what the slots held, backwards. */
  lemma {:induction false} ParkedBackwards(d: seq<Ref>, lo: nat)
    requires lo <= |d|
    ensures Parked(d, lo) == Backwards(Held(d[lo..]))
    decreases |d| - lo
  {
    if lo < |d| {
      ParkedBackwards(d, lo + 1);
      var rest := Held(d[lo + 1..]);
      assert d[lo..][0] == d[lo] && d[lo..][1..] == d[lo + 1..];
      if d[lo].To? {
        BackwardsFront(d[lo].id, rest);
      } else {
        assert [] + rest == rest;
      }
    }
  }

  lemma BackwardsFront(x: nat, s: seq<nat>)
    ensures Backwards([x] + s) == Backwards(s) + [x]
  {
    var a, b := Backwards([x] + s), Backwards(s) + [x];
    forall i | 0 <= i < |a| ensures a[i] == b[i] {
      assert a[i] == ([x] + s)[|s| - i];
    }
  }

  lemma MulMono(a: nat, b: nat, c: nat)
    requires a <= b
    ensures a * c <= b * c
  {
  }
}
