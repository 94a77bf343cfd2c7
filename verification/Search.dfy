/** The packed-pair substring search: a 32-lane, a 16-lane and a scalar loop that together refine one
    scalar scan, and the needle search that gives up when its candidates are too dense. */
module Search {
  import opened Basics

  // ----- lane masks -----

  /** How many trailing zero bits: the builtin the scan uses to find the first lane. */
  function Ctz(v: nat): (r: nat)
    requires v > 0
  {
    if v % 2 == 1 then 0 else 1 + Ctz(v / 2)
  }

  function And(a: nat, b: nat): nat {
    if a == 0 || b == 0 then 0
    else 2 * And(a / 2, b / 2) + if a % 2 == 1 && b % 2 == 1 then 1 else 0
  }

  /** The first lane that is set, or the number of lanes. */
  function FirstSet(lanes: seq<bool>): (r: nat)
    ensures r <= |lanes|
    ensures r < |lanes| ==> lanes[r]
    ensures forall k :: 0 <= k < r ==> !lanes[k]
  {
    if lanes == [] || lanes[0] then 0 else 1 + FirstSet(lanes[1..])
  }

  /** `_mm_movemask_epi8`: one bit a lane. */
  function MoveMask(lanes: seq<bool>): nat {
    if lanes == [] then 0 else (if lanes[0] then 1 else 0) + 2 * MoveMask(lanes[1..])
  }

  /** The all-ones or all-zeros byte of a compared lane. */
  function LaneByte(lane: bool): nat {
    if lane then 0xFF else 0
  }

  /** `vshrn_n_u16(m, 4)` on one pair of adjacent lanes, read as a little-endian 16-bit lane. */
  function Narrow(low: nat, high: nat): nat {
    (low + 0x100 * high) / 16 % 0x100
  }

  /** The eight narrowed bytes as one little-endian word. */
  function NarrowedWord(lanes: seq<bool>): nat
    requires |lanes| % 2 == 0
  {
    if lanes == [] then 0
    else Narrow(LaneByte(lanes[0]), LaneByte(lanes[1])) + 0x100 * NarrowedWord(lanes[2..])
  }

  /** `n` bytes 0x88; with eight of them, the constant the NEON branch keeps bits with. */
  function Eights(n: nat): nat {
    if n == 0 then 0 else 0x88 + 0x100 * Eights(n - 1)
  }

  function NeonMask(lanes: seq<bool>): nat
    requires |lanes| % 2 == 0
  {
    And(NarrowedWord(lanes), Eights(|lanes| / 2))
  }

  lemma EightsConstant()
    ensures Eights(8) == 0x8888_8888_8888_8888
  {
  }

  lemma {:induction false} MoveMaskFirst(lanes: seq<bool>)
    ensures MoveMask(lanes) == 0 <==> FirstSet(lanes) == |lanes|
    ensures MoveMask(lanes) > 0 ==> Ctz(MoveMask(lanes)) == FirstSet(lanes)
  {
    if lanes != [] {
      var rest := MoveMask(lanes[1..]);
      MoveMaskFirst(lanes[1..]);
      if !lanes[0] {
        assert MoveMask(lanes) / 2 == rest && MoveMask(lanes) % 2 == 0;
      }
    }
  }

  /** `a << k`. */
  function Shl(a: nat, k: nat): (r: nat)
    ensures a > 0 ==> r > 0
  {
    if k == 0 then a else 2 * Shl(a, k - 1)
  }

  /** A bitwise and takes two numbers apart digit by digit. */
  lemma {:induction false} AndDigit(a: nat, b: nat, x: nat, y: nat, k: nat)
    requires x < Shl(1, k) && y < Shl(1, k)
    ensures And(x + Shl(a, k), y + Shl(b, k)) == And(x, y) + Shl(And(a, b), k)
    decreases k
  {
    if k > 0 {
      AndDigit(a, b, x / 2, y / 2, k - 1);
      AndDoubled(x, y, Shl(a, k - 1), Shl(b, k - 1));
      AndStep(x, y);
      assert And(x / 2 + Shl(a, k - 1), y / 2 + Shl(b, k - 1)) == And(x / 2, y / 2) + Shl(And(a, b), k - 1);
    }
  }

  lemma Shl8(a: nat)
    ensures Shl(a, 3) == 8 * a && Shl(a, 7) == 0x80 * a && Shl(a, 8) == 0x100 * a
  {
    assert Shl(a, 1) == 2 * a;
    assert Shl(a, 2) == 4 * a;
    assert Shl(a, 3) == 8 * a;
    assert Shl(a, 5) == 4 * Shl(a, 3);
    assert Shl(a, 7) == 4 * Shl(a, 5);
  }

  lemma AndDoubled(x: nat, y: nat, a: nat, b: nat)
    ensures And(x + 2 * a, y + 2 * b) == 2 * And(x / 2 + a, y / 2 + b) + if x % 2 == 1 && y % 2 == 1 then 1 else 0
  {
  }

  lemma AndStep(a: nat, b: nat)
    ensures And(a, b) == 2 * And(a / 2, b / 2) + if a % 2 == 1 && b % 2 == 1 then 1 else 0
  {
  }

  /** The kept bits of one pair of lanes. */
  function Pair(low: bool, high: bool): (r: nat)
    ensures r < 0x100 && (r == 0 <==> !low && !high)
  {
    (if low then 8 else 0) + if high then 0x80 else 0
  }

  lemma NarrowKept(low: bool, high: bool)
    ensures Narrow(LaneByte(low), LaneByte(high)) < 0x100
    ensures And(Narrow(LaneByte(low), LaneByte(high)), 0x88) == Pair(low, high)
  {
    var w := Narrow(LaneByte(low), LaneByte(high));
    assert w == (if low then 0x0F else 0) + if high then 0xF0 else 0;
    AndStep(w, 0x88);
    AndStep(w / 2, 0x44);
    AndStep(w / 4, 0x22);
    AndStep(w / 8, 0x11);
    AndStep(w / 16, 8);
    AndStep(w / 32, 4);
    AndStep(w / 64, 2);
    AndStep(w / 128, 1);
  }

  lemma NeonMaskStep(lanes: seq<bool>)
    requires |lanes| % 2 == 0 && lanes != []
    ensures NeonMask(lanes) == Pair(lanes[0], lanes[1]) + 0x100 * NeonMask(lanes[2..])
  {
    var w := Narrow(LaneByte(lanes[0]), LaneByte(lanes[1]));
    NarrowKept(lanes[0], lanes[1]);
    AndByte(NarrowedWord(lanes[2..]), Eights(|lanes| / 2 - 1), w, 0x88);
    assert |lanes[2..]| / 2 == |lanes| / 2 - 1;
    assert NarrowedWord(lanes) == w + 0x100 * NarrowedWord(lanes[2..]);
    assert Eights(|lanes| / 2) == 0x88 + 0x100 * Eights(|lanes| / 2 - 1);
  }

  lemma AndByte(a: nat, b: nat, x: nat, y: nat)
    requires x < 0x100 && y < 0x100
    ensures And(x + 0x100 * a, y + 0x100 * b) == And(x, y) + 0x100 * And(a, b)
  {
    Shl8(1);
    Shl8(a);
    Shl8(b);
    Shl8(And(a, b));
    AndDigit(a, b, x, y, 8);
  }

  /** The first kept bit of a pair, by which lane is set. */
  lemma CtzLow(high: bool, rest: nat)
    ensures Ctz(Pair(true, high) + 0x100 * rest) == 3
  {
    var odd := 1 + (if high then 0x10 else 0) + 0x20 * rest;
    assert Pair(true, high) + 0x100 * rest == 8 * odd;
    ShiftedOdd(odd);
  }

  lemma CtzHigh(rest: nat)
    ensures Ctz(Pair(false, true) + 0x100 * rest) == 7
  {
    var odd := 1 + 2 * rest;
    assert Pair(false, true) + 0x100 * rest == 0x80 * odd;
    ShiftedOdd(odd);
  }

  lemma CtzNeither(rest: nat)
    requires rest > 0
    ensures Ctz(Pair(false, false) + 0x100 * rest) == 8 + Ctz(rest)
  {
    Shl8(rest);
    CtzShifted(rest, 8);
  }

  lemma ShiftedOdd(odd: nat)
    requires odd % 2 == 1
    ensures Ctz(8 * odd) == 3 && Ctz(0x80 * odd) == 7
  {
    Shl8(odd);
    CtzShifted(odd, 3);
    CtzShifted(odd, 7);
  }

  lemma {:induction false} CtzShifted(w: nat, k: nat)
    requires w > 0
    ensures Ctz(Shl(w, k)) == k + Ctz(w)
  {
    if k > 0 {
      CtzShifted(w, k - 1);
    }
  }

  /** The nibble mask finds the same lane as the bit mask. */
  lemma {:induction false} NeonMaskFirst(lanes: seq<bool>)
    requires |lanes| % 2 == 0
    ensures NeonMask(lanes) == 0 <==> FirstSet(lanes) == |lanes|
    ensures NeonMask(lanes) > 0 ==> Ctz(NeonMask(lanes)) / 4 == FirstSet(lanes)
  {
    if lanes != [] {
      NeonMaskStep(lanes);
      NeonMaskFirst(lanes[2..]);
      assert lanes[1..][1..] == lanes[2..];
      var rest := NeonMask(lanes[2..]);
      if lanes[0] {
        CtzLow(lanes[1], rest);
      } else if lanes[1] {
        CtzHigh(rest);
      } else if rest > 0 {
        CtzNeither(rest);
      }
    }
  }

  // ----- the pair scan -----

  datatype Target = Neon | Sse2 | Scalar

  /** The two bytes looked for and their offsets from a candidate start. */
  datatype PairKey = PairKey(offset1: nat, byte1: Byte, offset2: nat, byte2: Byte)

  /** Every candidate up to `last` has both bytes inside the string. */
  ghost predicate Inside(s: seq<Byte>, last: int, key: PairKey) {
    last + key.offset1 < |s| && last + key.offset2 < |s|
  }

  predicate PairAt(s: seq<Byte>, i: nat, key: PairKey)
    requires Inside(s, i, key)
  {
    s[i + key.offset1] == key.byte1 && s[i + key.offset2] == key.byte2
  }

  /** The simple scan: the first candidate in [from, last] with both bytes in place, or -1. */
  ghost predicate ScansTo(s: seq<Byte>, from: nat, last: int, key: PairKey, r: int)
    requires Inside(s, last, key)
  {
    if r == -1 then forall i :: from <= i <= last ==> !PairAt(s, i, key)
    else from <= r <= last && PairAt(s, r, key) && forall i :: from <= i < r ==> !PairAt(s, i, key)
  }

  /** A 16-byte load, which must stay inside the string. */
  function Load(s: seq<Byte>, at: nat): seq<Byte>
    requires at + 16 <= |s|
  {
    s[at..at + 16]
  }

  /** The lanes where both compares hold. */
  function Lanes(s: seq<Byte>, i: nat, key: PairKey): (r: seq<bool>)
    requires Inside(s, i + 15, key)
    ensures |r| == 16 && forall k :: 0 <= k < 16 ==> (r[k] <==> PairAt(s, i + k, key))
  {
    var got1, got2 := Load(s, i + key.offset1), Load(s, i + key.offset2);
    seq(16, k requires 0 <= k < 16 => got1[k] == key.byte1 && got2[k] == key.byte2)
  }

  /** The first matching lane as each instruction set finds it, or -1. */
  function Lane(target: Target, lanes: seq<bool>): (r: int)
    requires |lanes| == 16
    ensures r == if FirstSet(lanes) < 16 then FirstSet(lanes) else -1
  {
    if target.Neon? then
      NeonMaskFirst(lanes);
      if NeonMask(lanes) != 0 then Ctz(NeonMask(lanes)) / 4 else -1
    else
      MoveMaskFirst(lanes);
      if MoveMask(lanes) != 0 then Ctz(MoveMask(lanes)) else -1
  }

  /** No candidate before `i`. */
  ghost predicate Passed(s: seq<Byte>, from: nat, i: int, last: int, key: PairKey)
    requires Inside(s, last, key)
  {
    forall j :: from <= j < i && j <= last ==> !PairAt(s, j, key)
  }

  /** `str_pair_scan`, on any target. */
  method PairScan(target: Target, s: seq<Byte>, from: nat, last: int, key: PairKey) returns (r: int)
    requires Inside(s, last, key)
    ensures ScansTo(s, from, last, key, r)
  {
    var i := from;
    if !target.Scalar? {
      i, r := ScanTwo(target, s, from, last, key);
      if r >= 0 {
        return r;
      }
      while i <= last - 15
        invariant from <= i && Passed(s, from, i, last, key)
      {
        r := ScanOne(target, s, from, i, last, key);
        if r >= 0 {
          return r;
        }
        i := i + 16;
      }
    }
    while i <= last
      invariant from <= i && Passed(s, from, i, last, key)
    {
      if s[i + key.offset1] == key.byte1 && s[i + key.offset2] == key.byte2 {
        return i;
      }
      i := i + 1;
    }
    r := -1;
  }

  /** The loop over two vectors at a time. */
  method ScanTwo(target: Target, s: seq<Byte>, from: nat, last: int, key: PairKey) returns (i: nat, r: int)
    requires Inside(s, last, key)
    ensures from <= i && Passed(s, from, i, last, key)
    ensures if r < 0 then i > last - 31 else ScansTo(s, from, last, key, r)
  {
    i := from;
    while i <= last - 31
      invariant from <= i && Passed(s, from, i, last, key)
    {
      r := ScanOne(target, s, from, i, last, key);
      if r >= 0 {
        return i, r;
      }
      r := ScanOne(target, s, from, i + 16, last, key);
      if r >= 0 {
        return i, r;
      }
      i := i + 32;
    }
    r := -1;
  }

  /** One vector: two loads, two compares, the mask and its first bit. */
  method ScanOne(target: Target, s: seq<Byte>, ghost from: nat, i: nat, last: int, key: PairKey) returns (r: int)
    requires Inside(s, last, key) && from <= i <= last - 15 && Passed(s, from, i, last, key)
    ensures if r < 0 then Passed(s, from, i + 16, last, key) else ScansTo(s, from, last, key, r)
  {
    var lane := Lane(target, Lanes(s, i, key));
    NoLane(s, i, key);
    r := if lane >= 0 then i + lane else -1;
  }

  lemma NoLane(s: seq<Byte>, i: nat, key: PairKey)
    requires Inside(s, i + 15, key)
    ensures forall j :: i <= j < i + FirstSet(Lanes(s, i, key)) ==> !PairAt(s, j, key)
  {
    var lanes := Lanes(s, i, key);
    forall j | i <= j < i + FirstSet(lanes) ensures !PairAt(s, j, key) {
      assert !lanes[j - i];
    }
  }

  /** Whatever the target, the answer is the same. */
  lemma ScanUnique(s: seq<Byte>, from: nat, last: int, key: PairKey, a: int, b: int)
    requires Inside(s, last, key) && ScansTo(s, from, last, key, a) && ScansTo(s, from, last, key, b)
    ensures a == b
  {
  }

  // ----- choosing the pair -----

  const LETTER_RANK: seq<nat> := [249, 216, 238, 236, 253, 227, 218, 230, 247, 135, 180, 241, 233,
                                  246, 244, 231, 139, 245, 243, 251, 235, 201, 196, 240, 214, 152]

  function Rank(b: Byte): nat {
    var c := if 'A' as int <= b <= 'Z' as int then b + 32 else b;
    if 'a' as int <= c <= 'z' as int then LETTER_RANK[c - 'a' as int]
    else if c == ' ' as int then 255
    else if '0' as int <= c <= '9' as int then 220
    else if c >= 128 then 254
    else 100
  }

  /** Two distinct positions of the needle: the first has the rarest byte, the second the rarest among
      those that spell something else. */
  ghost predicate Rarest(needle: seq<Byte>, upto: nat, key: PairKey, rank: Byte -> nat)
    requires upto <= |needle|
  {
    && key.offset1 < upto && key.offset2 < upto && key.offset1 != key.offset2
    && key.byte1 == needle[key.offset1] && key.byte2 == needle[key.offset2]
    && (forall p :: 0 <= p < upto ==> rank(key.byte1) <= rank(needle[p]))
    && (forall p :: 0 <= p < upto && needle[p] != key.byte1 ==> rank(key.byte2) <= rank(needle[p]))
  }

  /** The selection, whatever the ranks are. */
  method ChoosePair(needle: seq<Byte>, rank: Byte -> nat) returns (key: PairKey)
    requires |needle| >= 2
    ensures Rarest(needle, |needle|, key, rank)
  {
    key := PairKey(0, needle[0], 1, needle[1]);
    var rank1, rank2 := rank(needle[0]), rank(needle[1]);
    if rank2 < rank1 {
      key := PairKey(1, needle[1], 0, needle[0]);
      rank1, rank2 := rank2, rank1;
    }
    var p := 2;
    while p < |needle|
      invariant 2 <= p <= |needle|
      invariant rank1 == rank(key.byte1) && rank2 == rank(key.byte2)
      invariant Rarest(needle, p, key, rank)
    {
      var b := needle[p];
      var here := rank(b);
      if here < rank1 {
        key, rank2 := PairKey(p, b, key.offset1, key.byte1), rank1;
        rank1 := here;
      } else if b != key.byte1 && here < rank2 {
        key := key.(offset2 := p, byte2 := b);
        rank2 := here;
      }
      p := p + 1;
    }
  }

  // ----- the needle search -----

  ghost predicate MatchAt(s: seq<Byte>, needle: seq<Byte>, i: nat) {
    i + |needle| <= |s| && s[i..i + |needle|] == needle
  }

  ghost predicate NoMatch(s: seq<Byte>, needle: seq<Byte>, from: nat, to: int) {
    forall i: nat :: from <= i < to ==> !MatchAt(s, needle, i)
  }

  const MIN_NEEDLE: nat := 2
  const MAX_NEEDLE: nat := 32
  const DENSE_AFTER: nat := 50
  const DENSE_SKIP: nat := 8

  function Max(a: int, b: int): int {
    if a < b then b else a
  }

  /** What an answer promises. Giving up at a position asks the caller to go on from there. */
  ghost predicate Answers(s: seq<Byte>, from: nat, needle: seq<Byte>, r: int) {
    if r >= 0 then r >= from && MatchAt(s, needle, r) && NoMatch(s, needle, from, r)
    else if r == -1 then NoMatch(s, needle, from, |s| + 1)
    else from < -2 - r <= |s| - |needle| + 1 && NoMatch(s, needle, from, -2 - r)
  }

  /** `str_find_needle`; `tries` is how many candidates were compared in full. */
  method FindNeedle(target: Target, s: seq<Byte>, from: int, needle: seq<Byte>) returns (r: int, tries: nat)
    ensures from < 0 || !(MIN_NEEDLE <= |needle| <= MAX_NEEDLE) ==> r == -1 && tries == 0
    ensures from >= 0 && MIN_NEEDLE <= |needle| <= MAX_NEEDLE ==> Answers(s, from, needle, r)
    ensures r <= -2 ==> tries >= DENSE_AFTER && (-2 - r - from - tries) < tries * DENSE_SKIP
    ensures tries <= Max(DENSE_AFTER, (|s| - |needle| - from) / (DENSE_SKIP + 1) + 1)
  {
    if from < 0 || |needle| < MIN_NEEDLE || |needle| > MAX_NEEDLE {
      return -1, 0;
    }
    if from > |s| - |needle| {
      return -1, 0;
    }
    r, tries := SearchFrom(target, s, from, needle);
  }

  method SearchFrom(target: Target, s: seq<Byte>, from: nat, needle: seq<Byte>) returns (r: int, tries: nat)
    requires |needle| >= MIN_NEEDLE && from <= |s| - |needle|
    ensures Answers(s, from, needle, r)
    ensures r <= -2 ==> tries >= DENSE_AFTER && (-2 - r - from - tries) < tries * DENSE_SKIP
    ensures tries <= Max(DENSE_AFTER, (|s| - |needle| - from) / (DENSE_SKIP + 1) + 1)
  {
    tries := 0;
    var last := |s| - |needle|;
    var key := ChoosePair(needle, Rank);
    var skipped, i := 0, from;
    ghost var bound := Max(DENSE_AFTER, (last - from) / (DENSE_SKIP + 1) + 1);
    while i <= last
      invariant from <= i <= last + 1 && skipped >= 0
      invariant i == from + skipped + tries
      invariant tries < DENSE_AFTER || skipped >= tries * DENSE_SKIP
      invariant NoMatch(s, needle, from, i)
      invariant tries <= bound
      decreases last - i
    {
      TriesBound(tries, skipped, last - from);
      var hit := PairScan(target, s, i, last, key);
      PairNeeded(s, needle, key, from, i, last, hit, Rank);
      if hit < 0 {
        return -1, tries;
      }
      tries := tries + 1;
      if s[hit..hit + |needle|] == needle {
        return hit, tries;
      }
      skipped := skipped + (hit - i);
      i := hit + 1;
      if tries >= DENSE_AFTER && skipped < tries * DENSE_SKIP {
        return -2 - i, tries;
      }
    }
    r := -1;
  }

  lemma TriesBound(tries: nat, skipped: nat, span: nat)
    requires tries < DENSE_AFTER || skipped >= tries * DENSE_SKIP
    requires skipped + tries <= span
    ensures tries + 1 <= Max(DENSE_AFTER, span / (DENSE_SKIP + 1) + 1)
  {
  }

  /** A match has the pair in place, so what the scan passes over holds none. */
  lemma PairNeeded(s: seq<Byte>, needle: seq<Byte>, key: PairKey, from: nat, i: nat, last: int, hit: int, rank: Byte -> nat)
    requires |needle| >= 2 && last == |s| - |needle| && from <= i <= last && Rarest(needle, |needle|, key, rank)
    requires NoMatch(s, needle, from, i) && ScansTo(s, i, last, key, hit)
    ensures NoMatch(s, needle, from, if hit == -1 then |s| + 1 else hit)
    ensures hit != -1 && s[hit..hit + |needle|] != needle ==> NoMatch(s, needle, from, hit + 1)
  {
    forall j: nat | i <= j <= last && MatchAt(s, needle, j) ensures PairAt(s, j, key) {
      assert s[j..j + |needle|][key.offset1] == needle[key.offset1];
      assert s[j..j + |needle|][key.offset2] == needle[key.offset2];
    }
  }
}
