/** The byte moves behind `insert`, `removeAt` and `swap`: element `k` of a list whose elements are
    `stride` bytes wide is bytes `k * stride` up to `(k + 1) * stride` of its block. */
module ListBytes {
  import opened Basics

  /** The block has room for `len` elements. */
  ghost predicate Room(bytes: seq<Byte>, len: nat, stride: nat) {
    len * stride <= |bytes|
  }

  /** The bytes of element `k`. */
  ghost function Elem(bytes: seq<Byte>, stride: nat, len: nat, k: nat): (r: seq<Byte>)
    requires Room(bytes, len, stride) && k < len
    ensures |r| == stride
  {
    MulMono(k + 1, len, stride);
    bytes[k * stride..k * stride + stride]
  }

  /** The elements, in order. */
  ghost function Elems(bytes: seq<Byte>, stride: nat, len: nat): (r: seq<seq<Byte>>)
    requires Room(bytes, len, stride)
    ensures |r| == len
  {
    seq(len, k requires 0 <= k < len => Elem(bytes, stride, len, k))
  }

  lemma SameSlice(a: seq<Byte>, b: seq<Byte>, at: nat, from: nat, w: nat)
    requires at + w <= |b| && from + w <= |a| && forall p :: at <= p < at + w ==> b[p] == a[p - at + from]
    ensures b[at..at + w] == a[from..from + w]
  {
    var x, y := b[at..at + w], a[from..from + w];
    forall i | 0 <= i < w ensures x[i] == y[i] {
      assert x[i] == b[at + i];
    }
  }

  /** `memmove` within one block. */
  method MemMove(bytes: array<Byte>, dst: nat, src: nat, n: nat)
    requires dst + n <= bytes.Length && src + n <= bytes.Length
    modifies bytes
    ensures forall p :: dst <= p < dst + n ==> bytes[p] == old(bytes[p - dst + src])
    ensures forall p :: 0 <= p < dst || dst + n <= p < bytes.Length ==> bytes[p] == old(bytes[p])
  {
    if dst <= src {
      var i := 0;
      while i < n
        invariant 0 <= i <= n
        invariant forall p :: dst <= p < dst + i ==> bytes[p] == old(bytes[p - dst + src])
        invariant forall p :: 0 <= p < dst || dst + i <= p < bytes.Length ==> bytes[p] == old(bytes[p])
      {
        bytes[dst + i] := bytes[src + i];
        i := i + 1;
      }
    } else {
      var i := n;
      while i > 0
        invariant 0 <= i <= n
        invariant forall p :: dst + i <= p < dst + n ==> bytes[p] == old(bytes[p - dst + src])
        invariant forall p :: 0 <= p < dst + i || dst + n <= p < bytes.Length ==> bytes[p] == old(bytes[p])
      {
        i := i - 1;
        bytes[dst + i] := bytes[src + i];
      }
    }
  }

  /** `memcpy` from outside the block. */
  method CopyIn(bytes: array<Byte>, dst: nat, from: seq<Byte>)
    requires dst + |from| <= bytes.Length
    modifies bytes
    ensures forall p :: dst <= p < dst + |from| ==> bytes[p] == from[p - dst]
    ensures forall p :: 0 <= p < dst || dst + |from| <= p < bytes.Length ==> bytes[p] == old(bytes[p])
  {
    var i := 0;
    while i < |from|
      invariant i <= |from|
      invariant forall p :: dst <= p < dst + i ==> bytes[p] == from[p - dst]
      invariant forall p :: 0 <= p < dst || dst + i <= p < bytes.Length ==> bytes[p] == old(bytes[p])
    {
      bytes[dst + i] := from[i];
      i := i + 1;
    }
  }

  /** Byte offsets: `lo` and `hi` are where the moved range starts and ends, `w` an element's width. */
  ghost predicate Rotated(a: seq<Byte>, b: seq<Byte>, lo: nat, hi: nat, w: nat) {
    && |a| == |b| && lo + w <= hi <= |a|
    && (forall p :: 0 <= p < lo || hi <= p < |a| ==> b[p] == a[p])
    && (forall p :: lo <= p < lo + w ==> b[p] == a[p + (hi - w - lo)])
    && (forall p :: lo + w <= p < hi ==> b[p] == a[p - w])
  }

  /** `list_move_last`: with the new element pushed at the end, this is sequence insertion. */
  method MoveLast(bytes: array<Byte>, len: nat, index: nat, stride: nat)
    requires Room(bytes[..], len, stride) && len > 0
    modifies bytes
    ensures var was := old(Elems(bytes[..], stride, len));
            Room(bytes[..], len, stride) && Elems(bytes[..], stride, len)
              == if index >= len then was else was[..index] + [was[len - 1]] + was[index..len - 1]
    ensures len * stride <= bytes.Length && bytes[len * stride..] == old(bytes[len * stride..])
  {
    if index >= len - 1 {
      ghost var was := Elems(bytes[..], stride, len);
      assert index == len - 1 ==> was == was[..index] + [was[len - 1]] + was[index..len - 1];
      return;
    }
    Products(index, len, stride);
    Rotate(bytes, index * stride, len * stride, stride);
    RotatedElems(old(bytes[..]), bytes[..], len, index, stride);
  }

  lemma Products(index: nat, len: nat, stride: nat)
    requires index < len
    ensures index * stride + stride <= len * stride && (len - 1) * stride == len * stride - stride
    ensures (index + 1) * stride == index * stride + stride
    ensures (len - 1 - index) * stride == len * stride - stride - index * stride
  {
  }

  /** The three copies of `list_move_last`. */
  method Rotate(bytes: array<Byte>, lo: nat, hi: nat, w: nat)
    requires lo + w <= hi <= bytes.Length
    modifies bytes
    ensures Rotated(old(bytes[..]), bytes[..], lo, hi, w)
  {
    ghost var a := bytes[..];
    var held := bytes[hi - w..hi];
    MemMove(bytes, lo + w, lo, hi - w - lo);
    ghost var m := bytes[..];
    CopyIn(bytes, lo, held);
    TwoCopies(a, m, bytes[..], lo, hi, w, held);
  }

  lemma TwoCopies(a: seq<Byte>, m: seq<Byte>, b: seq<Byte>, lo: nat, hi: nat, w: nat, held: seq<Byte>)
    requires |a| == |m| == |b| && lo + w <= hi <= |a| && held == a[hi - w..hi]
    requires forall p :: lo + w <= p < hi ==> m[p] == a[p - w]
    requires forall p :: 0 <= p < lo + w || hi <= p < |a| ==> m[p] == a[p]
    requires forall p :: lo <= p < lo + w ==> b[p] == held[p - lo]
    requires forall p :: 0 <= p < lo || lo + w <= p < |a| ==> b[p] == m[p]
    ensures Rotated(a, b, lo, hi, w)
  {
  }

  lemma RotatedElems(a: seq<Byte>, b: seq<Byte>, len: nat, index: nat, stride: nat)
    requires Room(a, len, stride) && index < len - 1 && Rotated(a, b, index * stride, len * stride, stride)
    ensures Elems(b, stride, len) == Elems(a, stride, len)[..index] + [Elems(a, stride, len)[len - 1]] + Elems(a, stride, len)[index..len - 1]
  {
    var x, y := Elems(a, stride, len), Elems(b, stride, len);
    forall k: nat | k < len ensures y[k] == (x[..index] + [x[len - 1]] + x[index..len - 1])[k] {
      RotatedElem(a, b, len, index, stride, k);
    }
  }

  lemma RotatedElem(a: seq<Byte>, b: seq<Byte>, len: nat, index: nat, stride: nat, k: nat)
    requires Room(a, len, stride) && index < len - 1 && k < len && Rotated(a, b, index * stride, len * stride, stride)
    ensures Elem(b, stride, len, k) == Elem(a, stride, len, if k < index then k else if k == index then len - 1 else k - 1)
  {
    Products(index, len, stride);
    Products(k, len, stride);
    var at := k * stride;
    if k < index {
      Products(k, index, stride);
      SameSlice(a, b, at, at, stride);
    } else if k == index {
      SameSlice(a, b, at, len * stride - stride, stride);
    } else {
      Products(index, k, stride);
      assert (k - 1) * stride == at - stride;
      SameSlice(a, b, at, at - stride, stride);
    }
  }

  /** The shift of `list_remove_at`: sequence removal. */
  method CloseGap(bytes: array<Byte>, len: nat, index: nat, stride: nat)
    requires Room(bytes[..], len, stride) && index < len
    modifies bytes
    ensures var was := old(Elems(bytes[..], stride, len));
            Room(bytes[..], len - 1, stride) && Elems(bytes[..], stride, len - 1) == was[..index] + was[index + 1..]
  {
    Products(index, len, stride);
    ghost var a := bytes[..];
    var lo, hi := index * stride, len * stride;
    MemMove(bytes, lo, lo + stride, hi - lo - stride);
    ClosedElems(a, bytes[..], len, index, stride, lo, hi);
  }

  /** The bytes from `lo + w` to `hi` have moved down by `w`. */
  ghost predicate Closed(a: seq<Byte>, b: seq<Byte>, lo: nat, hi: nat, w: nat) {
    && |a| == |b| && lo + w <= hi <= |a|
    && (forall p :: 0 <= p < lo ==> b[p] == a[p])
    && (forall p :: lo <= p < hi - w ==> b[p] == a[p + w])
  }

  lemma ClosedElems(a: seq<Byte>, b: seq<Byte>, len: nat, index: nat, stride: nat, lo: nat, hi: nat)
    requires Room(a, len, stride) && index < len && Room(b, len - 1, stride)
    requires lo == index * stride && hi == len * stride && Closed(a, b, lo, hi, stride)
    ensures Elems(b, stride, len - 1) == Elems(a, stride, len)[..index] + Elems(a, stride, len)[index + 1..]
  {
    var x, y := Elems(a, stride, len), Elems(b, stride, len - 1);
    forall k: nat | k < len - 1 ensures y[k] == (x[..index] + x[index + 1..])[k] {
      ClosedElem(a, b, len, index, stride, lo, hi, k);
    }
  }

  lemma ClosedElem(a: seq<Byte>, b: seq<Byte>, len: nat, index: nat, stride: nat, lo: nat, hi: nat, k: nat)
    requires Room(a, len, stride) && index < len && Room(b, len - 1, stride) && k < len - 1
    requires lo == index * stride && hi == len * stride && Closed(a, b, lo, hi, stride)
    ensures Elem(b, stride, len - 1, k) == Elem(a, stride, len, if k < index then k else k + 1)
  {
    Products(k, len, stride);
    Products(k + 1, len, stride);
    var at := k * stride;
    if k < index {
      Products(k, index, stride);
      assert b[at..at + stride] == a[at..at + stride];
    } else {
      MulMono(index, k, stride);
      assert b[at..at + stride] == a[at + stride..at + stride + stride];
    }
  }

  // ----- exchanging two elements -----

  /** Where the byte at `p` comes from when the `n` bytes at `x` and at `y` change places. */
  function Partner(x: nat, y: nat, n: nat, p: nat): int {
    if x <= p < x + n then p - x + y else if y <= p < y + n then p - y + x else p
  }

  ghost predicate SwappedAt(a: seq<Byte>, b: seq<Byte>, x: nat, y: nat, n: nat, p: nat)
    requires p < |a| == |b| && x + n <= |a| && y + n <= |a|
  {
    b[p] == a[Partner(x, y, n, p)]
  }

  /** The `n` bytes at `x` and at `y` have changed places. */
  ghost predicate Swapped(a: seq<Byte>, b: seq<Byte>, x: nat, y: nat, n: nat) {
    && |a| == |b| && x + n <= |a| && y + n <= |a|
    && (forall p: nat {:trigger SwappedAt(a, b, x, y, n, p)} :: p < |a| ==> SwappedAt(a, b, x, y, n, p))
  }

  /** Two elements are in one place or do not touch. */
  predicate Separate(x: nat, y: nat, n: nat) {
    x == y || x + n <= y || y + n <= x
  }

  /** Three copies through a temporary of `n` bytes. */
  method Exchange(bytes: array<Byte>, x: nat, y: nat, n: nat)
    requires x + n <= bytes.Length && y + n <= bytes.Length && Separate(x, y, n)
    modifies bytes
    ensures Swapped(old(bytes[..]), bytes[..], x, y, n)
  {
    var t := bytes[x..x + n];
    ghost var a := bytes[..];
    MemMove(bytes, x, y, n);
    CopyIn(bytes, y, t);
    ghost var b := bytes[..];
    forall p: nat | p < |a| ensures SwappedAt(a, b, x, y, n, p) {
      assert b[p] == bytes[p];
    }
  }

  lemma SwappedNone(a: seq<Byte>, x: nat, y: nat)
    requires x <= |a| && y <= |a|
    ensures Swapped(a, a, x, y, 0)
  {
  }

  lemma SwappedMore(a: seq<Byte>, b: seq<Byte>, c: seq<Byte>, x: nat, y: nat, k: nat, n: nat)
    requires Swapped(a, b, x, y, k) && Swapped(b, c, x + k, y + k, n) && Separate(x, y, k + n)
    ensures Swapped(a, c, x, y, k + n)
  {
    var all := k + n;
    forall p: nat | p < |a| ensures SwappedAt(a, c, x, y, all, p) {
      assert SwappedAt(b, c, x + k, y + k, n, p);
      assert SwappedAt(a, b, x, y, k, Partner(x + k, y + k, n, p));
    }
  }

  /** The exchange of `list_swap`: one copy each way for the widths sorts meet most, else words and
      then bytes. */
  method SwapBytes(bytes: array<Byte>, x: nat, y: nat, size: nat)
    requires x + size <= bytes.Length && y + size <= bytes.Length && Separate(x, y, size)
    modifies bytes
    ensures Swapped(old(bytes[..]), bytes[..], x, y, size)
  {
    if size == 4 || size == 8 || size == 16 {
      Exchange(bytes, x, y, size);
      return;
    }
    ghost var a := bytes[..];
    var k := SwapPieces(bytes, x, y, size, 0, 8);
    ghost var b := bytes[..];
    var _ := SwapPieces(bytes, x, y, size, k, 1);
    SwappedMore(a, b, bytes[..], x, y, k, size - k);
  }

  /** Exchanges pieces of `w` bytes while a whole one is left; `done` bytes were exchanged before. */
  method SwapPieces(bytes: array<Byte>, x: nat, y: nat, size: nat, done: nat, w: nat) returns (k: nat)
    requires x + size <= bytes.Length && y + size <= bytes.Length && Separate(x, y, size) && done <= size && w > 0
    modifies bytes
    ensures done <= k <= size < k + w && Swapped(old(bytes[..]), bytes[..], x + done, y + done, k - done)
  {
    k := done;
    ghost var a := bytes[..];
    SwappedNone(a, x + done, y + done);
    while size - k >= w
      invariant done <= k <= size
      invariant Swapped(a, bytes[..], x + done, y + done, k - done)
    {
      ghost var b := bytes[..];
      Exchange(bytes, x + k, y + k, w);
      SwappedMore(a, b, bytes[..], x + done, y + done, k - done, w);
      k := k + w;
    }
  }

  /** `list_swap`, for every width: two elements change places, or a bad index stops the program. */
  method Swap(bytes: array<Byte>, len: nat, stride: nat, i: int, j: int) returns (ok: bool)
    requires Room(bytes[..], len, stride)
    modifies bytes
    ensures ok <==> 0 <= i < len && 0 <= j < len
    ensures !ok ==> bytes[..] == old(bytes[..])
    ensures var was := old(Elems(bytes[..], stride, len));
            ok ==> Room(bytes[..], len, stride) && Elems(bytes[..], stride, len) == was[i := was[j]][j := was[i]]
  {
    if i < 0 || i >= len || j < 0 || j >= len {
      return false;
    }
    Products(i, len, stride);
    Products(j, len, stride);
    ElementsApart(i, j, stride);
    SwapBytes(bytes, i * stride, j * stride, stride);
    SwappedElems(old(bytes[..]), bytes[..], len, i, j, stride);
    ok := true;
  }

  lemma ElementsApart(i: nat, j: nat, stride: nat)
    ensures Separate(i * stride, j * stride, stride)
  {
    if i < j {
      MulMono(i + 1, j, stride);
    } else if j < i {
      MulMono(j + 1, i, stride);
    }
  }

  lemma SwappedElems(a: seq<Byte>, b: seq<Byte>, len: nat, i: nat, j: nat, stride: nat)
    requires Room(a, len, stride) && i < len && j < len && Swapped(a, b, i * stride, j * stride, stride)
    ensures Elems(b, stride, len) == Elems(a, stride, len)[i := Elems(a, stride, len)[j]][j := Elems(a, stride, len)[i]]
  {
    var x, y := Elems(a, stride, len), Elems(b, stride, len);
    forall k: nat | k < len ensures y[k] == x[i := x[j]][j := x[i]][k] {
      SwappedElem(a, b, len, i, j, stride, k);
    }
  }

  lemma SwappedElem(a: seq<Byte>, b: seq<Byte>, len: nat, i: nat, j: nat, stride: nat, k: nat)
    requires Room(a, len, stride) && i < len && j < len && k < len && Swapped(a, b, i * stride, j * stride, stride)
    ensures Elem(b, stride, len, k) == Elem(a, stride, len, if k == j then i else if k == i then j else k)
  {
    Products(i, len, stride);
    Products(j, len, stride);
    Products(k, len, stride);
    ElementsApart(i, j, stride);
    var x, y, at := i * stride, j * stride, k * stride;
    if k == j {
      SwappedSlice(a, b, x, y, stride, at, x);
    } else if k == i {
      SwappedSlice(a, b, x, y, stride, at, y);
    } else {
      ElementsOff(i, k, stride);
      ElementsOff(j, k, stride);
      SwappedSlice(a, b, x, y, stride, at, at);
    }
  }

  lemma SwappedSlice(a: seq<Byte>, b: seq<Byte>, x: nat, y: nat, n: nat, at: nat, from: nat)
    requires Swapped(a, b, x, y, n) && at + n <= |a| && Separate(x, y, n)
    requires || (at == y && from == x)
             || (at == x && from == y)
             || (from == at && (at + n <= x || x + n <= at) && (at + n <= y || y + n <= at))
    ensures b[at..at + n] == a[from..from + n]
  {
    forall p | at <= p < at + n ensures b[p] == a[p - at + from] {
      assert SwappedAt(a, b, x, y, n, p);
    }
    SameSlice(a, b, at, from, n);
  }

  lemma ElementsOff(i: nat, k: nat, stride: nat)
    requires i != k
    ensures i * stride + stride <= k * stride || k * stride + stride <= i * stride
  {
    if i < k {
      MulMono(i + 1, k, stride);
    } else {
      MulMono(k + 1, i, stride);
    }
  }
}
