/** Index arithmetic of the landmark table: which slot covers which
    position when every `size`-th node is recorded. */
module Stride {

  /** The first slot whose landmark sits at or after position `pos`: the
      list's `(pos % _size ? 1 : 0) + pos / _size`, i.e. the ceiling of
      `pos / size`. */
  function FirstSlotFrom(pos: nat, size: nat): nat
    requires size > 0
  {
    pos / size + (if pos % size != 0 then 1 else 0)
  }

  /** Division is determined by any quotient/remainder pair. */
  lemma DivModUnique(x: int, size: int, q: int, r: int)
    requires size > 0 && 0 <= r < size && x == q * size + r
    ensures x / size == q && x % size == r
  {
    var q', r' := x / size, x % size;
    assert x == q' * size + r';
    if q' > q {
      MulMono(q + 1, q', size);
      assert false;
    } else if q' < q {
      MulMono(q' + 1, q, size);
      assert false;
    }
  }

  lemma MulMono(a: int, b: int, size: int)
    requires a <= b && size >= 0
    ensures a * size <= b * size
  {
    assert b * size - a * size == (b - a) * size;
  }

  /** Interior slots of a table for `n` nodes lie before the tail. */
  lemma SlotBound(n: int, size: int, i: int)
    requires n >= 2 && size > 0 && 0 <= i <= (n - 2) / size
    ensures i * size <= n - 2
  {
    MulMono(i, (n - 2) / size, size);
  }

  /** Going from `n` to `n + 1` nodes adds a table entry exactly when the
      new interior position `n - 1` is a multiple of the stride; the new
      entry then sits at `n - 1`. */
  lemma StepCount(n: int, size: int)
    requires n >= 2 && size > 0
    ensures (n - 1) / size == (n - 2) / size + (if (n - 1) % size == 0 then 1 else 0)
    ensures (n - 1) % size == 0 ==> ((n - 2) / size + 1) * size == n - 1
  {
    var q, r := (n - 2) / size, (n - 2) % size;
    if r + 1 < size {
      DivModUnique(n - 1, size, q, r + 1);
    } else {
      DivModUnique(n - 1, size, q + 1, 0);
    }
  }

  /** Slot `i` covers a position at or after `pos` exactly when `i` is at
      least the first slot from `pos`. */
  lemma FirstSlotSplit(pos: nat, size: nat, i: nat)
    requires size > 0
    ensures i >= FirstSlotFrom(pos, size) <==> i * size >= pos
  {
    SlotSplit(pos, size, pos / size, pos % size, i);
  }

  /** `FirstSlotSplit` for `pos = q * size + r` with `0 <= r < size`. */
  lemma SlotSplit(pos: int, size: int, q: int, r: int, i: int)
    requires size > 0 && 0 <= r < size && pos == q * size + r
    ensures i >= q + (if r != 0 then 1 else 0) <==> i * size >= pos
  {
    assert (q + 1) * size == q * size + size;
    if i >= q + (if r != 0 then 1 else 0) {
      if r == 0 {
        MulMono(q, i, size);
      } else {
        MulMono(q + 1, i, size);
      }
    } else {
      if r == 0 {
        MulMono(i + 1, q, size);
        assert (i + 1) * size == i * size + size;
      } else {
        MulMono(i, q, size);
      }
    }
  }

  /** The slot `at(pos)` starts from: either an interior landmark at or
      before `pos`, or the tail slot, which then sits at `pos` itself. */
  lemma AtSlot(n: nat, size: nat, pos: nat)
    requires n >= 2 && size > 0 && pos < n
    ensures pos / size <= (n - 2) / size + 1
    ensures (pos / size) * size + pos % size == pos
    ensures pos / size == (n - 2) / size + 1 ==> pos == n - 1 && pos % size == 0
  {
    var q, k := pos / size, (n - 2) / size;
    if q > k + 1 {
      MulMono(k + 2, q, size);
      assert false;
    }
    if q == k + 1 {
      assert (k + 1) * size == k * size + size;
      assert pos >= n - 1;
    }
  }

  /** The multiples of `size` from `p` (itself a multiple) up to but not
      including `n`, in order: the positions the walk of `resize` records. */
  function Multiples(p: nat, n: nat, size: nat): (r: seq<nat>)
    requires size > 0
    ensures forall k :: 0 <= k < |r| ==> p <= r[k] < n
    decreases if p < n then n - p else 0
  {
    if p >= n then [] else [p] + Multiples(p + size, n, size)
  }

  /** When `p` is the first multiple of `size` at or after `i`, `i` is
      itself a multiple exactly when it equals `p`, and `p + size` is the
      next multiple. */
  lemma AtMultiple(i: nat, p: nat, size: nat)
    requires size > 0 && i <= p < i + size && p % size == 0
    ensures i % size == 0 <==> i == p
    ensures (p + size) % size == 0
  {
    var q := p / size;
    DivModUnique(p + size, size, q + 1, 0);
    if i != p && i % size == 0 {
      var j := i / size;
      if j < q {
        MulMono(j + 1, q, size);
      } else {
        MulMono(q, j, size);
      }
      assert false;
    }
  }

  /** The multiples from `p` are empty exactly when `p` is already past
      `n`; otherwise the last one is within `size` of `n`. */
  lemma {:induction false} MultiplesEnds(p: nat, n: nat, size: nat)
    requires size > 0
    ensures var m := Multiples(p, n, size);
      && (|m| == 0 <==> p >= n)
      && (|m| > 0 ==> m[|m| - 1] + size >= n)
    decreases if p < n then n - p else 0
  {
    if p < n {
      MultiplesEnds(p + size, n, size);
    }
  }

  /** The `k`-th multiple from `p` is `p + k * size`. */
  lemma {:induction false} MultiplesNth(p: nat, n: nat, size: nat, k: nat)
    requires size > 0 && k < |Multiples(p, n, size)|
    ensures Multiples(p, n, size)[k] == p + k * size
    decreases k
  {
    if k > 0 {
      MultiplesNth(p + size, n, size, k - 1);
      assert (k - 1) * size + size == k * size;
    }
  }

  /** The multiples of `size` below `n - 1`, for `n >= 2`: one per
      interior slot of the landmark table, slot `k` at `k * size`. */
  lemma MultiplesBelowTail(n: nat, size: nat)
    requires n >= 2 && size > 0
    ensures var m := Multiples(0, n - 1, size);
      && |m| == (n - 2) / size + 1
      && forall k :: 0 <= k < |m| ==> m[k] == k * size
  {
    var m := Multiples(0, n - 1, size);
    MultiplesEnds(0, n - 1, size);
    forall k | 0 <= k < |m|
      ensures m[k] == k * size
    {
      MultiplesNth(0, n - 1, size, k);
    }
    var last := |m| - 1;
    assert last * size <= n - 2 < last * size + size;
    DivModUnique(n - 2, size, last, n - 2 - last * size);
  }
}
