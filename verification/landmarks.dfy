/** The landmark table `_refs`: head first, tail last, and in between the
    node at every `size`-th position. This module states the invariant and
    the table patches the list's mutations share. */
module LandmarkTable {
  import opened Wrappers
  import opened Chain
  import opened Stride

  /** Number of table entries for a list of `n` nodes. */
  function TableLength(n: nat, size: nat): nat
    requires size > 0
  {
    if n < 2 then 2 else 2 + (n - 2) / size
  }

  /** The landmark invariant: `[null, null]` for the empty list,
      `[head, head]` for one node, and otherwise one entry per interior
      multiple of `size` (head included) followed by the tail. */
  predicate IsLandmarkTable(order: seq<Id>, refs: seq<Option<Id>>, size: nat)
    requires size > 0
  {
    var n := |order|;
    if n == 0 then refs == [None, None]
    else if n == 1 then refs == [Some(order[0]), Some(order[0])]
    else
      && |refs| == TableLength(n, size)
      && refs[|refs| - 1] == Some(order[n - 1])
      && forall i :: 0 <= i < |refs| - 1 ==> i * size <= n - 2 && refs[i] == Some(order[i * size])
  }

  /** `ref->prev`, or null. */
  function PrevOf(nodes: map<Id, Node>, ref: Option<Id>): Option<Id> {
    if ref.Some? && ref.value in nodes then nodes[ref.value].prev else None
  }

  /** `ref->next`, or null. */
  function NextOf(nodes: map<Id, Node>, ref: Option<Id>): Option<Id> {
    if ref.Some? && ref.value in nodes then nodes[ref.value].next else None
  }

  /** `refs[i] = refs[i]->prev` for every `from <= i < to`. */
  function ShiftBack(nodes: map<Id, Node>, refs: seq<Option<Id>>, from: nat, to: nat): (r: seq<Option<Id>>)
    ensures |r| == |refs|
  {
    seq(|refs|, i requires 0 <= i < |refs| => if from <= i < to then PrevOf(nodes, refs[i]) else refs[i])
  }

  /** `refs[i] = refs[i]->next` for every `from <= i < to`. */
  function ShiftForward(nodes: map<Id, Node>, refs: seq<Option<Id>>, from: nat, to: nat): (r: seq<Option<Id>>)
    ensures |r| == |refs|
  {
    seq(|refs|, i requires 0 <= i < |refs| => if from <= i < to then NextOf(nodes, refs[i]) else refs[i])
  }

  /** The growth step after an insertion before the tail, for the new
      length `len`: when a sampling boundary is crossed, the tail slot
      steps back onto the new landmark and the tail is appended. */
  function GrowTail(nodes: map<Id, Node>, refs: seq<Option<Id>>, len: nat, size: nat): seq<Option<Id>>
    requires |refs| >= 1 && size > 0
  {
    if len > 2 && (len - 2) % size == 0 then
      var t := PrevOf(nodes, refs[|refs| - 1]);
      refs[|refs| - 1 := t] + [NextOf(nodes, t)]
    else refs
  }

  /** The shrink step after a removal, for the new length `len`: drop
      the last slot when `(len - 1) % size == 0`. */
  function ShrinkTail(refs: seq<Option<Id>>, len: nat, size: nat): seq<Option<Id>>
    requires |refs| >= 1 && len >= 1 && size > 0
  {
    if (len - 1) % size == 0 then refs[..|refs| - 1] else refs
  }

  /** The walk of `resize`: starting at position `i` (node `cur`), record
      every node whose position is a multiple of `size` while a successor
      exists, then the last node reached. */
  function Rebuild(nodes: map<Id, Node>, order: seq<Id>, cur: Id, i: nat, size: nat): (r: seq<Option<Id>>)
    requires size > 0 && IsChain(nodes, order) && i < |order| && cur == order[i]
    decreases |order| - i
  {
    if nodes[cur].next.None? then
      [Some(cur)]
    else
      assert i < |order| - 1;
      (if i % size == 0 then [Some(cur)] else [])
        + Rebuild(nodes, order, nodes[cur].next.value, i + 1, size)
  }

  /** The nodes at the given positions. */
  function NodesAt(order: seq<Id>, positions: seq<nat>): (r: seq<Option<Id>>)
    requires forall k :: 0 <= k < |positions| ==> positions[k] < |order|
    ensures |r| == |positions|
    ensures forall k :: 0 <= k < |r| ==> r[k] == Some(order[positions[k]])
  {
    seq(|positions|, k requires 0 <= k < |positions| => Some(order[positions[k]]))
  }

  /** The walk of `resize` from position `i`, where `p` is the first
      multiple of `size` at or after `i`, records the nodes at the
      multiples from `p` below `n - 1` and then the tail. */
  lemma {:induction false} RebuildSlots(nodes: map<Id, Node>, order: seq<Id>, i: nat, p: nat, size: nat)
    requires size > 0 && IsChain(nodes, order) && i < |order|
    requires i <= p < i + size && p % size == 0
    ensures Rebuild(nodes, order, order[i], i, size)
              == NodesAt(order, Multiples(p, |order| - 1, size)) + [Some(order[|order| - 1])]
    decreases |order| - i
  {
    if i < |order| - 1 {
      assert nodes[order[i]].next == Some(order[i + 1]);
      var tail := Rebuild(nodes, order, order[i + 1], i + 1, size);
      AtMultiple(i, p, size);
      if i == p {
        assert Rebuild(nodes, order, order[i], i, size) == [Some(order[i])] + tail;
        RebuildSlots(nodes, order, i + 1, p + size, size);
        var rest := Multiples(p + size, |order| - 1, size);
        assert Multiples(p, |order| - 1, size) == [p] + rest;
        assert NodesAt(order, [p] + rest) == [Some(order[p])] + NodesAt(order, rest);
      } else {
        assert Rebuild(nodes, order, order[i], i, size) == tail;
        RebuildSlots(nodes, order, i + 1, p, size);
      }
    } else {
      assert Multiples(p, |order| - 1, size) == [];
    }
  }

  /** Without a second node the walk of `resize` leaves a single entry. */
  lemma RebuildSingle(nodes: map<Id, Node>, order: seq<Id>, size: nat)
    requires size > 0 && IsChain(nodes, order) && |order| == 1
    ensures Rebuild(nodes, order, order[0], 0, size) == [Some(order[0])]
  {
  }

  /** From two nodes on, the walk of `resize` produces the landmark table. */
  lemma RebuildTable(nodes: map<Id, Node>, order: seq<Id>, size: nat)
    requires size > 0 && IsChain(nodes, order) && |order| >= 2
    ensures IsLandmarkTable(order, Rebuild(nodes, order, order[0], 0, size), size)
  {
    var n := |order|;
    var r := Rebuild(nodes, order, order[0], 0, size);
    var m := Multiples(0, n - 1, size);
    RebuildSlots(nodes, order, 0, 0, size);
    MultiplesBelowTail(n, size);
    assert |r| == |m| + 1 == TableLength(n, size);
    forall i | 0 <= i < |r| - 1
      ensures i * size <= n - 2 && r[i] == Some(order[i * size])
    {
      assert r[i] == Some(order[m[i]]);
    }
  }

  /** What every valid table provides: its length, its tail slot, and the
      landmark at each slot before the tail. */
  lemma TableShape(order: seq<Id>, refs: seq<Option<Id>>, size: nat)
    requires size > 0 && IsLandmarkTable(order, refs, size)
    ensures |refs| == TableLength(|order|, size) >= 2
    ensures |order| == 0 <==> refs[0] == None
    ensures |order| > 0 ==> refs[0] == Some(order[0]) && refs[|refs| - 1] == Some(order[|order| - 1])
    ensures |order| > 0 ==> forall i :: 0 <= i < |refs| - 1 ==>
              i * size < |order| && refs[i] == Some(order[i * size])
  {
    if |order| >= 2 {
      assert refs[0] == Some(order[0 * size]);
    }
  }

  /** Re-establishes the table after a node was added before the tail and
      the slots were shifted: `refs` still has the length of the table for
      one node fewer, already names the right node in every slot before
      the tail, and ends with the tail. */
  lemma GrowAfterShift(nodes: map<Id, Node>, order: seq<Id>, refs: seq<Option<Id>>, size: nat)
    requires size > 0 && IsChain(nodes, order) && |order| >= 2
    requires |refs| == TableLength(|order| - 1, size)
    requires forall i :: 0 <= i < |refs| - 1 ==> i * size <= |order| - 2 && refs[i] == Some(order[i * size])
    requires refs[|refs| - 1] == Some(order[|order| - 1])
    ensures IsLandmarkTable(order, GrowTail(nodes, refs, |order|, size), size)
  {
    var m := |order|;
    if m > 2 {
      StepCount(m - 1, size);
      if (m - 2) % size == 0 {
        GrowAtBoundary(nodes, order, refs, size);
      } else {
        assert GrowTail(nodes, refs, m, size) == refs;
      }
    }
  }

  /** The growing case of `GrowAfterShift`. */
  lemma GrowAtBoundary(nodes: map<Id, Node>, order: seq<Id>, refs: seq<Option<Id>>, size: nat)
    requires size > 0 && IsChain(nodes, order) && |order| > 2 && (|order| - 2) % size == 0
    requires |refs| == TableLength(|order| - 1, size)
    requires forall i :: 0 <= i < |refs| - 1 ==> i * size <= |order| - 2 && refs[i] == Some(order[i * size])
    requires refs[|refs| - 1] == Some(order[|order| - 1])
    ensures IsLandmarkTable(order, GrowTail(nodes, refs, |order|, size), size)
  {
    var m := |order|;
    StepCount(m - 1, size);
    var j := |refs| - 1;
    assert j == (m - 3) / size + 1;
    assert j * size == m - 2;
    var t := Some(order[m - 2]);
    assert PrevOf(nodes, refs[j]) == t;
    assert NextOf(nodes, t) == Some(order[m - 1]);
    var r := refs[j := t] + [Some(order[m - 1])];
    assert GrowTail(nodes, refs, m, size) == r;
    assert |r| == TableLength(m, size);
    forall i | 0 <= i < |r| - 1
      ensures i * size <= m - 2 && r[i] == Some(order[i * size])
    {
      if i < j {
        assert r[i] == refs[i];
      } else {
        assert i == j;
      }
    }
  }

  /** Re-establishes the table after a node was removed, from at least
      three nodes, and the slots were shifted: `refs` still has the length
      of the table for one node more, names the right node in every slot
      before the tail, and ends with the tail. */
  lemma ShrinkAfterShift(order: seq<Id>, refs: seq<Option<Id>>, size: nat)
    requires size > 0 && |order| >= 2
    requires |refs| == TableLength(|order| + 1, size)
    requires forall i :: 0 <= i < |refs| - 1 ==> i * size <= |order| - 1 && refs[i] == Some(order[i * size])
    requires refs[|refs| - 1] == Some(order[|order| - 1])
    ensures IsLandmarkTable(order, ShrinkTail(refs, |order|, size), size)
  {
    var n := |order|;
    var r := ShrinkTail(refs, n, size);
    StepCount(n, size);
    if (n - 1) % size == 0 {
      var j := |refs| - 2;
      assert j == (n - 2) / size + 1;
      assert j * size == n - 1;
      forall i | 0 <= i < |r| - 1
        ensures i * size <= n - 2 && r[i] == Some(order[i * size])
      {
        SlotBound(n, size, i);
      }
    } else {
      forall i | 0 <= i < |r| - 1
        ensures i * size <= n - 2 && r[i] == Some(order[i * size])
      {
        SlotBound(n, size, i);
      }
    }
  }

  /** The table patch of `push_tail` onto a non-empty list, for the new
      length `len`: on a sampling boundary the old tail stays as a landmark
      and the new node is appended, otherwise the new node replaces the
      tail slot. */
  function TailSlot(refs: seq<Option<Id>>, len: nat, size: nat, id: Id): seq<Option<Id>>
    requires |refs| >= 1 && size > 0
  {
    if len > 2 && (len - 2) % size == 0 then refs + [Some(id)] else refs[|refs| - 1 := Some(id)]
  }

  /** `push_tail` onto a non-empty list keeps the landmark table. */
  lemma TailSlotTable(order: seq<Id>, refs: seq<Option<Id>>, size: nat, id: Id)
    requires size > 0 && |order| >= 1 && |refs| >= 1
    ensures IsLandmarkTable(order, refs, size) ==>
              IsLandmarkTable(order + [id], TailSlot(refs, |order| + 1, size, id), size)
  {
    var n := |order|;
    if !IsLandmarkTable(order, refs, size) {
    } else if n == 1 {
      assert TailSlot(refs, 2, size, id) == [Some(order[0]), Some(id)];
    } else if (n - 1) % size == 0 {
      TailSlotGrow(order, refs, size, id);
    } else {
      TailSlotReplace(order, refs, size, id);
    }
  }

  lemma TailSlotGrow(order: seq<Id>, refs: seq<Option<Id>>, size: nat, id: Id)
    requires size > 0 && |order| >= 2 && IsLandmarkTable(order, refs, size) && (|order| - 1) % size == 0
    ensures IsLandmarkTable(order + [id], refs + [Some(id)], size)
  {
    var n := |order|;
    var o := order + [id];
    var r := refs + [Some(id)];
    StepCount(n, size);
    assert |r| == TableLength(n + 1, size);
    forall i | 0 <= i < |r| - 1
      ensures i * size <= n - 1 && r[i] == Some(o[i * size])
    {
      if i < |refs| - 1 {
        assert r[i] == refs[i] == Some(order[i * size]);
      } else {
        assert i == (n - 2) / size + 1;
      }
    }
  }

  lemma TailSlotReplace(order: seq<Id>, refs: seq<Option<Id>>, size: nat, id: Id)
    requires size > 0 && |order| >= 2 && IsLandmarkTable(order, refs, size) && (|order| - 1) % size != 0
    ensures IsLandmarkTable(order + [id], refs[|refs| - 1 := Some(id)], size)
  {
    var n := |order|;
    var o := order + [id];
    var r := refs[|refs| - 1 := Some(id)];
    StepCount(n, size);
    assert |r| == TableLength(n + 1, size);
    forall i | 0 <= i < |r| - 1
      ensures i * size <= n - 1 && r[i] == Some(o[i * size])
    {
      assert r[i] == refs[i] == Some(order[i * size]);
    }
  }

  /** `insert` before position `pos` of a non-empty list, and `push_head`
      (`pos == 0`), keep the table: every landmark from the first slot at or
      after `pos` steps back onto the node now at its position, then the
      growth step runs. */
  lemma InsertTable(nodes: map<Id, Node>, order: seq<Id>, o: seq<Id>, refs: seq<Option<Id>>, size: nat, pos: nat, from: nat, id: Id)
    requires size > 0 && IsLandmarkTable(order, refs, size) && pos < |order|
    requires IsChain(nodes, o) && InsertedAt(o, order, pos, id)
    requires from == FirstSlotFrom(pos, size)
    ensures |refs| >= 1
    ensures IsLandmarkTable(o, GrowTail(nodes, ShiftBack(nodes, refs, from, |refs| - 1), |o|, size), size)
  {
    var n := |order|;
    TableShape(order, refs, size);
    var r := ShiftBack(nodes, refs, from, |refs| - 1);
    forall i | 0 <= i < |r| - 1
      ensures i * size <= |o| - 2 && r[i] == Some(o[i * size])
    {
      var p := i * size;
      assert refs[i] == Some(order[p]) && p < n;
      FirstSlotSplit(pos, size, i);
      if p >= pos {
        assert o[p + 1] == order[p];
        assert nodes[o[p + 1]].prev == Some(o[p]);
      } else {
        assert o[p] == order[p];
      }
    }
    assert o[n] == order[n - 1];
    GrowAfterShift(nodes, o, r, size);
  }

  /** A removal before the tail keeps the table once every landmark from
      the first slot at or after `pos` has stepped forward onto its
      successor and the shrink step has run. */
  lemma RemoveTable(order: seq<Id>, o: seq<Id>, refs: seq<Option<Id>>, shifted: seq<Option<Id>>, size: nat, pos: nat)
    requires size > 0 && IsLandmarkTable(order, refs, size) && |order| >= 3 && pos < |order| - 1
    requires RemovedAt(o, order, pos)
    requires |shifted| == |refs| && shifted[|refs| - 1] == refs[|refs| - 1]
    requires forall i :: 0 <= i < |refs| - 1 ==>
               shifted[i] == (if i * size >= pos then Some(order[i * size + 1]) else refs[i])
    ensures IsLandmarkTable(o, ShrinkTail(shifted, |o|, size), size)
  {
    var n := |order|;
    forall i | 0 <= i < |shifted| - 1
      ensures i * size <= |o| - 1 && shifted[i] == Some(o[i * size])
    {
      var p := i * size;
      assert refs[i] == Some(order[p]) && p <= n - 2;
      if p >= pos {
        assert o[p] == order[p + 1];
      } else {
        assert o[p] == order[p];
      }
    }
    assert o[n - 2] == order[n - 1];
    ShrinkAfterShift(o, shifted, size);
  }

  /** Stepping the landmarks from the first slot at or after `pos` forward,
      in an arena where every node from `pos` on still links to its
      successor, moves each of them to the next position. */
  lemma ShiftForwardSlots(nodes: map<Id, Node>, order: seq<Id>, refs: seq<Option<Id>>, size: nat, pos: nat)
    requires size > 0 && IsLandmarkTable(order, refs, size) && |order| >= 2 && pos < |order| - 1
    requires forall k :: pos <= k < |order| - 1 ==> order[k] in nodes && nodes[order[k]].next == Some(order[k + 1])
    ensures |refs| >= 1
    ensures var r := ShiftForward(nodes, refs, FirstSlotFrom(pos, size), |refs| - 1);
      && r[|refs| - 1] == refs[|refs| - 1]
      && forall i :: 0 <= i < |refs| - 1 ==>
           r[i] == (if i * size >= pos then Some(order[i * size + 1]) else refs[i])
  {
    TableShape(order, refs, size);
    var r := ShiftForward(nodes, refs, FirstSlotFrom(pos, size), |refs| - 1);
    forall i | 0 <= i < |refs| - 1
      ensures r[i] == (if i * size >= pos then Some(order[i * size + 1]) else refs[i])
    {
      FirstSlotSplit(pos, size, i);
      assert refs[i] == Some(order[i * size]) && i * size <= |order| - 2;
    }
  }

  /** `pop_tail` from at least two nodes: the tail slot steps back onto
      the node before the tail, then the shrink step runs. From three nodes
      on this keeps the table; from two nodes the shrink step also fires
      and leaves the single entry `[head]`. */
  lemma PopTailTable(order: seq<Id>, refs: seq<Option<Id>>, size: nat)
    requires size > 0 && |order| >= 2 && IsLandmarkTable(order, refs, size)
    ensures |refs| >= 2
    ensures var n := |order|;
      var r := ShrinkTail(refs[|refs| - 1 := Some(order[n - 2])], n - 1, size);
      && (n >= 3 ==> IsLandmarkTable(order[..n - 1], r, size))
      && (n == 2 ==> r == [Some(order[0])])
  {
    var n := |order|;
    TableShape(order, refs, size);
    var t := refs[|refs| - 1 := Some(order[n - 2])];
    if n >= 3 {
      var o := order[..n - 1];
      forall i | 0 <= i < |t| - 1
        ensures i * size <= |o| - 1 && t[i] == Some(o[i * size])
      {
        assert refs[i] == Some(order[i * size]) && i * size <= n - 2;
      }
      ShrinkAfterShift(o, t, size);
    } else {
      assert refs == [Some(order[0]), Some(order[1])];
    }
  }

  /** `pop_head` from at least two nodes: the head slot moves to the second
      node and every other slot before the tail steps forward, then the
      shrink step runs. From three nodes on this keeps the table; from two
      nodes the shrink step also fires and leaves the single entry
      `[tail]`. */
  lemma PopHeadTable(nodes: map<Id, Node>, order: seq<Id>, refs: seq<Option<Id>>, size: nat)
    requires size > 0 && |order| >= 2 && IsLandmarkTable(order, refs, size)
    requires forall k :: 1 <= k < |order| - 1 ==> order[k] in nodes && nodes[order[k]].next == Some(order[k + 1])
    ensures |refs| >= 2
    ensures var n := |order|;
      var r := ShrinkTail(ShiftForward(nodes, refs[0 := Some(order[1])], 1, |refs| - 1), n - 1, size);
      && (n >= 3 ==> IsLandmarkTable(order[1..], r, size))
      && (n == 2 ==> r == [Some(order[1])])
  {
    var n := |order|;
    TableShape(order, refs, size);
    var shifted := ShiftForward(nodes, refs[0 := Some(order[1])], 1, |refs| - 1);
    if n >= 3 {
      forall i | 0 <= i < |refs| - 1
        ensures shifted[i] == Some(order[i * size + 1])
      {
        assert refs[i] == Some(order[i * size]) && i * size <= n - 2;
        if i > 0 {
          MulMono(1, i, size);
        }
      }
      RemoveTable(order, order[1..], refs, shifted, size, 0);
    } else {
      assert refs == [Some(order[0]), Some(order[1])];
    }
  }

  /** The slot `at(pos)` starts from names the node at position
      `(pos / size) * size`, which is `pos % size` links before `pos`. */
  lemma LandmarkAt(order: seq<Id>, refs: seq<Option<Id>>, size: nat, pos: nat)
    requires size > 0 && IsLandmarkTable(order, refs, size) && pos < |order|
    ensures pos / size < |refs|
    ensures (pos / size) * size + pos % size == pos
    ensures refs[pos / size] == Some(order[(pos / size) * size])
  {
    var n := |order|;
    if n == 1 {
      assert pos == 0;
    } else {
      AtSlot(n, size, pos);
    }
  }

  /** Walking from a slot that names position `start` reaches position
      `start + steps`. */
  lemma SlotWalk(nodes: map<Id, Node>, order: seq<Id>, refs: seq<Option<Id>>, slot: nat, start: nat, steps: nat)
    requires IsChain(nodes, order) && start + steps < |order|
    requires slot < |refs| && refs[slot] == Some(order[start])
    ensures Walk(nodes, refs[slot].value, steps) == Some(order[start + steps])
  {
    WalkAlong(nodes, order, start, steps);
  }

  /** The walk `at(pos)` makes: from slot `pos / size`, which names the
      node at position `(pos / size) * size`, `pos % size` links along
      `next` reach the node at position `pos`. */
  lemma LandmarkWalk(nodes: map<Id, Node>, order: seq<Id>, refs: seq<Option<Id>>, size: nat, pos: nat)
    requires size > 0 && IsChain(nodes, order) && pos < |order|
    requires (pos / size) * size + pos % size == pos
    requires pos / size < |refs| && refs[pos / size] == Some(order[(pos / size) * size])
    ensures Walk(nodes, refs[pos / size].value, pos % size) == Some(order[pos])
  {
    SlotWalk(nodes, order, refs, pos / size, (pos / size) * size, pos % size);
  }

  /** After bypassing the node at `pos`, every slot from `ceil(pos / size)`
      on that steps forward lands on the successor of its old node. */
  lemma BypassShift(nodes: map<Id, Node>, order: seq<Id>, refs: seq<Option<Id>>, size: nat, pos: nat)
    requires size > 0 && IsChain(nodes, order) && IsLandmarkTable(order, refs, size)
    requires 0 < pos < |order| - 1
    ensures |refs| >= 1
    ensures var bypassed := Bypass(nodes, order[pos - 1], order[pos + 1]);
      var r := ShiftForward(bypassed, refs, FirstSlotFrom(pos, size), |refs| - 1);
      && r[|refs| - 1] == refs[|refs| - 1]
      && forall i :: 0 <= i < |refs| - 1 ==>
           r[i] == (if i * size >= pos then Some(order[i * size + 1]) else refs[i])
  {
    BypassLinks(nodes, order, pos);
    ShiftForwardSlots(Bypass(nodes, order[pos - 1], order[pos + 1]), order, refs, size, pos);
  }

  /** The table patch of `pop(pos)` for an inner position: with the node
      bypassed, every slot from `ceil(pos / size)` on stepped forward and
      the shrink step run, the table is that of the order without `pos`. */
  lemma BypassTable(nodes: map<Id, Node>, order: seq<Id>, refs: seq<Option<Id>>, size: nat, pos: nat)
    requires size > 0 && IsChain(nodes, order) && IsLandmarkTable(order, refs, size)
    requires 0 < pos < |order| - 1
    ensures |refs| >= 1
    ensures var bypassed := Bypass(nodes, order[pos - 1], order[pos + 1]);
      var shifted := ShiftForward(bypassed, refs, FirstSlotFrom(pos, size), |refs| - 1);
      IsLandmarkTable(order[..pos] + order[pos + 1..], ShrinkTail(shifted, |order| - 1, size), size)
  {
    var o := order[..pos] + order[pos + 1..];
    RemoveAt(order, pos);
    BypassShift(nodes, order, refs, size, pos);
    var shifted := ShiftForward(Bypass(nodes, order[pos - 1], order[pos + 1]), refs, FirstSlotFrom(pos, size), |refs| - 1);
    RemoveTable(order, o, refs, shifted, size, pos);
  }

  /** The node `at(pos)` reaches: from slot `pos / size`, `pos % size`
      links along `next`. */
  function WalkFromSlot(nodes: map<Id, Node>, order: seq<Id>, refs: seq<Option<Id>>, size: nat, pos: nat): (r: Id)
    requires size > 0 && IsChain(nodes, order) && pos < |order|
    requires (pos / size) * size + pos % size == pos
    requires pos / size < |refs| && refs[pos / size] == Some(order[(pos / size) * size])
    ensures r == order[pos]
  {
    LandmarkWalk(nodes, order, refs, size, pos);
    Walk(nodes, refs[pos / size].value, pos % size).value
  }
}
