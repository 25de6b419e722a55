/** Where the list as written departs from its own invariant, each with
    the behaviour it was evidently meant to have. Every finding pairs the
    written behaviour (modelled in `DoublyLinkedList`) with a lemma that
    exhibits the departure, and a corrected definition with the intended
    property proved about it. */
module Findings {
  import opened Wrappers
  import opened Chain
  import opened Stride
  import opened LandmarkTable
  import opened MergeSort
  import opened DoublyLinkedList

  // ----- Popping down to one node --------------------------------------

  /** The shrink step with the guard it evidently needs: only a table of
      more than two entries may lose its last one, so a single node keeps
      `[head, head]`. */
  function GuardedShrink(refs: seq<Option<Id>>, len: nat, size: nat): (r: seq<Option<Id>>)
    requires |refs| >= 1 && len >= 1 && size > 0
    ensures len == 1 ==> r == refs
    ensures len > 1 ==> r == ShrinkTail(refs, len, size)
  {
    if len > 1 && (len - 1) % size == 0 then refs[..|refs| - 1] else refs
  }

  /** `pop_tail` from two or more nodes with the guarded shrink step. */
  function DropTailFixed(l: List): (r: List)
    requires Valid(l) && l.len >= 2
    ensures r.order == l.order[..l.len - 1] && r.len == l.len - 1 && r.size == l.size
  {
    ValidLinked(l);
    var tail := l.refs[|l.refs| - 1].value;
    assert l.nodes[tail].prev == Some(l.order[l.len - 2]);
    var before := l.nodes[tail].prev.value;
    l.(nodes := UnlinkTail(l.nodes, before, tail), order := l.order[..l.len - 1],
       refs := GuardedShrink(l.refs[|l.refs| - 1 := Some(before)], l.len - 1, l.size), len := l.len - 1)
  }

  /** The guarded tail pop keeps the invariant for every length, and
      agrees with the written one from three nodes on. */
  lemma DropTailFixedValid(l: List)
    requires Valid(l) && l.len >= 2
    ensures Valid(DropTailFixed(l))
    ensures Elems(DropTailFixed(l)) == Elems(l)[..l.len - 1]
    ensures l.len >= 3 ==> DropTailFixed(l) == DropTail(l)
  {
    ValidLinked(l);
    DropTailElems(l);
    UnlinkTailIsChain(l.nodes, l.order);
    if l.len >= 3 {
      DropTailValid(l);
    } else {
      DropTailFixedSingle(l);
    }
  }

  /** From two nodes, the guarded tail pop keeps the two-entry table with
      the head in both slots. */
  lemma DropTailFixedSingle(l: List)
    requires Valid(l) && l.len == 2
    ensures DropTailFixed(l).refs == [Some(l.order[0]), Some(l.order[0])]
  {
    ValidLinked(l);
    TableShape(l.order, l.refs, l.size);
    assert l.refs == [Some(l.order[0]), Some(l.order[1])];
  }

  /** `pop_tail` with the guarded shrink step. */
  function PopTailFixed(l: List): (r: (List, int))
    requires Valid(l)
    ensures r.0.size == l.size
    ensures l.len == 0 ==> r == (l, 0)
    ensures l.len > 0 ==> r.0.len == l.len - 1 && r.0.order == l.order[..l.len - 1]
  {
    ValidLinked(l);
    if l.refs[0].None? then (l, 0)
    else (if l.len == 1 then Emptied(l) else DropTailFixed(l), l.nodes[l.refs[|l.refs| - 1].value].value)
  }

  /** The corrected `pop_tail` returns what the written one returns, keeps
      the same values, and always leaves a valid list. */
  lemma PopTailFixedValid(l: List)
    requires Valid(l)
    ensures Valid(PopTailFixed(l).0)
    ensures PopTailFixed(l).1 == PopTail(l).1
    ensures Elems(PopTailFixed(l).0) == Elems(PopTail(l).0)
  {
    ValidLinked(l);
    if l.len >= 2 {
      DropTailFixedValid(l);
      DropTailElems(l);
    } else if l.len == 1 {
      EmptiedValid(l);
    }
  }

  /** As written: `pop_tail` on two nodes leaves the one-entry table
      `[head]`, and the next `push_tail` overwrites that entry with the new
      node. The first slot, which `head()`, `begin()` and `at(0)` read,
      then names the tail, and the table no longer has two entries. */
  lemma PopTailThenPush(l: List, v: int)
    requires Valid(l) && l.len == 2
    ensures var p := PopTail(l).0;
      Linked(p) && var q := PushTail(p, v).0;
      && Elems(q) == [Elems(l)[0], v]
      && q.refs == [Some(q.order[1])]
      && q.refs[0] != Some(q.order[0])
      && !Valid(q)
  {
    var p := PopTail(l).0;
    PopTailValid(l);
    PushTailElems(p, v);
    PopTailElems(l);
    var q := PushTail(p, v).0;
    assert q.order[0] in p.nodes;
  }

  /** With the guard, popping down to one node and pushing again leaves a
      valid list whose first slot names the head. */
  lemma PopTailFixedThenPush(l: List, v: int)
    requires Valid(l) && l.len == 2
    ensures var p := PopTailFixed(l).0;
      Valid(p) && var q := PushTail(p, v).0;
      && Valid(q) && q.refs[0] == Some(q.order[0])
      && Elems(q) == [Elems(l)[0], v]
  {
    var p := PopTailFixed(l).0;
    PopTailFixedValid(l);
    PopTailElems(l);
    ValidLinked(p);
    PushTailValid(p, v);
    PushTailElems(p, v);
    ValidLinked(PushTail(p, v).0);
  }

  /** `pop_head` from two or more nodes with the guarded shrink step. */
  function DropHeadFixed(l: List): (r: List)
    requires Valid(l) && l.len >= 2
    ensures r.order == l.order[1..] && r.len == l.len - 1 && r.size == l.size
  {
    ValidLinked(l);
    var head := l.refs[0].value;
    assert l.nodes[head].next == Some(l.order[1]);
    var after := l.nodes[head].next.value;
    var nodes := UnlinkHead(l.nodes, head, after);
    l.(nodes := nodes, order := l.order[1..],
       refs := GuardedShrink(ShiftForward(nodes, l.refs[0 := Some(after)], 1, |l.refs| - 1), l.len - 1, l.size),
       len := l.len - 1)
  }

  /** The guarded head pop keeps the invariant for every length, and
      agrees with the written one from three nodes on. */
  lemma DropHeadFixedValid(l: List)
    requires Valid(l) && l.len >= 2
    ensures Valid(DropHeadFixed(l))
    ensures Elems(DropHeadFixed(l)) == Elems(l)[1..]
    ensures l.len >= 3 ==> DropHeadFixed(l) == DropHead(l)
  {
    ValidLinked(l);
    DropHeadElems(l);
    UnlinkHeadIsChain(l.nodes, l.order);
    if l.len >= 3 {
      DropHeadValid(l);
    } else {
      TableShape(l.order, l.refs, l.size);
      assert l.refs == [Some(l.order[0]), Some(l.order[1])];
    }
  }

  /** `pop_head` with the guarded shrink step. */
  function PopHeadFixed(l: List): (r: (List, int))
    requires Valid(l)
    ensures r.0.size == l.size
    ensures l.len == 0 ==> r == (l, 0)
    ensures l.len > 0 ==> r.0.len == l.len - 1 && r.0.order == l.order[1..]
  {
    ValidLinked(l);
    if l.refs[0].None? then (l, 0)
    else (if l.len == 1 then Emptied(l) else DropHeadFixed(l), l.nodes[l.refs[0].value].value)
  }

  /** The corrected `pop_head` returns what the written one returns, keeps
      the same values, and always leaves a valid list. */
  lemma PopHeadFixedValid(l: List)
    requires Valid(l)
    ensures Valid(PopHeadFixed(l).0)
    ensures PopHeadFixed(l).1 == PopHead(l).1
    ensures Elems(PopHeadFixed(l).0) == Elems(PopHead(l).0)
  {
    ValidLinked(l);
    if l.len >= 2 {
      DropHeadFixedValid(l);
      DropHeadElems(l);
    } else if l.len == 1 {
      EmptiedValid(l);
    }
  }

  /** As written: `pop_head` on two nodes leaves the one-entry table
      `[tail]`, and the next `push_tail` overwrites it with the new node,
      so the first slot names the new tail instead of the head. */
  lemma PopHeadThenPush(l: List, v: int)
    requires Valid(l) && l.len == 2
    ensures var p := PopHead(l).0;
      Linked(p) && var q := PushTail(p, v).0;
      && Elems(q) == [Elems(l)[1], v]
      && q.refs == [Some(q.order[1])]
      && q.refs[0] != Some(q.order[0])
      && !Valid(q)
  {
    var p := PopHead(l).0;
    PopHeadValid(l);
    PushTailElems(p, v);
    PopHeadElems(l);
    var q := PushTail(p, v).0;
    assert q.order[0] in p.nodes;
  }

  // ----- Resizing and sorting short lists -------------------------------

  /** As written: on an empty list the walk of `resize` starts from the
      null first slot and reads its `next`. */
  lemma ResizeStartsAtNull(l: List)
    requires Valid(l) && l.len == 0
    ensures l.refs[0].None?
  {
  }

  /** As written: `resize` of a single node records it once, and the next
      `push_tail` overwrites that only entry, so the first slot names the
      new tail. */
  lemma ResizeThenPush(l: List, size: nat, v: int)
    requires Valid(l) && l.len == 1 && size > 0
    ensures var p := Resize(l, size);
      Linked(p) && var q := PushTail(p, v).0;
      && q.refs == [Some(q.order[1])]
      && q.refs[0] != Some(q.order[0])
      && !Valid(q)
  {
    ValidLinked(l);
    var p := Resize(l, size);
    ResizeValid(l, size);
    var q := PushTail(p, v).0;
    assert q.order[0] in p.nodes;
  }

  /** `resize` as evidently intended: on an empty list only the stride
      changes, a single node keeps `[head, head]`, and longer lists are
      walked as written. */
  function ResizeFixed(l: List, size: nat): (r: List)
    requires Valid(l) && size > 0
    ensures r.nodes == l.nodes && r.order == l.order && r.len == l.len && r.size == size
  {
    ValidLinked(l);
    if l.len == 0 then l.(size := size)
    else if l.len == 1 then l.(refs := [l.refs[0], l.refs[0]], size := size)
    else Resize(l, size)
  }

  /** The corrected `resize` keeps the values and leaves a valid list for
      every length, and `at` finds every node where it was. */
  lemma ResizeFixedValid(l: List, size: nat, pos: nat)
    requires Valid(l) && size > 0
    ensures Valid(ResizeFixed(l, size))
    ensures Elems(ResizeFixed(l, size)) == Elems(l)
    ensures At(ResizeFixed(l, size), pos) == At(l, pos)
  {
    ValidLinked(l);
    if l.len >= 2 {
      ResizeValid(l, size);
    }
  }

  /** As written: `sort` of a single node ends with `resize`, which leaves
      the one-entry table, and the next `push_tail` overwrites it. */
  lemma SortThenPush(l: List, descending: bool, v: int)
    requires Valid(l) && l.len == 1
    ensures var p := DoublyLinkedList.Sort(l, descending);
      Linked(p) && var q := PushTail(p, v).0;
      && q.refs == [Some(q.order[1])]
      && q.refs[0] != Some(q.order[0])
      && !Valid(q)
  {
    ValidLinked(l);
    var p := DoublyLinkedList.Sort(l, descending);
    SortValid(l, descending);
    assert p.order[0] in l.order;
    var q := PushTail(p, v).0;
    assert q.order[0] in p.nodes;
  }

  /** `sort` as evidently intended: fewer than two nodes are already in
      order and stay as they are. */
  function SortFixed(l: List, descending: bool): (r: List)
    requires Valid(l)
    ensures r.len == l.len && r.size == l.size
    ensures l.len >= 2 ==> r.order == MergeSort.Sort(l.order, KeyOf(l.nodes), descending)
  {
    ValidLinked(l);
    if l.len < 2 then l else DoublyLinkedList.Sort(l, descending)
  }

  /** The corrected `sort` leaves a valid list for every length, with the
      values ordered and each occurring as often as before. */
  lemma SortFixedValid(l: List, descending: bool)
    requires Valid(l)
    ensures var e := Elems(SortFixed(l, descending));
      && Valid(SortFixed(l, descending))
      && (forall i, j :: 0 <= i < j < |e| ==> Ordered(descending, e[i], e[j]))
      && (forall v :: Count(e, v) == Count(Elems(l), v))
  {
    ValidLinked(l);
    if l.len >= 2 {
      SortValid(l, descending);
      SortElems(l, descending);
    }
  }

  // ----- Removing an inner node ----------------------------------------

  /** As written: when `pos` is a multiple of the stride, the first slot
      `pop(pos)` moves forward is the one naming the removed node itself,
      so the source reads `next` of a node it has already deleted. The
      model's `PopInside` reads the successor before the removal. */
  lemma PopReadsRemovedNode(l: List, pos: nat)
    requires Valid(l) && 0 < pos < l.len - 1 && pos % l.size == 0
    ensures var first := FirstSlotFrom(pos, l.size);
      && first < |l.refs| - 1
      && l.refs[first] == Some(l.order[pos])
      && l.order[pos] !in PopInside(l, pos).0.nodes
  {
    var size := l.size;
    var first := FirstSlotFrom(pos, size);
    LandmarkAt(l.order, l.refs, size, pos);
    assert first == pos / size;
  }

  // ----- Assigning a list to itself --------------------------------------

  /** As written, `a = a`: `clear()` empties the receiver, which is also
      the list the values are then read from. */
  function AssignAliased(l: List): (r: List)
    requires l.size > 0
    ensures r.size == l.size
  {
    AssignValues(l, Elems(Clear(l)))
  }

  /** Self-assignment of a non-empty list leaves it empty. */
  lemma AssignAliasedEmpties(l: List)
    requires l.size > 0 && l.len > 0 && Chained(l)
    ensures Valid(AssignAliased(l)) && Elems(AssignAliased(l)) == []
    ensures Elems(AssignAliased(l)) != Elems(l)
  {
    AssignValuesElems(l, Elems(Clear(l)));
  }

  /** `operator=` as evidently intended: assigning a list to itself
      changes nothing. */
  function AssignChecked(l: List, other: List): (r: List)
    requires l.size > 0 && Valid(other)
    ensures r.size == l.size
  {
    if other == l then l else Assign(l, other)
  }

  /** After the corrected assignment the receiver is valid and holds the
      values of `other`, whether or not the two are the same list. */
  lemma AssignCheckedElems(l: List, other: List)
    requires l.size > 0 && Valid(other)
    ensures Valid(AssignChecked(l, other))
    ensures Elems(AssignChecked(l, other)) == Elems(other)
  {
    if other != l {
      AssignElems(l, other);
    }
  }
}
