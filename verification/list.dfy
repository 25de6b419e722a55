/** The list object: the node arena, the chain's order, the landmark table
    `_refs`, the length `_len` and the stride `_size`, with one function
    per member function of `DoublyLinkedList<T, S>`. Values are integers;
    a mutation returns the new state of the list. */
module DoublyLinkedList {
  import opened Wrappers
  import opened Chain
  import opened Stride
  import opened LandmarkTable
  import opened MergeSort

  /** A list: `nodes` is the heap of live nodes, `order` the nodes from
      head to tail, `refs` the landmark table, `len` and `size` the length
      and stride, and `nextId` the identifier the next `new Node` gets. */
  datatype List = List(
    nodes: map<Id, Node>,
    order: seq<Id>,
    refs: seq<Option<Id>>,
    len: nat,
    size: nat,
    nextId: Id)

  /** The chain is well formed, `len` counts it, the stride is positive and
      every allocated identifier lies below `nextId`. */
  predicate Chained(l: List) {
    && l.size > 0
    && IsChain(l.nodes, l.order)
    && l.len == |l.order|
    && (forall id :: id in l.nodes ==> id < l.nextId)
  }

  /** What `push_tail` relies on: a well-formed chain, a null first slot
      exactly when the list is empty, and the tail in the last slot. The
      states the source reaches after popping down to one node satisfy
      this but not `Valid`. */
  predicate Linked(l: List) {
    && Chained(l)
    && |l.refs| >= 1
    && (l.len == 0 ==> l.refs == [None, None])
    && (l.len > 0 ==> l.refs[0].Some? && l.refs[|l.refs| - 1] == Some(l.order[l.len - 1]))
  }

  /** The class invariant: a well-formed chain with its landmark table. */
  predicate Valid(l: List) {
    Chained(l) && IsLandmarkTable(l.order, l.refs, l.size)
  }

  /** The values from head to tail: what forward iteration visits. */
  function Elems(l: List): seq<int> {
    Values(l.nodes, l.order)
  }

  /** A valid list is linked, and its first slot holds the head. */
  lemma ValidLinked(l: List)
    requires Valid(l)
    ensures Linked(l)
    ensures l.len > 0 ==> l.refs[0] == Some(l.order[0])
  {
    TableShape(l.order, l.refs, l.size);
  }

  /** `DoublyLinkedList(size)`: an empty list with the given stride. */
  function New(size: nat): (l: List)
    requires size > 0
    ensures Valid(l) && Elems(l) == [] && l.size == size
  {
    List(map[], [], [None, None], 0, size, 0)
  }

  /** `clear`: back to the empty list, keeping the stride. */
  function Clear(l: List): (r: List)
    ensures Elems(r) == [] && r.len == 0 && r.size == l.size && r.nextId == l.nextId
    ensures l.size > 0 ==> Valid(r)
  {
    l.(nodes := map[], order := [], refs := [None, None], len := 0)
  }

  /** A push onto an empty list: the new node is both head and tail and
      fills both slots. */
  function First(l: List, v: int): (r: List)
    requires Linked(l) && l.refs[0].None?
    ensures r.order == [l.nextId] && r.len == 1 && r.size == l.size
  {
    var id := l.nextId;
    l.(nodes := l.nodes[id := Node(None, v, None)], order := [id],
       refs := l.refs[0 := Some(id)][|l.refs| - 1 := Some(id)], len := 1, nextId := id + 1)
  }

  /** The first node makes a valid one-value list. */
  lemma FirstValid(l: List, v: int)
    requires Linked(l) && l.refs[0].None?
    ensures Valid(First(l, v)) && Elems(First(l, v)) == [v]
  {
  }

  /** `push_tail` onto a non-empty list: the new node is linked after the
      node in the last slot; the table either records it as a new last
      entry, keeping the old tail as a landmark, or lets it replace the
      last slot. */
  function Append(l: List, v: int): (r: List)
    requires Linked(l) && l.refs[0].Some?
    ensures r.order == l.order + [l.nextId] && r.len == l.len + 1 && r.size == l.size
  {
    var id := l.nextId;
    var tail := l.refs[|l.refs| - 1].value;
    l.(nodes := LinkAfter(l.nodes, tail, id, v), order := l.order + [id],
       refs := TailSlot(l.refs, l.len + 1, l.size, id), len := l.len + 1, nextId := id + 1)
  }

  /** Appending puts the new value last and keeps the others. */
  lemma AppendElems(l: List, v: int)
    requires Linked(l) && l.refs[0].Some?
    ensures Elems(Append(l, v)) == Elems(l) + [v]
  {
    LinkAfterValues(l.nodes, l.order, l.nextId, v);
  }

  /** Appending keeps a linked list linked and a valid list valid. */
  lemma AppendLinked(l: List, v: int)
    requires Linked(l) && l.refs[0].Some?
    ensures Linked(Append(l, v))
    ensures Valid(l) ==> Valid(Append(l, v))
  {
    LinkAfterIsChain(l.nodes, l.order, l.nextId, v);
    TailSlotTable(l.order, l.refs, l.size, l.nextId);
  }

  /** `push_tail`: links a new, fresh node after the tail. */
  function PushTail(l: List, v: int): (r: (List, Id))
    requires Linked(l)
    ensures r.1 !in l.nodes && r.0.order == l.order + [r.1]
    ensures r.0.len == l.len + 1 && r.0.size == l.size
  {
    (if l.refs[0].None? then First(l, v) else Append(l, v), l.nextId)
  }

  /** `push_tail` puts the new value last and keeps the others. */
  lemma PushTailElems(l: List, v: int)
    requires Linked(l)
    ensures Elems(PushTail(l, v).0) == Elems(l) + [v]
  {
    if l.refs[0].None? {
      FirstValid(l, v);
    } else {
      AppendElems(l, v);
    }
  }

  /** `push_tail` keeps a linked list linked. */
  lemma PushTailLinked(l: List, v: int)
    requires Linked(l)
    ensures Linked(PushTail(l, v).0)
  {
    if l.refs[0].None? {
      FirstValid(l, v);
    } else {
      AppendLinked(l, v);
    }
  }

  /** `push_tail` keeps a valid list valid. */
  lemma PushTailValid(l: List, v: int)
    requires Valid(l)
    ensures Valid(PushTail(l, v).0)
  {
    ValidLinked(l);
    if l.refs[0].None? {
      FirstValid(l, v);
    } else {
      AppendLinked(l, v);
    }
  }

  /** `push_head` onto a non-empty list: the new node is linked before the
      head, every slot but the last moves one node back, and the growth
      step runs. */
  function Prepend(l: List, v: int): (r: List)
    requires Valid(l) && l.len > 0
    ensures r.order == [l.nextId] + l.order && r.len == l.len + 1 && r.size == l.size
  {
    ValidLinked(l);
    var id := l.nextId;
    var head := l.refs[0].value;
    var nodes := LinkBefore(l.nodes, head, id, v);
    l.(nodes := nodes, order := [id] + l.order,
       refs := GrowTail(nodes, ShiftBack(nodes, l.refs, 0, |l.refs| - 1), l.len + 1, l.size),
       len := l.len + 1, nextId := id + 1)
  }

  /** Prepending puts the new value first and keeps the others. */
  lemma PrependElems(l: List, v: int)
    requires Valid(l) && l.len > 0
    ensures Elems(Prepend(l, v)) == [v] + Elems(l)
  {
    ValidLinked(l);
    LinkBeforeValues(l.nodes, l.order, l.nextId, v);
  }

  /** Prepending keeps the invariant and puts the new head in the first
      slot. */
  lemma PrependValid(l: List, v: int)
    requires Valid(l) && l.len > 0
    ensures Valid(Prepend(l, v)) && Prepend(l, v).refs[0] == Some(l.nextId)
  {
    ValidLinked(l);
    var id := l.nextId;
    var nodes := LinkBefore(l.nodes, l.order[0], id, v);
    var order := [id] + l.order;
    LinkBeforeIsChain(l.nodes, l.order, id, v);
    assert InsertedAt(order, l.order, 0, id);
    InsertTable(nodes, l.order, order, l.refs, l.size, 0, 0, id);
    TableShape(order, Prepend(l, v).refs, l.size);
  }

  /** `push_head`: links a new, fresh node before the head. */
  function PushHead(l: List, v: int): (r: (List, Id))
    requires Valid(l)
    ensures r.1 !in l.nodes && r.0.order == [r.1] + l.order
    ensures r.0.len == l.len + 1 && r.0.size == l.size
  {
    ValidLinked(l);
    (if l.refs[0].None? then First(l, v) else Prepend(l, v), l.nextId)
  }

  /** `push_head` puts the new value first and keeps the others. */
  lemma PushHeadElems(l: List, v: int)
    requires Valid(l)
    ensures Elems(PushHead(l, v).0) == [v] + Elems(l)
  {
    ValidLinked(l);
    if l.len == 0 {
      FirstValid(l, v);
    } else {
      PrependElems(l, v);
    }
  }

  /** `push_head` keeps the invariant and records the new head in the
      first slot. */
  lemma PushHeadValid(l: List, v: int)
    requires Valid(l)
    ensures Valid(PushHead(l, v).0)
    ensures PushHead(l, v).0.refs[0] == Some(PushHead(l, v).1)
  {
    ValidLinked(l);
    if l.len == 0 {
      FirstValid(l, v);
    } else {
      PrependValid(l, v);
    }
  }

  /** `insert(pos, value)` strictly inside the list: links a new node
      before the node `at(pos)` returns, moves the slots from the first one
      at or after `pos` one node back, and runs the growth step. */
  function InsertInside(l: List, pos: nat, v: int): (r: (List, Id))
    requires Valid(l) && 0 < pos < l.len
    ensures r.1 !in l.nodes && r.0.order == l.order[..pos] + [r.1] + l.order[pos..]
    ensures r.0.len == l.len + 1 && r.0.size == l.size
  {
    var node := At(l, pos).value;
    assert l.nodes[node].prev == Some(l.order[pos - 1]);
    var before := l.nodes[node].prev.value;
    var id := l.nextId;
    var nodes := LinkBetween(l.nodes, before, node, id, v);
    var refs := GrowTail(nodes, ShiftBack(nodes, l.refs, FirstSlotFrom(pos, l.size), |l.refs| - 1), l.len + 1, l.size);
    (l.(nodes := nodes, order := l.order[..pos] + [id] + l.order[pos..], refs := refs, len := l.len + 1, nextId := id + 1), id)
  }

  /** Inserting inside puts the new value at `pos` and keeps the others in
      order around it. */
  lemma InsertInsideElems(l: List, pos: nat, v: int)
    requires Valid(l) && 0 < pos < l.len
    ensures Elems(InsertInside(l, pos, v).0) == Elems(l)[..pos] + [v] + Elems(l)[pos..]
  {
    var id := l.nextId;
    var vs := Elems(l);
    InsertAt(l.order, pos, id);
    InsertAt(vs, pos, v);
    LinkBetweenValues(l.nodes, l.order, l.order[..pos] + [id] + l.order[pos..], vs[..pos] + [v] + vs[pos..], pos, id, v);
  }

  /** Inserting inside keeps the invariant. */
  lemma InsertInsideValid(l: List, pos: nat, v: int)
    requires Valid(l) && 0 < pos < l.len
    ensures Valid(InsertInside(l, pos, v).0)
  {
    InsertInsideChained(l, pos, v);
    InsertInsideTable(l, pos, v);
  }

  /** Inserting inside leaves a well-formed chain. */
  lemma InsertInsideChained(l: List, pos: nat, v: int)
    requires Valid(l) && 0 < pos < l.len
    ensures Chained(InsertInside(l, pos, v).0)
  {
    var id := l.nextId;
    InsertAt(l.order, pos, id);
    LinkBetweenIsChain(l.nodes, l.order, l.order[..pos] + [id] + l.order[pos..], pos, id, v);
  }

  /** Inserting inside leaves the landmark table of the new order. */
  lemma InsertInsideTable(l: List, pos: nat, v: int)
    requires Valid(l) && 0 < pos < l.len
    ensures IsLandmarkTable(InsertInside(l, pos, v).0.order, InsertInside(l, pos, v).0.refs, l.size)
  {
    var id := l.nextId;
    var order := l.order[..pos] + [id] + l.order[pos..];
    var nodes := LinkBetween(l.nodes, l.order[pos - 1], l.order[pos], id, v);
    InsertAt(l.order, pos, id);
    LinkBetweenIsChain(l.nodes, l.order, order, pos, id, v);
    InsertTable(nodes, l.order, order, l.refs, l.size, pos, FirstSlotFrom(pos, l.size), id);
  }

  /** `insert(pos, value)`: at the front it is `push_head`, at the end
      `push_tail`, past the end it throws, and otherwise the new, fresh
      node goes before position `pos`. */
  function Insert(l: List, pos: nat, v: int): (r: Result<(List, Id)>)
    requires Valid(l)
    ensures r.Err? <==> pos > l.len
    ensures r.Err? ==> r.error == OutOfRange("pos > length")
    ensures r.Ok? ==>
      && r.value.1 !in l.nodes && r.value.0.len == l.len + 1 && r.value.0.size == l.size
      && r.value.0.order == l.order[..pos] + [r.value.1] + l.order[pos..]
  {
    if pos == 0 then
      var r := PushHead(l, v);
      assert l.order[..0] + [r.1] + l.order[0..] == [r.1] + l.order;
      Ok(r)
    else if pos == l.len then
      ValidLinked(l);
      var r := PushTail(l, v);
      assert l.order[..pos] + [r.1] + l.order[pos..] == l.order + [r.1];
      Ok(r)
    else if pos > l.len then
      Err(OutOfRange("pos > length"))
    else
      Ok(InsertInside(l, pos, v))
  }

  /** Within the list, `insert` puts the new value at `pos` and keeps the
      others in order around it. */
  lemma InsertElems(l: List, pos: nat, v: int)
    requires Valid(l) && pos <= l.len
    ensures Insert(l, pos, v).Ok?
    ensures Elems(Insert(l, pos, v).value.0) == Elems(l)[..pos] + [v] + Elems(l)[pos..]
  {
    if pos == 0 {
      InsertFrontElems(l, v);
    } else if pos == l.len {
      InsertBackElems(l, v);
    } else {
      InsertInsideElems(l, pos, v);
    }
  }

  /** `insert(0, v)` is `push_head(v)`. */
  lemma InsertFrontElems(l: List, v: int)
    requires Valid(l)
    ensures Insert(l, 0, v).Ok?
    ensures Elems(Insert(l, 0, v).value.0) == Elems(l)[..0] + [v] + Elems(l)[0..]
  {
    var e := Elems(l);
    PushHeadElems(l, v);
    assert e[..0] + [v] + e[0..] == [v] + e;
  }

  /** `insert(len, v)` is `push_tail(v)`. */
  lemma InsertBackElems(l: List, v: int)
    requires Valid(l) && l.len > 0
    ensures Insert(l, l.len, v).Ok?
    ensures Elems(Insert(l, l.len, v).value.0) == Elems(l)[..l.len] + [v] + Elems(l)[l.len..]
  {
    var e := Elems(l);
    ValidLinked(l);
    PushTailElems(l, v);
    assert e[..l.len] + [v] + e[l.len..] == e + [v];
  }

  /** `insert` keeps the invariant. */
  lemma InsertValid(l: List, pos: nat, v: int)
    requires Valid(l) && pos <= l.len
    ensures Insert(l, pos, v).Ok? && Valid(Insert(l, pos, v).value.0)
  {
    if pos == 0 {
      PushHeadValid(l, v);
    } else if pos == l.len {
      ValidLinked(l);
      PushTailValid(l, v);
    } else {
      InsertInsideValid(l, pos, v);
    }
  }

  /** The repeated `insert(pos++, value)` of the range overloads; a
      non-empty range past the end throws from the first `insert`. */
  function InsertEach(l: List, pos: nat, vs: seq<int>): (r: Result<List>)
    requires Valid(l)
    ensures r.Err? <==> vs != [] && pos > l.len
    ensures r.Err? ==> r.error == OutOfRange("pos > length")
    ensures r.Ok? ==> Valid(r.value) && r.value.len == l.len + |vs| && r.value.size == l.size
    decreases |vs|
  {
    if vs == [] then Ok(l)
    else
      match Insert(l, pos, vs[0])
      case Err(e) => Err(e)
      case Ok((l1, _)) =>
        InsertValid(l, pos, vs[0]);
        InsertEach(l1, pos + 1, vs[1..])
  }

  /** Inserting a range within the list splices its values in at `pos`. */
  lemma {:induction false} InsertEachElems(l: List, pos: nat, vs: seq<int>)
    requires Valid(l) && pos <= l.len
    ensures InsertEach(l, pos, vs).Ok?
    ensures Elems(InsertEach(l, pos, vs).value) == Elems(l)[..pos] + vs + Elems(l)[pos..]
    decreases |vs|
  {
    if vs == [] {
      assert Elems(l)[..pos] + vs + Elems(l)[pos..] == Elems(l);
    } else {
      var l1 := InsertEachStep(l, pos, vs);
      InsertEachElems(l1, pos + 1, vs[1..]);
      SpliceStep(Elems(l), pos, vs);
    }
  }

  /** The first value of a range inserted within the list: the rest is
      inserted into the list it leaves, one position further on. */
  lemma InsertEachStep(l: List, pos: nat, vs: seq<int>) returns (l1: List)
    requires Valid(l) && pos <= l.len && vs != []
    ensures Valid(l1) && pos + 1 <= l1.len
    ensures Elems(l1) == Elems(l)[..pos] + [vs[0]] + Elems(l)[pos..]
    ensures InsertEach(l, pos, vs) == InsertEach(l1, pos + 1, vs[1..])
  {
    InsertValid(l, pos, vs[0]);
    InsertElems(l, pos, vs[0]);
    l1 := Insert(l, pos, vs[0]).value.0;
  }

  /** Splicing the first value and then the rest after it splices them all. */
  lemma SpliceStep(e: seq<int>, pos: nat, vs: seq<int>)
    requires pos <= |e| && vs != []
    ensures var e1 := e[..pos] + [vs[0]] + e[pos..];
      e1[..pos + 1] + vs[1..] + e1[pos + 1..] == e[..pos] + vs + e[pos..]
  {
    var e1 := e[..pos] + [vs[0]] + e[pos..];
    assert e1[..pos + 1] == e[..pos] + [vs[0]];
    assert e1[pos + 1..] == e[pos..];
    assert [vs[0]] + vs[1..] == vs;
  }

  /** `insert(pos, init)` and `insert(pos, begin, end)`: insert the values
      one after another from `pos`, then return `at(pos)`. A non-empty range
      past the end throws from the first `insert`; an empty range throws
      from `at` unless `pos` is inside the list. */
  function InsertRange(l: List, pos: nat, vs: seq<int>): (r: Result<(List, Id)>)
    requires Valid(l)
    ensures r.Err? <==> pos > l.len || (vs == [] && pos == l.len)
    ensures r.Err? ==> r.error == OutOfRange(if vs == [] then "pos >= length" else "pos > length")
    ensures r.Ok? ==>
      && Valid(r.value.0) && r.value.0.size == l.size
      && pos < r.value.0.len && r.value.1 == r.value.0.order[pos]
  {
    match InsertEach(l, pos, vs)
    case Err(e) => Err(e)
    case Ok(l1) =>
      match At(l1, pos)
      case Err(e) => Err(e)
      case Ok(id) => Ok((l1, id))
  }

  /** A range inserted within the list is spliced in at `pos`, and the
      node returned holds its first value. */
  lemma InsertRangeElems(l: List, pos: nat, vs: seq<int>)
    requires Valid(l) && pos <= l.len
    ensures var r := InsertRange(l, pos, vs);
      r.Ok? ==>
        && Elems(r.value.0) == Elems(l)[..pos] + vs + Elems(l)[pos..]
        && (vs != [] ==> ValueOf(r.value.0.nodes, r.value.1) == vs[0])
  {
    InsertEachElems(l, pos, vs);
    var l1 := InsertEach(l, pos, vs).value;
    if InsertRange(l, pos, vs).Ok? && vs != [] {
      assert Elems(l1)[pos] == (Elems(l)[..pos] + vs + Elems(l)[pos..])[pos];
    }
  }

  /** Popping the only node: the table is reset to `{nullptr, nullptr}`.
      The source does not free the node, so the arena keeps it. */
  function Emptied(l: List): (r: List)
    requires Valid(l) && l.len == 1
    ensures r.order == [] && r.len == 0 && r.size == l.size
  {
    l.(order := [], refs := [None, None], len := 0)
  }

  /** The emptied list is valid. */
  lemma EmptiedValid(l: List)
    requires Valid(l) && l.len == 1
    ensures Valid(Emptied(l)) && Elems(Emptied(l)) == []
  {
  }

  /** `pop_tail` from two or more nodes: the last slot steps back to the
      node before the tail, the tail is unlinked and freed, and the shrink
      step runs. */
  function DropTail(l: List): (r: List)
    requires Valid(l) && l.len >= 2
    ensures r.order == l.order[..l.len - 1] && r.len == l.len - 1 && r.size == l.size
  {
    ValidLinked(l);
    var tail := l.refs[|l.refs| - 1].value;
    assert l.nodes[tail].prev == Some(l.order[l.len - 2]);
    var before := l.nodes[tail].prev.value;
    l.(nodes := UnlinkTail(l.nodes, before, tail), order := l.order[..l.len - 1],
       refs := ShrinkTail(l.refs[|l.refs| - 1 := Some(before)], l.len - 1, l.size), len := l.len - 1)
  }

  /** Dropping the tail keeps every other value in order. */
  lemma DropTailElems(l: List)
    requires Valid(l) && l.len >= 2
    ensures Elems(DropTail(l)) == Elems(l)[..l.len - 1]
  {
    ValidLinked(l);
    UnlinkTailValues(l.nodes, l.order);
  }

  /** After dropping the tail the list is linked, and valid unless one
      node is left: then the shrink step, whose guard lacks `_len > 1`,
      leaves the one-entry table `[head]`. */
  lemma DropTailValid(l: List)
    requires Valid(l) && l.len >= 2
    ensures var r := DropTail(l);
      && Linked(r)
      && (r.len != 1 ==> Valid(r))
      && (r.len == 1 ==> r.refs == [Some(r.order[0])])
  {
    ValidLinked(l);
    UnlinkTailIsChain(l.nodes, l.order);
    PopTailTable(l.order, l.refs, l.size);
  }

  /** `pop_tail`: on an empty list returns `T()` (0) and changes nothing;
      otherwise removes the tail and returns its value. */
  function PopTail(l: List): (r: (List, int))
    requires Valid(l)
    ensures r.0.size == l.size
    ensures l.len == 0 ==> r == (l, 0)
    ensures l.len > 0 ==> r.0.len == l.len - 1 && r.0.order == l.order[..l.len - 1]
  {
    ValidLinked(l);
    if l.refs[0].None? then (l, 0)
    else (if l.len == 1 then Emptied(l) else DropTail(l), l.nodes[l.refs[|l.refs| - 1].value].value)
  }

  /** `pop_tail` returns the last value and keeps the others in order. */
  lemma PopTailElems(l: List)
    requires Valid(l) && l.len > 0
    ensures PopTail(l).1 == Elems(l)[l.len - 1]
    ensures Elems(PopTail(l).0) == Elems(l)[..l.len - 1]
  {
    ValidLinked(l);
    if l.len >= 2 {
      DropTailElems(l);
    }
  }

  /** After `pop_tail` the list is linked, and valid unless one node is
      left, when the table is `[head]`. */
  lemma PopTailValid(l: List)
    requires Valid(l)
    ensures var r := PopTail(l).0;
      && Linked(r)
      && (r.len != 1 ==> Valid(r))
      && (r.len == 1 ==> r.refs == [Some(r.order[0])])
  {
    ValidLinked(l);
    if l.len >= 2 {
      DropTailValid(l);
    } else if l.len == 1 {
      EmptiedValid(l);
    }
  }

  /** `pop_head` from two or more nodes: the first slot moves to the
      second node, the head is unlinked and freed, every other slot but
      the last steps forward, and the shrink step runs. */
  function DropHead(l: List): (r: List)
    requires Valid(l) && l.len >= 2
    ensures r.order == l.order[1..] && r.len == l.len - 1 && r.size == l.size
  {
    ValidLinked(l);
    var head := l.refs[0].value;
    assert l.nodes[head].next == Some(l.order[1]);
    var after := l.nodes[head].next.value;
    var nodes := UnlinkHead(l.nodes, head, after);
    l.(nodes := nodes, order := l.order[1..],
       refs := ShrinkTail(ShiftForward(nodes, l.refs[0 := Some(after)], 1, |l.refs| - 1), l.len - 1, l.size),
       len := l.len - 1)
  }

  /** Dropping the head keeps every other value in order. */
  lemma DropHeadElems(l: List)
    requires Valid(l) && l.len >= 2
    ensures Elems(DropHead(l)) == Elems(l)[1..]
  {
    ValidLinked(l);
    UnlinkHeadValues(l.nodes, l.order);
  }

  /** After dropping the head the list is linked, and valid unless one
      node is left: then the shrink step leaves the one-entry table
      `[tail]`. */
  lemma DropHeadValid(l: List)
    requires Valid(l) && l.len >= 2
    ensures var r := DropHead(l);
      && Linked(r)
      && (r.len != 1 ==> Valid(r))
      && (r.len == 1 ==> r.refs == [Some(r.order[0])])
  {
    ValidLinked(l);
    UnlinkHeadIsChain(l.nodes, l.order);
    PopHeadTable(UnlinkHead(l.nodes, l.order[0], l.order[1]), l.order, l.refs, l.size);
  }

  /** `pop_head`: on an empty list returns `T()` (0) and changes nothing;
      otherwise removes the head and returns its value. */
  function PopHead(l: List): (r: (List, int))
    requires Valid(l)
    ensures r.0.size == l.size
    ensures l.len == 0 ==> r == (l, 0)
    ensures l.len > 0 ==> r.0.len == l.len - 1 && r.0.order == l.order[1..]
  {
    ValidLinked(l);
    if l.refs[0].None? then (l, 0)
    else (if l.len == 1 then Emptied(l) else DropHead(l), l.nodes[l.refs[0].value].value)
  }

  /** `pop_head` returns the first value and keeps the others in order. */
  lemma PopHeadElems(l: List)
    requires Valid(l) && l.len > 0
    ensures PopHead(l).1 == Elems(l)[0]
    ensures Elems(PopHead(l).0) == Elems(l)[1..]
  {
    ValidLinked(l);
    if l.len >= 2 {
      DropHeadElems(l);
    }
  }

  /** After `pop_head` the list is linked, and valid unless one node is
      left, when the table is `[tail]`. */
  lemma PopHeadValid(l: List)
    requires Valid(l)
    ensures var r := PopHead(l).0;
      && Linked(r)
      && (r.len != 1 ==> Valid(r))
      && (r.len == 1 ==> r.refs == [Some(r.order[0])])
  {
    ValidLinked(l);
    if l.len >= 2 {
      DropHeadValid(l);
    } else if l.len == 1 {
      EmptiedValid(l);
    }
  }

  /** `pop(pos)` strictly inside the list: unlinks the node `at(pos)`
      returns, moves the slots from the first one at or after `pos` onto
      their successors, and runs the shrink step. The successors are read
      while the removed node is still linked; the source reads them after
      `delete node`. */
  function PopInside(l: List, pos: nat): (r: (List, int))
    requires Valid(l) && 0 < pos < l.len - 1
    ensures r.0.size == l.size && r.0.len == l.len - 1
    ensures r.0.order == l.order[..pos] + l.order[pos + 1..]
  {
    var node := At(l, pos).value;
    assert l.nodes[node].prev == Some(l.order[pos - 1]);
    assert l.nodes[node].next == Some(l.order[pos + 1]);
    var before := l.nodes[node].prev.value;
    var after := l.nodes[node].next.value;
    var bypassed := Bypass(l.nodes, before, after);
    var shifted := ShiftForward(bypassed, l.refs, FirstSlotFrom(pos, l.size), |l.refs| - 1);
    (l.(nodes := bypassed - {node}, order := l.order[..pos] + l.order[pos + 1..],
        refs := ShrinkTail(shifted, l.len - 1, l.size), len := l.len - 1),
     l.nodes[node].value)
  }

  /** Removing an inner node returns its value and keeps the others in
      order. */
  lemma PopInsideElems(l: List, pos: nat)
    requires Valid(l) && 0 < pos < l.len - 1
    ensures PopInside(l, pos).1 == Elems(l)[pos]
    ensures Elems(PopInside(l, pos).0) == Elems(l)[..pos] + Elems(l)[pos + 1..]
  {
    var vs := Elems(l);
    RemoveAt(l.order, pos);
    RemoveAt(vs, pos);
    BypassValues(l.nodes, l.order, l.order[..pos] + l.order[pos + 1..], vs[..pos] + vs[pos + 1..], pos);
  }

  /** Removing an inner node keeps the invariant. */
  lemma PopInsideValid(l: List, pos: nat)
    requires Valid(l) && 0 < pos < l.len - 1
    ensures Valid(PopInside(l, pos).0)
  {
    PopInsideChained(l, pos);
    PopInsideTable(l, pos);
  }

  /** Removing an inner node leaves a well-formed chain of the others. */
  lemma PopInsideChained(l: List, pos: nat)
    requires Valid(l) && 0 < pos < l.len - 1
    ensures Chained(PopInside(l, pos).0)
  {
    RemoveAt(l.order, pos);
    BypassIsChain(l.nodes, l.order, l.order[..pos] + l.order[pos + 1..], pos);
  }

  /** Removing an inner node leaves the landmark table of the others. */
  lemma PopInsideTable(l: List, pos: nat)
    requires Valid(l) && 0 < pos < l.len - 1
    ensures IsLandmarkTable(PopInside(l, pos).0.order, PopInside(l, pos).0.refs, l.size)
  {
    BypassTable(l.nodes, l.order, l.refs, l.size, pos);
  }

  /** `pop(pos)`: position 0 is `pop_head` (also on an empty list), the
      last position is `pop_tail`, a position past the end throws from
      `at`, and otherwise the node at `pos` is removed. */
  function Pop(l: List, pos: nat): (r: Result<(List, int)>)
    requires Valid(l)
    ensures r.Err? <==> pos >= l.len && pos != 0
    ensures r.Err? ==> r.error == OutOfRange("pos >= length")
    ensures r.Ok? && l.len == 0 ==> r.value == (l, 0)
    ensures r.Ok? && l.len > 0 ==>
      && r.value.0.size == l.size && r.value.0.len == l.len - 1
      && r.value.0.order == l.order[..pos] + l.order[pos + 1..]
  {
    if pos == 0 then
      var r := PopHead(l);
      assert l.len > 0 ==> l.order[..0] + l.order[1..] == l.order[1..];
      Ok(r)
    else if pos == l.len - 1 then
      var r := PopTail(l);
      assert l.order[..pos] + l.order[pos + 1..] == l.order[..pos];
      Ok(r)
    else if pos >= l.len then
      Err(At(l, pos).error)
    else
      Ok(PopInside(l, pos))
  }

  /** `pop` returns the value at `pos` and keeps the others in order. */
  lemma PopElems(l: List, pos: nat)
    requires Valid(l) && pos < l.len
    ensures Pop(l, pos).Ok?
    ensures Pop(l, pos).value.1 == Elems(l)[pos]
    ensures Elems(Pop(l, pos).value.0) == Elems(l)[..pos] + Elems(l)[pos + 1..]
  {
    var e := Elems(l);
    if pos == 0 {
      PopHeadElems(l);
      assert e[..0] + e[1..] == e[1..];
    } else if pos == l.len - 1 {
      PopTailElems(l);
      assert e[..pos] + e[pos + 1..] == e[..pos];
    } else {
      PopInsideElems(l, pos);
    }
  }

  /** After `pop` the list is linked, and valid unless one node is left. */
  lemma PopValid(l: List, pos: nat)
    requires Valid(l) && (pos < l.len || pos == 0)
    ensures Pop(l, pos).Ok?
    ensures var r := Pop(l, pos).value.0;
      && Linked(r)
      && (r.len != 1 ==> Valid(r))
  {
    if pos == 0 {
      PopHeadValid(l);
    } else if pos == l.len - 1 {
      PopTailValid(l);
    } else {
      PopInsideValid(l, pos);
      ValidLinked(Pop(l, pos).value.0);
    }
  }

  /** The landmark `at(pos)` starts from, and the node it reaches by
      following `next` `pos % size` times. */
  lemma AtWalk(l: List, pos: nat)
    requires Valid(l) && pos < l.len
    ensures pos / l.size < |l.refs| && l.refs[pos / l.size].Some?
    ensures Walk(l.nodes, l.refs[pos / l.size].value, pos % l.size) == Some(l.order[pos])
  {
    LandmarkAt(l.order, l.refs, l.size, pos);
    LandmarkWalk(l.nodes, l.order, l.refs, l.size, pos);
  }

  /** `at(pos)`: throws when `pos` is past the end; otherwise starts from
      the landmark in slot `pos / size` and follows `next` `pos % size`
      times, reaching the node at position `pos`. */
  function At(l: List, pos: nat): (r: Result<Id>)
    requires Valid(l)
    ensures r.Err? <==> pos >= l.len
    ensures r.Err? ==> r.error == OutOfRange("pos >= length")
    ensures r.Ok? ==> r.value == l.order[pos]
  {
    if pos >= l.len then
      Err(OutOfRange("pos >= length"))
    else
      LandmarkAt(l.order, l.refs, l.size, pos);
      Ok(WalkFromSlot(l.nodes, l.order, l.refs, l.size, pos))
  }

  /** `resize(size)`: sets the stride and rebuilds the table by walking
      from the head; the nodes and their order stay. */
  function Resize(l: List, size: nat): (r: List)
    requires Chained(l) && l.len > 0 && |l.refs| >= 1 && l.refs[0] == Some(l.order[0]) && size > 0
    ensures r.nodes == l.nodes && r.order == l.order && r.len == l.len && r.size == size
  {
    l.(refs := Rebuild(l.nodes, l.order, l.refs[0].value, 0, size), size := size)
  }

  /** From two nodes on, `resize` leaves the landmark table for the new
      stride; a single node leaves the one-entry table `[head]`. */
  lemma ResizeValid(l: List, size: nat)
    requires Chained(l) && l.len > 0 && |l.refs| >= 1 && l.refs[0] == Some(l.order[0]) && size > 0
    ensures l.len >= 2 ==> Valid(Resize(l, size))
    ensures l.len == 1 ==> Resize(l, size).refs == [Some(l.order[0])]
  {
    if l.len >= 2 {
      RebuildTable(l.nodes, l.order, size);
    } else {
      RebuildSingle(l.nodes, l.order, size);
    }
  }

  /** After `resize` of a valid list of two or more nodes, `at` finds
      every node where it was before. */
  lemma ResizeAt(l: List, size: nat, pos: nat)
    requires Valid(l) && l.len >= 2 && size > 0
    ensures l.refs[0] == Some(l.order[0])
    ensures Valid(Resize(l, size)) && At(Resize(l, size), pos) == At(l, pos)
  {
    ValidLinked(l);
    ResizeValid(l, size);
  }

  /** How often `v` occurs among the values of `s` is how many nodes of
      `s` hold `v`. */
  lemma {:induction false} CountValues(nodes: map<Id, Node>, s: seq<Id>, v: int)
    ensures Count(Values(nodes, s), v) == |WithKey(s, KeyOf(nodes), v)|
    decreases |s|
  {
    if s != [] {
      assert Values(nodes, s) == [ValueOf(nodes, s[0])] + Values(nodes, s[1..]);
      CountCons(ValueOf(nodes, s[0]), Values(nodes, s[1..]), v);
      CountValues(nodes, s[1..], v);
    }
  }

  /** The merge sort of the chain's nodes by value is a duplicate-free
      rearrangement of them. */
  lemma SortedPermutation(nodes: map<Id, Node>, order: seq<Id>, descending: bool)
    requires IsChain(nodes, order)
    ensures var sorted := MergeSort.Sort(order, KeyOf(nodes), descending);
      && |sorted| == |order| && Distinct(sorted)
      && (forall id :: id in sorted <==> id in order)
      && (forall i :: 0 <= i < |sorted| ==> sorted[i] in nodes)
  {
    var sorted := MergeSort.Sort(order, KeyOf(nodes), descending);
    forall x
      ensures Count(order, x) == Count(sorted, x)
    {
      SortCount(order, KeyOf(nodes), descending, x);
    }
    PermutationDistinct(order, sorted);
    forall i | 0 <= i < |sorted|
      ensures sorted[i] in nodes
    {
      assert sorted[i] in order;
      var j :| 0 <= j < |order| && order[j] == sorted[i];
    }
  }

  /** Relinking the nodes in their sorted order yields a chain with the
      same node values. */
  lemma SortedChain(nodes: map<Id, Node>, order: seq<Id>, descending: bool)
    requires IsChain(nodes, order)
    ensures var sorted := MergeSort.Sort(order, KeyOf(nodes), descending);
      && Distinct(sorted) && (forall i :: 0 <= i < |sorted| ==> sorted[i] in nodes)
      && IsChain(Relink(nodes, sorted, 0), sorted)
      && Values(Relink(nodes, sorted, 0), sorted) == Values(nodes, sorted)
  {
    var sorted := MergeSort.Sort(order, KeyOf(nodes), descending);
    SortedPermutation(nodes, order, descending);
    RelinkIsChain(nodes, sorted);
    ValuesAgree(Relink(nodes, sorted, 0), nodes, sorted);
  }

  /** The values along the sorted nodes are ordered, occur as often as
      before, and the nodes holding any one value keep their order. */
  lemma SortedValues(nodes: map<Id, Node>, order: seq<Id>, descending: bool)
    ensures var sorted := MergeSort.Sort(order, KeyOf(nodes), descending);
      var vs := Values(nodes, sorted);
      && (forall i, j :: 0 <= i < j < |vs| ==> Ordered(descending, vs[i], vs[j]))
      && (forall v :: Count(vs, v) == Count(Values(nodes, order), v))
      && (forall k :: WithKey(sorted, KeyOf(nodes), k) == WithKey(order, KeyOf(nodes), k))
  {
    var key := KeyOf(nodes);
    var sorted := MergeSort.Sort(order, key, descending);
    var vs := Values(nodes, sorted);
    SortSorted(order, key, descending);
    forall i, j | 0 <= i < j < |vs|
      ensures Ordered(descending, vs[i], vs[j])
    {
      assert vs[i] == key(sorted[i]) && vs[j] == key(sorted[j]);
    }
    forall k
      ensures WithKey(sorted, key, k) == WithKey(order, key, k)
    {
      SortStable(order, key, descending, k);
    }
    forall v
      ensures Count(vs, v) == Count(Values(nodes, order), v)
    {
      CountValues(nodes, sorted, v);
      CountValues(nodes, order, v);
    }
  }

  /** `sort(descending)`: merge sorts the nodes by value, relinks them in
      that order, puts the new head in the first slot and calls
      `resize(size)`. The same nodes stay in the list. */
  function Sort(l: List, descending: bool): (r: List)
    requires Chained(l) && l.len > 0 && |l.refs| >= 1 && l.refs[0] == Some(l.order[0])
    ensures r.len == l.len && r.size == l.size
    ensures r.order == MergeSort.Sort(l.order, KeyOf(l.nodes), descending)
  {
    var sorted := MergeSort.Sort(l.order, KeyOf(l.nodes), descending);
    SortedChain(l.nodes, l.order, descending);
    Resize(l.(nodes := Relink(l.nodes, sorted, 0), order := sorted, refs := l.refs[0 := Some(sorted[0])]), l.size)
  }

  /** The values come out ordered (non-decreasing, or non-increasing when
      `descending`), each as often as before, and stably: the nodes holding
      any one value keep their relative order. */
  lemma SortElems(l: List, descending: bool)
    requires Chained(l) && l.len > 0 && |l.refs| >= 1 && l.refs[0] == Some(l.order[0])
    ensures var e := Elems(Sort(l, descending));
      && (forall i, j :: 0 <= i < j < |e| ==> Ordered(descending, e[i], e[j]))
      && (forall v :: Count(e, v) == Count(Elems(l), v))
      && (forall k :: WithKey(Sort(l, descending).order, KeyOf(l.nodes), k) == WithKey(l.order, KeyOf(l.nodes), k))
  {
    SortedChain(l.nodes, l.order, descending);
    SortedValues(l.nodes, l.order, descending);
  }

  /** After `sort` the list holds the same nodes; it is valid from two
      nodes on, and a single node leaves the table `[head]`. */
  lemma SortValid(l: List, descending: bool)
    requires Chained(l) && l.len > 0 && |l.refs| >= 1 && l.refs[0] == Some(l.order[0])
    ensures var r := Sort(l, descending);
      && (forall id :: id in r.order <==> id in l.order)
      && Chained(r)
      && (l.len >= 2 ==> Valid(r))
      && (l.len == 1 ==> r.refs == [Some(l.order[0])])
  {
    var sorted := MergeSort.Sort(l.order, KeyOf(l.nodes), descending);
    SortedPermutation(l.nodes, l.order, descending);
    SortedChain(l.nodes, l.order, descending);
    ResizeValid(l.(nodes := Relink(l.nodes, sorted, 0), order := sorted, refs := l.refs[0 := Some(sorted[0])]), l.size);
    if l.len == 1 {
      assert sorted == l.order;
    }
  }

  /** After `sort` the nodes are in order of the values they now hold. */
  lemma SortedAfterSort(l: List, descending: bool)
    requires Chained(l) && l.len > 0 && |l.refs| >= 1 && l.refs[0] == Some(l.order[0])
    ensures var r := Sort(l, descending);
      SortedBy(r.order, KeyOf(r.nodes), descending)
  {
    var sorted := MergeSort.Sort(l.order, KeyOf(l.nodes), descending);
    SortedPermutation(l.nodes, l.order, descending);
    SortSorted(l.order, KeyOf(l.nodes), descending);
    var nodes := Relink(l.nodes, sorted, 0);
    assert Sort(l, descending).nodes == nodes;
    SortedByAgree(sorted, KeyOf(l.nodes), KeyOf(nodes), descending);
  }

  /** Sorting twice is sorting once: a second `sort` keeps the order of
      nodes and the values the first one produced. */
  lemma SortIdempotent(l: List, descending: bool)
    requires Chained(l) && l.len > 0 && |l.refs| >= 1 && l.refs[0] == Some(l.order[0])
    ensures var r := Sort(l, descending);
      && Chained(r) && |r.refs| >= 1 && r.refs[0] == Some(r.order[0])
      && Sort(r, descending).order == r.order
      && Elems(Sort(r, descending)) == Elems(r)
  {
    var r := Sort(l, descending);
    SortValid(l, descending);
    if l.len >= 2 {
      ValidLinked(r);
    }
    SortedAfterSort(l, descending);
    SortOfSorted(r.order, KeyOf(r.nodes), descending);
    SortedChain(r.nodes, r.order, descending);
  }

  /** Sorting a list whose values are already in order, however it came
      to be so, keeps its order of nodes and its values. */
  lemma SortOfSortedList(l: List, descending: bool)
    requires Chained(l) && l.len > 0 && |l.refs| >= 1 && l.refs[0] == Some(l.order[0])
    requires SortedBy(l.order, KeyOf(l.nodes), descending)
    ensures Sort(l, descending).order == l.order
    ensures Elems(Sort(l, descending)) == Elems(l)
  {
    SortOfSorted(l.order, KeyOf(l.nodes), descending);
    SortedChain(l.nodes, l.order, descending);
    SortElems(l, descending);
    SortValid(l, descending);
  }

  /** `empty`: whether the list has no values. */
  function IsEmpty(l: List): (r: bool)
    requires Chained(l)
    ensures r <==> Elems(l) == []
  {
    l.len == 0
  }

  /** `length`: the number of values. */
  function Length(l: List): (r: nat)
    requires Chained(l)
    ensures r == |Elems(l)|
  {
    l.len
  }

  /** `head`: the first node, or null for an empty list. */
  function Head(l: List): (r: Option<Id>)
    requires Valid(l)
    ensures r.None? <==> Elems(l) == []
    ensures r.Some? ==> r.value == l.order[0]
  {
    TableShape(l.order, l.refs, l.size);
    l.refs[0]
  }

  /** `tail`: the last node, or null for an empty list. */
  function Tail(l: List): (r: Option<Id>)
    requires Valid(l)
    ensures r.None? <==> Elems(l) == []
    ensures r.Some? ==> r.value == l.order[l.len - 1]
  {
    TableShape(l.order, l.refs, l.size);
    l.refs[|l.refs| - 1]
  }

  /** `size`: the stride of the table, which the constructors' `assert`
      keeps positive. */
  function Size(l: List): (r: nat)
    requires Chained(l)
    ensures r > 0
  {
    l.size
  }

  /** Only `resize` changes the stride: pushes, pops and `clear` keep it,
      and `resize(size)` sets it to `size`. */
  lemma SizeKept(l: List, v: int, size: nat)
    requires Valid(l) && size > 0
    ensures Valid(PushTail(l, v).0) && Size(PushTail(l, v).0) == Size(l)
    ensures Valid(PushHead(l, v).0) && Size(PushHead(l, v).0) == Size(l)
    ensures Linked(PopTail(l).0) && Size(PopTail(l).0) == Size(l)
    ensures Linked(PopHead(l).0) && Size(PopHead(l).0) == Size(l)
    ensures Valid(Clear(l)) && Size(Clear(l)) == Size(l)
    ensures l.len > 0 ==> l.refs[0] == Some(l.order[0]) && Size(Resize(l, size)) == size
  {
    ValidLinked(l);
    PushTailValid(l, v);
    PushHeadValid(l, v);
    PopTailValid(l);
    PopHeadValid(l);
    if l.len > 0 {
      ResizeValid(l, size);
    }
  }

  /** `push_tail` of each value in turn: what the constructors from a
      range and the assignments do after `clear`. */
  function PushEach(l: List, vs: seq<int>): (r: List)
    requires Linked(l)
    ensures Linked(r) && r.len == l.len + |vs| && r.size == l.size
    decreases |vs|
  {
    if vs == [] then l
    else
      PushTailLinked(l, vs[0]);
      PushEach(PushTail(l, vs[0]).0, vs[1..])
  }

  /** Pushing each value appends them all in order. */
  lemma {:induction false} PushEachElems(l: List, vs: seq<int>)
    requires Linked(l)
    ensures Elems(PushEach(l, vs)) == Elems(l) + vs
    decreases |vs|
  {
    if vs == [] {
      assert Elems(l) + vs == Elems(l);
    } else {
      var l1 := PushTail(l, vs[0]).0;
      PushTailLinked(l, vs[0]);
      PushTailElems(l, vs[0]);
      PushEachElems(l1, vs[1..]);
      AppendStep(Elems(l), vs);
    }
  }

  /** Appending the first value and then the rest appends them all. */
  lemma AppendStep(e: seq<int>, vs: seq<int>)
    requires vs != []
    ensures (e + [vs[0]]) + vs[1..] == e + vs
  {
    assert [vs[0]] + vs[1..] == vs;
  }

  /** Pushing each value keeps a valid list valid. */
  lemma {:induction false} PushEachValid(l: List, vs: seq<int>)
    requires Valid(l)
    ensures Valid(PushEach(l, vs))
    decreases |vs|
  {
    ValidLinked(l);
    if vs != [] {
      PushTailValid(l, vs[0]);
      PushEachValid(PushTail(l, vs[0]).0, vs[1..]);
    }
  }

  /** `DoublyLinkedList(size, init)` and the range constructors. */
  function FromValues(size: nat, vs: seq<int>): (l: List)
    requires size > 0
    ensures l.size == size && l.len == |vs|
  {
    PushEach(New(size), vs)
  }

  /** The constructed list is valid and holds the given values in order. */
  lemma FromValuesElems(size: nat, vs: seq<int>)
    requires size > 0
    ensures Valid(FromValues(size, vs)) && Elems(FromValues(size, vs)) == vs
  {
    ValidLinked(New(size));
    PushEachElems(New(size), vs);
    PushEachValid(New(size), vs);
  }

  /** `operator=(init)`: clear, then append the values; the stride stays. */
  function AssignValues(l: List, vs: seq<int>): (r: List)
    requires l.size > 0
    ensures r.size == l.size && r.len == |vs|
  {
    PushEach(Clear(l), vs)
  }

  /** After assigning values the list is valid and holds exactly them. */
  lemma AssignValuesElems(l: List, vs: seq<int>)
    requires l.size > 0
    ensures Valid(AssignValues(l, vs)) && Elems(AssignValues(l, vs)) == vs
  {
    ValidLinked(Clear(l));
    PushEachElems(Clear(l), vs);
    PushEachValid(Clear(l), vs);
  }

  /** `operator=(other)` for a distinct `other`: clear, then append the
      values of `other` in forward order; the receiver keeps its stride. */
  function Assign(l: List, other: List): (r: List)
    requires l.size > 0 && Valid(other)
    ensures r.size == l.size && r.len == other.len
  {
    AssignValues(l, Elems(other))
  }

  /** After assignment the receiver is valid and holds the values of
      `other`, whatever the two strides are. */
  lemma AssignElems(l: List, other: List)
    requires l.size > 0 && Valid(other)
    ensures Valid(Assign(l, other)) && Elems(Assign(l, other)) == Elems(other)
  {
    AssignValuesElems(l, Elems(other));
  }
}
