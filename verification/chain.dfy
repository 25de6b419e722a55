/** The node chain of the list, kept in an arena: every live node has an
    identifier, and `prev`/`next` are identifiers instead of pointers. */
module Chain {
  import opened Wrappers
  import opened MergeSort

  /** Identifier of a node in the arena (the model's stand-in for `Node*`). */
  type Id = nat

  /** One element of the chain, with its back and forward links. */
  datatype Node = Node(prev: Option<Id>, value: int, next: Option<Id>)

  predicate Distinct(s: seq<Id>) {
    forall i, j :: 0 <= i < j < |s| ==> s[i] != s[j]
  }

  /** The link expected before position `i` of `order`. */
  function PrevIn(order: seq<Id>, i: nat): Option<Id>
    requires i < |order|
  {
    if i == 0 then None else Some(order[i - 1])
  }

  /** The link expected after position `i` of `order`. */
  function NextIn(order: seq<Id>, i: nat): Option<Id>
    requires i < |order|
  {
    if i == |order| - 1 then None else Some(order[i + 1])
  }

  /** `order` lists, head first, distinct live nodes whose `prev` and
      `next` links agree with their neighbours in `order`: a well-formed
      doubly linked chain. */
  predicate IsChain(nodes: map<Id, Node>, order: seq<Id>) {
    && (forall i :: 0 <= i < |order| ==> order[i] in nodes)
    && Distinct(order)
    && (|order| > 0 ==> nodes[order[0]].prev == None && nodes[order[|order| - 1]].next == None)
    && (forall i :: 0 < i < |order| ==> nodes[order[i]].prev == Some(order[i - 1]))
    && (forall i :: 0 <= i < |order| - 1 ==> nodes[order[i]].next == Some(order[i + 1]))
  }

  function ValueOf(nodes: map<Id, Node>, id: Id): int {
    if id in nodes then nodes[id].value else 0
  }

  /** The values held by `ids`, in order. */
  function Values(nodes: map<Id, Node>, ids: seq<Id>): (r: seq<int>)
    ensures |r| == |ids|
    ensures forall i :: 0 <= i < |ids| ==> r[i] == ValueOf(nodes, ids[i])
  {
    if ids == [] then [] else [ValueOf(nodes, ids[0])] + Values(nodes, ids[1..])
  }

  /** The value of a node seen as a sort key. */
  function KeyOf(nodes: map<Id, Node>): Id -> int {
    (id: Id) => ValueOf(nodes, id)
  }

  /** Follows `next` links `steps` times from `from`; `None` when a link
      is missing on the way. */
  function Walk(nodes: map<Id, Node>, from: Id, steps: nat): Option<Id>
    decreases steps
  {
    if steps == 0 then Some(from)
    else if from in nodes && nodes[from].next.Some? then Walk(nodes, nodes[from].next.value, steps - 1)
    else None
  }

  /** Walking a chain `k` links from position `i` reaches position `i + k`. */
  lemma {:induction false} WalkAlong(nodes: map<Id, Node>, order: seq<Id>, i: nat, k: nat)
    requires IsChain(nodes, order) && i + k < |order|
    ensures Walk(nodes, order[i], k) == Some(order[i + k])
    decreases k
  {
    if k > 0 {
      assert nodes[order[i]].next == Some(order[i + 1]);
      WalkAlong(nodes, order, i + 1, k - 1);
    }
  }

  /** A sequence holding the value of each node of `ids` is their values. */
  lemma ValuesAre(nodes: map<Id, Node>, ids: seq<Id>, w: seq<int>)
    requires |w| == |ids| && forall i :: 0 <= i < |ids| ==> w[i] == ValueOf(nodes, ids[i])
    ensures Values(nodes, ids) == w
  {
  }

  /** Sequences of values agree when every node's value agrees. */
  lemma ValuesAgree(a: map<Id, Node>, b: map<Id, Node>, ids: seq<Id>)
    requires forall i :: 0 <= i < |ids| ==> ValueOf(a, ids[i]) == ValueOf(b, ids[i])
    ensures Values(a, ids) == Values(b, ids)
  {
    ValuesAre(a, ids, Values(b, ids));
  }

  /** `push_tail` on a non-empty chain: the tail links forward to the new
      node `id`, which links back to it. */
  function LinkAfter(nodes: map<Id, Node>, tail: Id, id: Id, v: int): map<Id, Node>
    requires tail in nodes
  {
    nodes[tail := nodes[tail].(next := Some(id))][id := Node(Some(tail), v, None)]
  }

  /** `push_head` on a non-empty chain: the head links back to the new
      node `id`, which links forward to it. */
  function LinkBefore(nodes: map<Id, Node>, head: Id, id: Id, v: int): map<Id, Node>
    requires head in nodes
  {
    nodes[head := nodes[head].(prev := Some(id))][id := Node(None, v, Some(head))]
  }

  /** `insert` inside the chain: `a` and `b` are neighbours and the new
      node `id` goes between them. */
  function LinkBetween(nodes: map<Id, Node>, a: Id, b: Id, id: Id, v: int): map<Id, Node>
    requires a in nodes && b in nodes
  {
    nodes[a := nodes[a].(next := Some(id))][b := nodes[b].(prev := Some(id))]
      [id := Node(Some(a), v, Some(b))]
  }

  /** `pop_tail` from two nodes on: the node before the tail becomes the
      last one and the tail is freed. */
  function UnlinkTail(nodes: map<Id, Node>, before: Id, tail: Id): map<Id, Node>
    requires before in nodes
  {
    (nodes - {tail})[before := nodes[before].(next := None)]
  }

  /** `pop_head` from two nodes on: the node after the head becomes the
      first one and the head is freed. */
  function UnlinkHead(nodes: map<Id, Node>, head: Id, after: Id): map<Id, Node>
    requires after in nodes
  {
    (nodes - {head})[after := nodes[after].(prev := None)]
  }

  /** `pop` inside the chain: the neighbours `a` and `b` of the removed node
      are linked to each other; the removed node itself is still present. */
  function Bypass(nodes: map<Id, Node>, a: Id, b: Id): map<Id, Node>
    requires a in nodes && b in nodes
  {
    nodes[a := nodes[a].(next := Some(b))][b := nodes[b].(prev := Some(a))]
  }

  /** `o` is `s` with `x` inserted at `pos`, position by position. */
  ghost predicate InsertedAt<X>(o: seq<X>, s: seq<X>, pos: nat, x: X) {
    && pos <= |s| && |o| == |s| + 1 && o[pos] == x
    && (forall k :: 0 <= k < pos ==> o[k] == s[k])
    && (forall k :: pos <= k < |s| ==> o[k + 1] == s[k])
  }

  /** The positions of `s[..pos] + [x] + s[pos..]`. */
  lemma InsertAt<X>(s: seq<X>, pos: nat, x: X)
    requires pos <= |s|
    ensures InsertedAt(s[..pos] + [x] + s[pos..], s, pos, x)
  {
  }

  /** `o` is `s` without its element at `pos`, position by position. */
  ghost predicate RemovedAt<X>(o: seq<X>, s: seq<X>, pos: nat) {
    && pos < |s| && |o| == |s| - 1
    && (forall k :: 0 <= k < pos ==> o[k] == s[k])
    && (forall k :: pos <= k < |o| ==> o[k] == s[k + 1])
  }

  /** The positions of `s[..pos] + s[pos + 1..]`. */
  lemma RemoveAt<X>(s: seq<X>, pos: nat)
    requires pos < |s|
    ensures RemovedAt(s[..pos] + s[pos + 1..], s, pos)
  {
  }

  /** Appending a fresh node keeps a chain. */
  lemma LinkAfterIsChain(nodes: map<Id, Node>, order: seq<Id>, id: Id, v: int)
    requires IsChain(nodes, order) && |order| > 0 && id !in nodes
    ensures IsChain(LinkAfter(nodes, order[|order| - 1], id, v), order + [id])
  {
    var n := |order|;
    var r := LinkAfter(nodes, order[n - 1], id, v);
    var o := order + [id];
    forall i | 0 < i < |o|
      ensures r[o[i]].prev == Some(o[i - 1])
    {
      if i < n {
        assert o[i] == order[i] && o[i - 1] == order[i - 1];
      }
    }
    forall i | 0 <= i < |o| - 1
      ensures r[o[i]].next == Some(o[i + 1])
    {
      assert o[i] == order[i];
      if i < n - 1 {
        assert order[i] != order[n - 1];
      }
    }
    assert Distinct(o) by {
      forall i, j | 0 <= i < j < |o|
        ensures o[i] != o[j]
      {
        if j < n {
          assert o[i] == order[i] && o[j] == order[j];
        }
      }
    }
  }

  /** Appending a fresh node appends its value. */
  lemma LinkAfterValues(nodes: map<Id, Node>, order: seq<Id>, id: Id, v: int)
    requires IsChain(nodes, order) && |order| > 0 && id !in nodes
    ensures Values(LinkAfter(nodes, order[|order| - 1], id, v), order + [id]) == Values(nodes, order) + [v]
  {
    var r := LinkAfter(nodes, order[|order| - 1], id, v);
    var o := order + [id];
    var w := Values(nodes, order) + [v];
    forall k | 0 <= k < |o|
      ensures w[k] == ValueOf(r, o[k])
    {
      if k < |order| {
        assert o[k] == order[k] && w[k] == ValueOf(nodes, order[k]);
      }
    }
    ValuesAre(r, o, w);
  }

  /** Prepending a fresh node keeps a chain. */
  lemma LinkBeforeIsChain(nodes: map<Id, Node>, order: seq<Id>, id: Id, v: int)
    requires IsChain(nodes, order) && |order| > 0 && id !in nodes
    ensures IsChain(LinkBefore(nodes, order[0], id, v), [id] + order)
  {
    var r := LinkBefore(nodes, order[0], id, v);
    var o := [id] + order;
    forall i | 0 < i < |o|
      ensures r[o[i]].prev == Some(o[i - 1])
    {
      assert o[i] == order[i - 1];
      if i > 1 {
        assert order[i - 1] != order[0];
      }
    }
    forall i | 0 <= i < |o| - 1
      ensures r[o[i]].next == Some(o[i + 1])
    {
      assert o[i + 1] == order[i];
      if i > 0 {
        assert o[i] == order[i - 1];
      }
    }
    assert Distinct(o) by {
      forall i, j | 0 <= i < j < |o|
        ensures o[i] != o[j]
      {
        if i > 0 {
          assert o[i] == order[i - 1] && o[j] == order[j - 1];
        }
      }
    }
  }

  /** Prepending a fresh node prepends its value. */
  lemma LinkBeforeValues(nodes: map<Id, Node>, order: seq<Id>, id: Id, v: int)
    requires IsChain(nodes, order) && |order| > 0 && id !in nodes
    ensures Values(LinkBefore(nodes, order[0], id, v), [id] + order) == [v] + Values(nodes, order)
  {
    var r := LinkBefore(nodes, order[0], id, v);
    var o := [id] + order;
    var w := [v] + Values(nodes, order);
    forall k | 0 <= k < |o|
      ensures w[k] == ValueOf(r, o[k])
    {
      if k > 0 {
        assert o[k] == order[k - 1] && w[k] == ValueOf(nodes, order[k - 1]);
      }
    }
    ValuesAre(r, o, w);
  }

  /** Inserting a fresh node between positions `pos - 1` and `pos` keeps
      a chain. */
  lemma LinkBetweenIsChain(nodes: map<Id, Node>, order: seq<Id>, o: seq<Id>, pos: nat, id: Id, v: int)
    requires IsChain(nodes, order) && 0 < pos < |order| && id !in nodes
    requires InsertedAt(o, order, pos, id)
    ensures IsChain(LinkBetween(nodes, order[pos - 1], order[pos], id, v), o)
  {
    LinkBetweenLinks(nodes, order, o, pos, id, v);
    LinkBetweenDistinct(nodes, order, o, pos, id);
  }

  /** The links after inserting between `pos - 1` and `pos`, one by one. */
  lemma LinkBetweenLinks(nodes: map<Id, Node>, order: seq<Id>, o: seq<Id>, pos: nat, id: Id, v: int)
    requires IsChain(nodes, order) && 0 < pos < |order| && id !in nodes
    requires InsertedAt(o, order, pos, id)
    ensures var r := LinkBetween(nodes, order[pos - 1], order[pos], id, v);
      && (forall k :: 0 <= k < |o| ==> o[k] in r)
      && (|o| > 0 ==> r[o[0]].prev == None && r[o[|o| - 1]].next == None)
      && (forall i :: 0 < i < |o| ==> r[o[i]].prev == Some(o[i - 1]))
      && (forall i :: 0 <= i < |o| - 1 ==> r[o[i]].next == Some(o[i + 1]))
  {
    var r := LinkBetween(nodes, order[pos - 1], order[pos], id, v);
    forall k | 0 <= k < |o|
      ensures o[k] in r
    {
      if k < pos {
        assert o[k] == order[k];
      } else if k > pos {
        assert o[k] == order[k - 1];
      }
    }
    assert o[|o| - 1] == order[|order| - 1];
    forall i | 0 < i < |o|
      ensures r[o[i]].prev == Some(o[i - 1])
    {
      if i < pos {
        assert o[i] == order[i] && o[i - 1] == order[i - 1];
      } else if i > pos + 1 {
        assert o[i] == order[i - 1] && o[i - 1] == order[i - 2];
        assert order[i - 1] != order[pos - 1];
      }
    }
    forall i | 0 <= i < |o| - 1
      ensures r[o[i]].next == Some(o[i + 1])
    {
      if i < pos - 1 {
        assert o[i] == order[i] && o[i + 1] == order[i + 1];
        assert order[i] != order[pos];
      } else if i > pos {
        assert o[i] == order[i - 1] && o[i + 1] == order[i];
      }
    }
  }

  /** A fresh identifier inserted into a chain's order keeps it duplicate
      free. */
  lemma LinkBetweenDistinct(nodes: map<Id, Node>, order: seq<Id>, o: seq<Id>, pos: nat, id: Id)
    requires IsChain(nodes, order) && id !in nodes
    requires InsertedAt(o, order, pos, id)
    ensures Distinct(o)
  {
    forall i, j | 0 <= i < j < |o|
      ensures o[i] != o[j]
    {
      var i' := if i < pos then i else i - 1;
      var j' := if j < pos then j else j - 1;
      if i != pos && j != pos {
        assert o[i] == order[i'] && o[j] == order[j'];
      } else if i == pos {
        assert o[j] == order[j'];
      } else {
        assert o[i] == order[i'];
      }
    }
  }

  /** Inserting a fresh node at `pos` inserts its value at `pos`. */
  lemma LinkBetweenValues(nodes: map<Id, Node>, order: seq<Id>, o: seq<Id>, w: seq<int>, pos: nat, id: Id, v: int)
    requires IsChain(nodes, order) && 0 < pos < |order| && id !in nodes
    requires InsertedAt(o, order, pos, id) && InsertedAt(w, Values(nodes, order), pos, v)
    ensures Values(LinkBetween(nodes, order[pos - 1], order[pos], id, v), o) == w
  {
    var r := LinkBetween(nodes, order[pos - 1], order[pos], id, v);
    var vs := Values(nodes, order);
    forall k | 0 <= k < |o|
      ensures w[k] == ValueOf(r, o[k])
    {
      if k < pos {
        assert o[k] == order[k] && w[k] == vs[k];
      } else if k > pos {
        assert o[k] == order[k - 1] && w[k] == vs[k - 1];
      }
    }
    ValuesAre(r, o, w);
  }

  /** Removing the last of at least two nodes keeps a chain of the rest. */
  lemma UnlinkTailIsChain(nodes: map<Id, Node>, order: seq<Id>)
    requires IsChain(nodes, order) && |order| >= 2
    ensures var n := |order|;
      IsChain(UnlinkTail(nodes, order[n - 2], order[n - 1]), order[..n - 1])
  {
    var n := |order|;
    var r := UnlinkTail(nodes, order[n - 2], order[n - 1]);
    var o := order[..n - 1];
    forall k | 0 <= k < |o|
      ensures o[k] in r
      ensures k < n - 2 ==> r[o[k]] == nodes[o[k]]
    {
      assert o[k] != order[n - 1];
    }
  }

  /** Removing the last node drops the last value. */
  lemma UnlinkTailValues(nodes: map<Id, Node>, order: seq<Id>)
    requires IsChain(nodes, order) && |order| >= 2
    ensures var n := |order|;
      Values(UnlinkTail(nodes, order[n - 2], order[n - 1]), order[..n - 1]) == Values(nodes, order)[..n - 1]
  {
    var n := |order|;
    var r := UnlinkTail(nodes, order[n - 2], order[n - 1]);
    var o := order[..n - 1];
    var w := Values(nodes, order)[..n - 1];
    forall k | 0 <= k < |o|
      ensures w[k] == ValueOf(r, o[k])
    {
      assert o[k] == order[k] != order[n - 1];
    }
    ValuesAre(r, o, w);
  }

  /** Removing the first of at least two nodes keeps a chain of the rest,
      and the nodes left keep their successors. */
  lemma UnlinkHeadIsChain(nodes: map<Id, Node>, order: seq<Id>)
    requires IsChain(nodes, order) && |order| >= 2
    ensures var r := UnlinkHead(nodes, order[0], order[1]);
      && IsChain(r, order[1..])
      && forall k :: 1 <= k < |order| ==> order[k] in r && r[order[k]].next == nodes[order[k]].next
  {
    var r := UnlinkHead(nodes, order[0], order[1]);
    var o := order[1..];
    forall k | 1 <= k < |order|
      ensures order[k] in r && r[order[k]].next == nodes[order[k]].next
      ensures k > 1 ==> r[order[k]] == nodes[order[k]]
    {
      assert order[k] != order[0];
    }
    forall i | 0 < i < |o|
      ensures r[o[i]].prev == Some(o[i - 1])
    {
      assert o[i] == order[i + 1];
    }
    forall i | 0 <= i < |o| - 1
      ensures r[o[i]].next == Some(o[i + 1])
    {
      assert o[i] == order[i + 1];
    }
    assert Distinct(o) by {
      forall i, j | 0 <= i < j < |o|
        ensures o[i] != o[j]
      {
        assert o[i] == order[i + 1] && o[j] == order[j + 1];
      }
    }
  }

  /** Removing the first node drops the first value. */
  lemma UnlinkHeadValues(nodes: map<Id, Node>, order: seq<Id>)
    requires IsChain(nodes, order) && |order| >= 2
    ensures Values(UnlinkHead(nodes, order[0], order[1]), order[1..]) == Values(nodes, order)[1..]
  {
    var r := UnlinkHead(nodes, order[0], order[1]);
    var o := order[1..];
    var w := Values(nodes, order)[1..];
    forall k | 0 <= k < |o|
      ensures w[k] == ValueOf(r, o[k])
    {
      assert o[k] == order[k + 1] != order[0];
    }
    ValuesAre(r, o, w);
  }

  /** What `Bypass` changes: only the links between the neighbours. */
  lemma BypassLinks(nodes: map<Id, Node>, order: seq<Id>, pos: nat)
    requires IsChain(nodes, order) && 0 < pos < |order| - 1
    ensures var b := Bypass(nodes, order[pos - 1], order[pos + 1]);
      forall k :: 0 <= k < |order| ==>
        && order[k] in b && b[order[k]].value == nodes[order[k]].value
        && (k != pos - 1 ==> b[order[k]].next == nodes[order[k]].next)
        && (k != pos + 1 ==> b[order[k]].prev == nodes[order[k]].prev)
  {
  }

  /** Linking the neighbours of an inner node to each other and freeing it
      keeps a chain of the rest. */
  lemma BypassIsChain(nodes: map<Id, Node>, order: seq<Id>, o: seq<Id>, pos: nat)
    requires IsChain(nodes, order) && 0 < pos < |order| - 1
    requires RemovedAt(o, order, pos)
    ensures IsChain(Bypass(nodes, order[pos - 1], order[pos + 1]) - {order[pos]}, o)
  {
    var b := Bypass(nodes, order[pos - 1], order[pos + 1]);
    var r := b - {order[pos]};
    BypassLinks(nodes, order, pos);
    forall k | 0 <= k < |o|
      ensures o[k] in r && r[o[k]] == b[o[k]]
    {
      if k < pos {
        assert o[k] == order[k];
      } else {
        assert o[k] == order[k + 1];
      }
    }
    forall i | 0 < i < |o|
      ensures r[o[i]].prev == Some(o[i - 1])
    {
      if i < pos {
        assert o[i] == order[i] && o[i - 1] == order[i - 1];
      } else if i > pos {
        assert o[i] == order[i + 1] && o[i - 1] == order[i];
      } else {
        assert o[i] == order[pos + 1] && o[i - 1] == order[pos - 1];
      }
    }
    forall i | 0 <= i < |o| - 1
      ensures r[o[i]].next == Some(o[i + 1])
    {
      if i < pos - 1 {
        assert o[i] == order[i] && o[i + 1] == order[i + 1];
      } else if i >= pos {
        assert o[i] == order[i + 1] && o[i + 1] == order[i + 2];
      } else {
        assert o[i] == order[pos - 1] && o[i + 1] == order[pos + 1];
      }
    }
    assert o[0] == order[0] && o[|o| - 1] == order[|order| - 1];
    assert Distinct(o) by {
      forall i, j | 0 <= i < j < |o|
        ensures o[i] != o[j]
      {
        var i' := if i < pos then i else i + 1;
        var j' := if j < pos then j else j + 1;
        assert o[i] == order[i'] && o[j] == order[j'];
      }
    }
  }

  /** Bypassing and freeing an inner node drops its value. */
  lemma BypassValues(nodes: map<Id, Node>, order: seq<Id>, o: seq<Id>, w: seq<int>, pos: nat)
    requires IsChain(nodes, order) && 0 < pos < |order| - 1
    requires RemovedAt(o, order, pos) && RemovedAt(w, Values(nodes, order), pos)
    ensures Values(Bypass(nodes, order[pos - 1], order[pos + 1]) - {order[pos]}, o) == w
  {
    var r := Bypass(nodes, order[pos - 1], order[pos + 1]) - {order[pos]};
    var vs := Values(nodes, order);
    BypassLinks(nodes, order, pos);
    forall k | 0 <= k < |o|
      ensures w[k] == ValueOf(r, o[k])
    {
      if k < pos {
        assert o[k] == order[k] && w[k] == vs[k];
      } else {
        assert o[k] == order[k + 1] && w[k] == vs[k + 1];
      }
    }
    ValuesAre(r, o, w);
  }

  /** Rewrites the links of `order[from..]` so that they follow `order`
      (values untouched): what relinking the sorted nodes achieves. */
  function Relink(nodes: map<Id, Node>, order: seq<Id>, from: nat): (r: map<Id, Node>)
    requires from <= |order| && Distinct(order)
    requires forall i :: 0 <= i < |order| ==> order[i] in nodes
    ensures r.Keys == nodes.Keys
    ensures forall id :: ValueOf(r, id) == ValueOf(nodes, id)
    ensures forall j :: from <= j < |order| ==>
              r[order[j]].prev == PrevIn(order, j) && r[order[j]].next == NextIn(order, j)
    ensures forall j :: 0 <= j < from ==> r[order[j]] == nodes[order[j]]
    decreases |order| - from
  {
    if from == |order| then nodes
    else
      var id := order[from];
      var nodes' := nodes[id := Node(PrevIn(order, from), nodes[id].value, NextIn(order, from))];
      var r := Relink(nodes', order, from + 1);
      assert r[id] == nodes'[id];
      r
  }

  /** Relinking along a distinct sequence of live nodes yields a chain. */
  lemma RelinkIsChain(nodes: map<Id, Node>, order: seq<Id>)
    requires Distinct(order)
    requires forall i :: 0 <= i < |order| ==> order[i] in nodes
    ensures IsChain(Relink(nodes, order, 0), order)
  {
    var r := Relink(nodes, order, 0);
    forall i | 0 < i < |order|
      ensures r[order[i]].prev == Some(order[i - 1])
    {
      assert r[order[i]].prev == PrevIn(order, i);
    }
    forall i | 0 <= i < |order| - 1
      ensures r[order[i]].next == Some(order[i + 1])
    {
      assert r[order[i]].next == NextIn(order, i);
    }
    if |order| > 0 {
      assert r[order[0]].prev == PrevIn(order, 0);
      assert r[order[|order| - 1]].next == NextIn(order, |order| - 1);
    }
  }

  /** An element found at two positions is counted at least twice. */
  lemma {:induction false} CountTwice(s: seq<Id>, i: nat, j: nat)
    requires i < j < |s| && s[i] == s[j]
    ensures Count(s, s[i]) >= 2
    decreases i
  {
    assert s == [s[0]] + s[1..];
    CountCons(s[0], s[1..], s[i]);
    if i == 0 {
      assert s[1..][j - 1] == s[i];
      CountMember(s[1..], s[i]);
    } else {
      assert s[1..][i - 1] == s[i] && s[1..][j - 1] == s[j];
      CountTwice(s[1..], i - 1, j - 1);
    }
  }

  /** In a duplicate-free sequence every element occurs at most once. */
  lemma {:induction false} DistinctCount(s: seq<Id>, x: Id)
    requires Distinct(s)
    ensures Count(s, x) <= 1
    decreases |s|
  {
    if s != [] {
      assert s == [s[0]] + s[1..];
      CountCons(s[0], s[1..], x);
      assert Distinct(s[1..]) by {
        forall i, j | 0 <= i < j < |s| - 1
          ensures s[1..][i] != s[1..][j]
        {
          assert s[1..][i] == s[i + 1] && s[1..][j] == s[j + 1];
        }
      }
      DistinctCount(s[1..], x);
      if s[0] == x {
        assert x !in s[1..];
        CountMember(s[1..], x);
      }
    }
  }

  /** A permutation of a duplicate-free sequence is duplicate free and
      holds the same elements. */
  lemma PermutationDistinct(a: seq<Id>, b: seq<Id>)
    requires Distinct(a) && forall x :: Count(a, x) == Count(b, x)
    ensures Distinct(b)
    ensures forall x :: x in b <==> x in a
  {
    forall i, j | 0 <= i < j < |b|
      ensures b[i] != b[j]
    {
      if b[i] == b[j] {
        CountTwice(b, i, j);
        DistinctCount(a, b[i]);
        assert false;
      }
    }
    forall x
      ensures x in b <==> x in a
    {
      CountMember(a, x);
      CountMember(b, x);
    }
  }
}
