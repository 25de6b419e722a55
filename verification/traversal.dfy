/** Walking the chain through its links: the forward iterators (`begin`,
    `cbegin`, `operator++`), the reverse iterators (`rbegin`, `crbegin`,
    whose `operator++` follows `prev`), and the comparisons built on them. */
module Traversal {
  import opened Wrappers
  import opened Chain
  import opened DoublyLinkedList

  /** The values in reverse order: what reverse iteration should visit. */
  function Reversed(s: seq<int>): (r: seq<int>)
    ensures |r| == |s|
    ensures forall i :: 0 <= i < |s| ==> r[i] == s[|s| - 1 - i]
  {
    if s == [] then [] else Reversed(s[1..]) + [s[0]]
  }

  /** Reversing twice gives the values back. */
  lemma ReversedTwice(s: seq<int>)
    ensures Reversed(Reversed(s)) == s
  {
    var r := Reversed(Reversed(s));
    assert |r| == |s|;
    forall i | 0 <= i < |s|
      ensures r[i] == s[i]
    {
      assert r[i] == Reversed(s)[|s| - 1 - i];
    }
  }

  /** The node the iterator stands on after `i` steps along `next` from
      `begin()`: the node at position `i`, or the null past-the-end. */
  function Cursor(l: List, i: nat): Option<Id> {
    if i < |l.order| then Some(l.order[i]) else None
  }

  /** Iterating from `begin()` with `operator++` until the null `end()`:
      the values collected are exactly those of the chain, head to tail. */
  method Forward(l: List) returns (vs: seq<int>)
    requires Valid(l)
    ensures vs == Elems(l)
  {
    ValidLinked(l);
    var cur := l.refs[0];
    var i := 0;
    vs := [];
    while cur.Some?
      invariant i <= l.len
      invariant cur == Cursor(l, i)
      invariant vs == Elems(l)[..i]
      decreases l.len - i
    {
      var node := l.nodes[cur.value];
      vs := vs + [node.value];
      cur := node.next;
      i := i + 1;
    }
    assert Elems(l)[..i] == Elems(l);
  }

  /** The node the reverse iterator stands on after `i` steps along `prev`
      from `rbegin()`. */
  function BackCursor(l: List, i: nat): Option<Id> {
    if i < |l.order| then Some(l.order[|l.order| - 1 - i]) else None
  }

  /** Iterating from `rbegin()` (the last slot, the tail) with the reverse
      `operator++`, which follows `prev`: the values tail to head. */
  method Backward(l: List) returns (vs: seq<int>)
    requires Linked(l)
    ensures vs == Reversed(Elems(l))
  {
    var cur := l.refs[|l.refs| - 1];
    var i := 0;
    vs := [];
    while cur.Some?
      invariant i <= l.len
      invariant cur == BackCursor(l, i)
      invariant vs == Reversed(Elems(l))[..i]
      decreases l.len - i
    {
      var node := l.nodes[cur.value];
      vs := vs + [node.value];
      cur := node.prev;
      i := i + 1;
    }
    assert Reversed(Elems(l))[..i] == Reversed(Elems(l));
  }

  /** Forward and reverse iteration visit the same values in opposite
      orders. */
  method BothWays(l: List) returns (fwd: seq<int>, bwd: seq<int>)
    requires Valid(l)
    ensures fwd == Reversed(bwd) && bwd == Reversed(fwd)
  {
    ValidLinked(l);
    fwd := Forward(l);
    bwd := Backward(l);
    ReversedTwice(fwd);
  }

  /** `operator==`: different lengths compare unequal at once; otherwise
      both lists are walked together from their heads and the first pair
      of different values decides. The strides and the landmark tables
      play no part: equal exactly when the value sequences are equal. */
  method Equal(a: List, b: List) returns (eq: bool)
    requires Valid(a) && Valid(b)
    ensures eq <==> Elems(a) == Elems(b)
  {
    if a.len != b.len {
      return false;
    }
    ValidLinked(a);
    ValidLinked(b);
    var it1, it2 := a.refs[0], b.refs[0];
    var i := 0;
    while it1.Some?
      invariant i <= a.len
      invariant it1 == Cursor(a, i) && it2 == Cursor(b, i)
      invariant forall k :: 0 <= k < i ==> Elems(a)[k] == Elems(b)[k]
      decreases a.len - i
    {
      if a.nodes[it1.value].value != b.nodes[it2.value].value {
        assert Elems(a)[i] != Elems(b)[i];
        return false;
      }
      it1, it2 := a.nodes[it1.value].next, b.nodes[it2.value].next;
      i := i + 1;
    }
    return true;
  }

  /** `operator!=`: the negation of `operator==`. */
  method NotEqual(a: List, b: List) returns (ne: bool)
    requires Valid(a) && Valid(b)
    ensures ne <==> Elems(a) != Elems(b)
  {
    var eq := Equal(a, b);
    ne := !eq;
  }

  /** Lists built from the same values with different strides compare
      equal: the stride shapes the table, never the contents. */
  method EqualAcrossStrides(s1: nat, s2: nat, vs: seq<int>) returns (eq: bool)
    requires s1 > 0 && s2 > 0
    ensures eq
  {
    var a := FromValues(s1, vs);
    var b := FromValues(s2, vs);
    FromValuesElems(s1, vs);
    FromValuesElems(s2, vs);
    eq := Equal(a, b);
  }

  /** Resizing a list of two or more nodes leaves it equal to what it was.
      On one node `resize` leaves the one-entry table `[head]`, which is not
      a valid table, so `Equal` is not stated there. */
  method EqualAfterResize(l: List, size: nat) returns (eq: bool)
    requires Valid(l) && l.len >= 2 && size > 0
    ensures eq
  {
    ValidLinked(l);
    var r := Resize(l, size);
    ResizeValid(l, size);
    eq := Equal(l, r);
  }
}
