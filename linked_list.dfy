// The kernel's intrusive doubly linked list (src/utils/linked_list.c).
//
// A list header holds `head`, `tail` and `size`; every node carries a payload
// pointer and its own `prev`/`next` links.  The abstract value of a list is
// the ghost sequence `Nodes` of its nodes from head to tail; `Valid()` ties
// every link of the header and of the nodes to that sequence.

module LinkedList {

  /** Position of `x` in `s`; the first one, and the only one when `s` has no duplicates. */
  ghost function IndexOf<X>(s: seq<X>, x: X): (k: nat)
    requires x in s
    ensures k < |s| && s[k] == x
    ensures forall j :: 0 <= j < k ==> s[j] != x
  {
    if s[0] == x then 0 else 1 + IndexOf(s[1..], x)
  }

  /** Sequence effect of inserting `x` right after position `k` (`k == -1`: in front). */
  function InsertAfter<X>(s: seq<X>, k: int, x: X): (r: seq<X>)
    requires -1 <= k < |s|
  {
    seq(|s| + 1, i requires 0 <= i <= |s| => if i <= k then s[i] else if i == k + 1 then x else s[i - 1])
  }

  /** Sequence effect of deleting position `k`. */
  function RemoveAt<X>(s: seq<X>, k: int): (r: seq<X>)
    requires 0 <= k < |s|
  {
    seq(|s| - 1, i requires 0 <= i < |s| - 1 => if i < k then s[i] else s[i + 1])
  }

  /** The first and last elements after inserting behind position `k`. */
  lemma InsertAfterEnds<X>(s: seq<X>, k: int, x: X)
    requires -1 <= k < |s|
    ensures |InsertAfter(s, k, x)| == |s| + 1
    ensures InsertAfter(s, k, x)[0] == (if k < 0 then x else s[0])
    ensures InsertAfter(s, k, x)[|s|] == (if k + 1 < |s| then s[|s| - 1] else x)
  {
  }

  /** Sequence effect of linked_list_insert_to_head, which passes the current
      head as the predecessor: the node becomes the head only of an empty list
      and otherwise lands right behind the head. */
  function InsertedToHead<X>(s: seq<X>, x: X): (r: seq<X>)
  {
    if s == [] then [x] else InsertAfter(s, 0, x)
  }

  /** Inserting splices `x` in between the first `k + 1` elements and the
      rest, so it adds exactly one occurrence of `x` and keeps everything else. */
  lemma {:induction false} InsertAfterSplice<X>(s: seq<X>, k: int, x: X)
    requires -1 <= k < |s|
    ensures InsertAfter(s, k, x) == s[..k + 1] + [x] + s[k + 1..]
    ensures multiset(InsertAfter(s, k, x)) == multiset(s) + multiset{x}
  {
    var r := InsertAfter(s, k, x);
    assert r == s[..k + 1] + [x] + s[k + 1..] by {
      forall i | 0 <= i < |r| ensures r[i] == (s[..k + 1] + [x] + s[k + 1..])[i] {
        if i > k + 1 {
          assert (s[..k + 1] + [x] + s[k + 1..])[i] == s[k + 1..][i - k - 2];
        }
      }
    }
    assert s == s[..k + 1] + s[k + 1..];
  }

  /** Removing joins the elements before and after position `k`, so it drops
      exactly one occurrence of `s[k]`. */
  lemma {:induction false} RemoveAtSplice<X>(s: seq<X>, k: int)
    requires 0 <= k < |s|
    ensures RemoveAt(s, k) == s[..k] + s[k + 1..]
    ensures multiset(RemoveAt(s, k)) + multiset{s[k]} == multiset(s)
  {
    var r := RemoveAt(s, k);
    assert r == s[..k] + s[k + 1..] by {
      forall i | 0 <= i < |r| ensures r[i] == (s[..k] + s[k + 1..])[i] {
        if i >= k {
          assert (s[..k] + s[k + 1..])[i] == s[k + 1..][i - k];
        }
      }
    }
    assert s == s[..k] + [s[k]] + s[k + 1..];
  }

  /** Insert-to-head keeps every element and adds `x` once; `x` is the head
      exactly when the list was empty, and otherwise lands at position 1. */
  lemma InsertedToHeadShape<X>(s: seq<X>, x: X)
    ensures multiset(InsertedToHead(s, x)) == multiset(s) + multiset{x}
    ensures |InsertedToHead(s, x)| == |s| + 1
    ensures s == [] ==> InsertedToHead(s, x) == [x]
    ensures s != [] ==> InsertedToHead(s, x)[0] == s[0] && InsertedToHead(s, x)[1] == x
  {
    if s != [] {
      InsertAfterSplice(s, 0, x);
    }
  }

  /** No node occurs twice (stated element by element, so that a proof
      unfolds it only as far as it needs). */
  ghost predicate Distinct<X>(s: seq<X>)
  {
    |s| == 0 || (s[0] !in s[1..] && Distinct(s[1..]))
  }

  /** No two positions hold the same element. */
  ghost predicate Injective<X>(s: seq<X>)
  {
    forall i, j :: 0 <= i < j < |s| ==> s[i] != s[j]
  }

  lemma {:induction false} DistinctInjective<X>(s: seq<X>)
    ensures Distinct(s) <==> Injective(s)
  {
    if |s| > 0 {
      var t := s[1..];
      DistinctInjective(t);
      if Injective(s) {
        forall i, j | 0 <= i < j < |t| ensures t[i] != t[j] {
          assert t[i] == s[i + 1] && t[j] == s[j + 1];
        }
        forall j | 0 <= j < |t| ensures t[j] != s[0] {
          assert t[j] == s[j + 1];
        }
      }
      if Distinct(s) {
        forall i, j | 0 <= i < j < |s| ensures s[i] != s[j] {
          assert s[j] == t[j - 1];
          if i > 0 { assert s[i] == t[i - 1]; }
        }
      }
    }
  }

  /** In a list without duplicates, the element at `k` occurs nowhere else. */
  lemma DistinctAt<X>(s: seq<X>, k: int)
    requires Distinct(s) && 0 <= k < |s|
    ensures forall i :: 0 <= i < |s| && i != k ==> s[i] != s[k]
  {
    DistinctInjective(s);
  }

  lemma {:induction false} DistinctInsert<X>(s: seq<X>, k: int, x: X)
    requires Distinct(s) && x !in s && -1 <= k < |s|
    ensures Distinct(InsertAfter(s, k, x))
  {
    var s' := InsertAfter(s, k, x);
    DistinctInjective(s);
    DistinctInjective(s');
    forall i, j | 0 <= i < j < |s'| ensures s'[i] != s'[j] {
      if i <= k && j > k + 1 { assert s'[j] == s[j - 1]; }
      else if i > k + 1 { assert s'[i] == s[i - 1] && s'[j] == s[j - 1]; }
      else if i == k + 1 { assert s'[j] == s[j - 1]; assert s[j - 1] in s; }
      else if j == k + 1 { assert s[i] in s; }
    }
  }

  lemma {:induction false} DistinctRemove<X>(s: seq<X>, k: int)
    requires Distinct(s) && 0 <= k < |s|
    ensures Distinct(RemoveAt(s, k)) && s[k] !in RemoveAt(s, k)
  {
    var s' := RemoveAt(s, k);
    DistinctInjective(s);
    DistinctInjective(s');
    forall i, j | 0 <= i < j < |s'| ensures s'[i] != s'[j] {
      if j < k { } else if i < k { assert s'[j] == s[j + 1]; }
      else { assert s'[i] == s[i + 1] && s'[j] == s[j + 1]; }
    }
    forall j | 0 <= j < |s'| ensures s'[j] != s[k] {
      if j >= k { assert s'[j] == s[j + 1]; }
    }
  }

  class Node<T> {
    const ptr: T
    var prev: Node?<T>
    var next: Node?<T>

    constructor (ptr: T)
      ensures this.ptr == ptr && prev == null && next == null
    {
      this.ptr := ptr;
      prev := null;
      next := null;
    }
  }

  /** The links of `s` form a chain: the first node has no predecessor, the
      last no successor, and neighbours point at each other. */
  ghost predicate Linked<T>(s: seq<Node<T>>)
    reads set x | x in s
  {
    && (s != [] ==> s[0].prev == null && s[|s| - 1].next == null)
    && (forall i {:trigger s[i].next} :: 0 <= i < |s| - 1 ==> s[i].next == s[i + 1])
    && (forall i {:trigger s[i].prev} :: 0 < i < |s| ==> s[i].prev == s[i - 1])
  }

  /** The `prev` links of the nodes of `s`, in order. */
  ghost function Prevs<T>(s: seq<Node<T>>): (r: seq<Node?<T>>)
    reads set x | x in s
    ensures |r| == |s| && forall i {:trigger r[i]} :: 0 <= i < |s| ==> r[i] == s[i].prev
  {
    seq(|s|, i requires 0 <= i < |s| reads set x | x in s => s[i].prev)
  }

  /** The `next` links of the nodes of `s`, in order. */
  ghost function Nexts<T>(s: seq<Node<T>>): (r: seq<Node?<T>>)
    reads set x | x in s
    ensures |r| == |s| && forall i {:trigger r[i]} :: 0 <= i < |s| ==> r[i] == s[i].next
  {
    seq(|s|, i requires 0 <= i < |s| reads set x | x in s => s[i].next)
  }

  /** `Linked` stated on a snapshot of the links, so that it can be carried
      across the updates of an operation. */
  ghost predicate ChainOf<T>(s: seq<Node<T>>, prevs: seq<Node?<T>>, nexts: seq<Node?<T>>)
  {
    && |prevs| == |s| && |nexts| == |s|
    && (s != [] ==> prevs[0] == null && nexts[|s| - 1] == null)
    && (forall i {:trigger nexts[i]} :: 0 <= i < |s| - 1 ==> nexts[i] == s[i + 1])
    && (forall i {:trigger prevs[i]} :: 0 < i < |s| ==> prevs[i] == s[i - 1])
  }

  lemma LinkedChain<T>(s: seq<Node<T>>)
    requires Linked(s)
    ensures ChainOf(s, Prevs(s), Nexts(s))
  {
    var p, n := Prevs(s), Nexts(s);
    forall i | 0 <= i < |s| - 1 ensures n[i] == s[i + 1] {
      assert n[i] == s[i].next;
    }
    forall i | 0 < i < |s| ensures p[i] == s[i - 1] {
      assert p[i] == s[i].prev;
    }
  }

  /** The relinking done by linked_list_insert: when the links of `n` were
      `prevs`/`nexts`, only the new node and its two neighbours changed, and
      they now point at each other, the chain with `x` inserted behind
      position `k` is linked. */
  lemma {:induction false} InsertRelinks<T>(n: seq<Node<T>>, prevs: seq<Node?<T>>, nexts: seq<Node?<T>>, k: int, x: Node<T>)
    requires -1 <= k < |n| && ChainOf(n, prevs, nexts)
    requires forall i :: 0 <= i < |n| && i != k && i != k + 1 ==> n[i].prev == prevs[i] && n[i].next == nexts[i]
    requires k >= 0 ==> n[k].prev == prevs[k] && n[k].next == x
    requires k + 1 < |n| ==> n[k + 1].next == nexts[k + 1] && n[k + 1].prev == x
    requires x.prev == (if k >= 0 then n[k] else null)
    requires x.next == (if k + 1 < |n| then n[k + 1] else null)
    ensures Linked(InsertAfter(n, k, x))
  {
    var s := InsertAfter(n, k, x);
    forall i | 0 <= i < |s| - 1 ensures s[i].next == s[i + 1] {
      if i < k {
        assert s[i] == n[i] && s[i + 1] == n[i + 1];
        assert nexts[i] == n[i + 1];
      } else if i > k + 1 {
        assert s[i] == n[i - 1] && s[i + 1] == n[i];
        assert nexts[i - 1] == n[i];
      }
    }
    forall i | 0 < i < |s| ensures s[i].prev == s[i - 1] {
      if i <= k {
        assert s[i] == n[i] && s[i - 1] == n[i - 1];
        assert prevs[i] == n[i - 1];
      } else if i > k + 2 {
        assert s[i] == n[i - 1] && s[i - 1] == n[i - 2];
        assert prevs[i - 1] == n[i - 2];
      }
    }
    if k >= 0 {
      assert s[0] == n[0] && prevs[0] == null;
    }
    if k + 1 < |n| {
      assert s[|s| - 1] == n[|n| - 1] && nexts[|n| - 1] == null;
    }
  }

  /** The relinking done by linked_list_remove: when the links of `n` were
      `prevs`/`nexts`, the neighbours of position `k` took over its links and
      nothing else changed, the chain without position `k` is linked. */
  lemma {:induction false} RemoveRelinks<T>(n: seq<Node<T>>, prevs: seq<Node?<T>>, nexts: seq<Node?<T>>, k: int)
    requires 0 <= k < |n| && ChainOf(n, prevs, nexts)
    requires forall i :: 0 <= i < |n| && i != k - 1 && i != k + 1 ==> n[i].prev == prevs[i] && n[i].next == nexts[i]
    requires k > 0 ==> n[k - 1].prev == prevs[k - 1] && n[k - 1].next == nexts[k]
    requires k + 1 < |n| ==> n[k + 1].next == nexts[k + 1] && n[k + 1].prev == prevs[k]
    ensures Linked(RemoveAt(n, k))
  {
    var s := RemoveAt(n, k);
    assert k > 0 ==> prevs[k] == n[k - 1];
    assert k + 1 < |n| ==> nexts[k] == n[k + 1];
    forall i | 0 <= i < |s| - 1 ensures s[i].next == s[i + 1] {
      if i + 1 < k {
        assert s[i] == n[i] && s[i + 1] == n[i + 1];
        assert nexts[i] == n[i + 1];
      } else if i >= k {
        assert s[i] == n[i + 1] && s[i + 1] == n[i + 2];
        assert nexts[i + 1] == n[i + 2];
      }
    }
    forall i | 0 < i < |s| ensures s[i].prev == s[i - 1] {
      if i < k {
        assert s[i] == n[i] && s[i - 1] == n[i - 1];
        assert prevs[i] == n[i - 1];
      } else if i > k {
        assert s[i] == n[i + 1] && s[i - 1] == n[i];
        assert prevs[i + 1] == n[i];
      }
    }
    if s != [] {
      if k == 0 {
        assert s[0] == n[1];
      } else {
        assert s[0] == n[0] && prevs[0] == null;
      }
      if k == |n| - 1 {
        assert s[|s| - 1] == n[k - 1];
      } else {
        assert s[|s| - 1] == n[|n| - 1] && nexts[|n| - 1] == null;
      }
    }
  }

  class List<T> {
    var head: Node?<T>
    var tail: Node?<T>
    var size: nat
    ghost var Nodes: seq<Node<T>>

    /** `Nodes` lists the nodes from head to tail: the header points at its
        ends, `size` counts them, and their links form a chain. */
    ghost predicate Valid()
      reads this, set x | x in Nodes
    {
      && size == |Nodes|
      && (Nodes == [] ==> head == null && tail == null)
      && (Nodes != [] ==> head == Nodes[0] && tail == Nodes[|Nodes| - 1])
      && Linked(Nodes)
      && Distinct(Nodes)
    }

    /** `Valid()` after an insertion, from the facts the insertion sets up. */
    lemma InsertedValid(n: seq<Node<T>>, k: int, x: Node<T>)
      requires -1 <= k < |n|
      requires Nodes == InsertAfter(n, k, x) && size == |n| + 1
      requires head == (if k < 0 then x else n[0])
      requires tail == (if k + 1 < |n| then n[|n| - 1] else x)
      requires Linked(InsertAfter(n, k, x)) && Distinct(InsertAfter(n, k, x))
      ensures Valid()
    {
      InsertAfterEnds(n, k, x);
    }

    /** `Valid()` after a removal, from the facts the removal sets up. */
    lemma RemovedValid(n: seq<Node<T>>, k: int)
      requires 0 <= k < |n|
      requires Nodes == RemoveAt(n, k) && size == |n| - 1
      requires |n| == 1 ==> head == null && tail == null
      requires |n| > 1 ==> head == (if k == 0 then n[1] else n[0])
      requires |n| > 1 ==> tail == (if k == |n| - 1 then n[k - 1] else n[|n| - 1])
      requires Linked(Nodes) && Distinct(Nodes)
      ensures Valid()
    {
    }

    /** Link consistency that every operation maintains: the head has no
        predecessor, the tail no successor, and `x.next.prev == x`. */
    lemma LinksConsistent()
      requires Valid()
      ensures head != null ==> head.prev == null
      ensures tail != null ==> tail.next == null
      ensures forall x :: x in Nodes && x.next != null ==> x.next in Nodes && x.next.prev == x
      ensures forall x :: x in Nodes && x.prev != null ==> x.prev in Nodes && x.prev.next == x
    {
      forall x | x in Nodes && x.next != null
        ensures x.next in Nodes && x.next.prev == x
      {
        var i :| 0 <= i < |Nodes| && Nodes[i] == x;
        assert x.next == Nodes[i + 1];
        assert Nodes[i + 1].prev == Nodes[i];
      }
      forall x | x in Nodes && x.prev != null
        ensures x.prev in Nodes && x.prev.next == x
      {
        var i :| 0 <= i < |Nodes| && Nodes[i] == x;
        assert x.prev == Nodes[i - 1];
        assert Nodes[i - 1].next == Nodes[i];
      }
    }

    /** create_linked_list: the empty list. */
    constructor ()
      ensures Valid() && Nodes == []
      ensures head == null && tail == null && size == 0
    {
      head, tail, size := null, null, 0;
      Nodes := [];
    }

    /** linked_list_append */
    method Append(newNode: Node<T>)
      requires Valid() && newNode !in Nodes
      modifies this, newNode, tail
      ensures Valid()
      ensures Nodes == old(Nodes) + [newNode]
      ensures size == old(size) + 1 && tail == newNode && newNode.next == null
    {
      ghost var n, k := Nodes, |Nodes| - 1;
      ghost var prevs, nexts := Prevs(n), Nexts(n);
      LinkedChain(n);
      newNode.next := null;
      if size == 0 {
        newNode.prev := null;
        head := newNode;
        tail := newNode;
      } else {
        var last := tail;
        last.next := newNode;
        newNode.prev := last;
        tail := newNode;
      }
      size := size + 1;
      Nodes := Nodes + [newNode];
      assert Nodes == InsertAfter(n, k, newNode);
      forall i | 0 <= i < |n| && i != k ensures n[i].prev == prevs[i] && n[i].next == nexts[i] {
        assert n[i] != n[k];
        assert n[i] in n;
      }
      if k >= 0 {
        assert n[k] in n;
      }
      assert Nodes == InsertAfter(n, k, newNode);
      InsertRelinks(n, prevs, nexts, k, newNode);
      DistinctInsert(n, k, newNode);
      InsertedValid(n, k, newNode);
    }

    /** linked_list_insert: put `newNode` right after `node`, or in front when
        `node` is null. */
    method Insert(node: Node?<T>, newNode: Node<T>)
      requires Valid() && newNode !in Nodes
      requires node == null || node in Nodes
      modifies this, newNode, node, if node == null then head else node.next
      ensures Valid()
      ensures node == null ==> Nodes == InsertAfter(old(Nodes), -1, newNode)
      ensures node != null ==> Nodes == InsertAfter(old(Nodes), IndexOf(old(Nodes), node), newNode)
      ensures size == old(size) + 1
      ensures node == null ==> head == newNode
      ensures node == old(tail) ==> tail == newNode
    {
      ghost var n := Nodes;
      ghost var k: int := if node == null then -1 else IndexOf(Nodes, node);
      ghost var prevs, nexts := Prevs(n), Nexts(n);
      LinkedChain(n);
      ghost var succ := if node == null then head else node.next;
      assert succ == (if k + 1 < |n| then n[k + 1] else null) by {
        if node != null {
          assert nexts[k] == node.next;
        }
      }
      if k >= 0 { DistinctAt(n, k); }
      if k + 1 < |n| { DistinctAt(n, k + 1); }
      assert node != newNode && succ != newNode;
      Nodes := InsertAfter(Nodes, k, newNode);
      newNode.prev := node;
      var nextNode: Node?<T>;
      if node == null {
        nextNode := head;
        head := newNode;
      } else {
        nextNode := node.next;
        node.next := newNode;
      }
      assert nextNode == succ;
      newNode.next := nextNode;
      if nextNode != null {
        nextNode.prev := newNode;
      } else {
        tail := newNode;
      }
      size := size + 1;
      assert head == (if k < 0 then newNode else n[0]);
      assert tail == (if k + 1 < |n| then n[|n| - 1] else newNode);
      assert k >= 0 ==> n[k].prev == prevs[k] && n[k].next == newNode;
      assert k + 1 < |n| ==> n[k + 1].next == nexts[k + 1] && n[k + 1].prev == newNode;
      assert Nodes == InsertAfter(n, k, newNode);
      InsertRelinks(n, prevs, nexts, k, newNode);
      DistinctInsert(n, k, newNode);
      InsertedValid(n, k, newNode);
    }

    /** linked_list_insert_to_head */
    method InsertToHead(newNode: Node<T>)
      requires Valid() && newNode !in Nodes
      modifies this, newNode, head, if head == null then null else head.next
      ensures Valid()
      ensures Nodes == InsertedToHead(old(Nodes), newNode)
      ensures size == old(size) + 1
    {
      Insert(head, newNode);
    }

    /** linked_list_remove; the node must belong to this list, which the code
        does not check. */
    method Remove(node: Node<T>)
      requires Valid() && node in Nodes
      modifies this, node.prev, node.next
      ensures Valid()
      ensures Nodes == RemoveAt(old(Nodes), IndexOf(old(Nodes), node))
      ensures node !in Nodes
      ensures size == old(size) - 1
      ensures old(size) == 1 ==> head == null && tail == null
    {
      ghost var n := Nodes;
      ghost var k := IndexOf(Nodes, node);
      ghost var prevs, nexts := Prevs(n), Nexts(n);
      LinkedChain(n);
      assert k > 0 ==> node.prev == n[k - 1];
      assert k < |n| - 1 ==> node.next == n[k + 1];
      assert k == 0 ==> node.prev == null;
      assert k == |n| - 1 ==> node.next == null;
      if k > 0 { DistinctAt(n, k - 1); }
      if k + 1 < |n| { DistinctAt(n, k + 1); }
      var prevNode := node.prev;
      var nextNode := node.next;
      if prevNode != null {
        prevNode.next := nextNode;
      } else {
        head := nextNode;
      }
      if nextNode != null {
        nextNode.prev := prevNode;
      } else {
        tail := prevNode;
      }
      size := size - 1;
      assert |n| > 1 ==> head == (if k == 0 then n[1] else n[0]);
      assert |n| > 1 ==> tail == (if k == |n| - 1 then n[k - 1] else n[|n| - 1]);
      Nodes := RemoveAt(Nodes, k);
      assert Nodes == RemoveAt(n, k);
      RemoveRelinks(n, prevs, nexts, k);
      DistinctRemove(n, k);
      RemovedValid(n, k);
    }
  }
}
