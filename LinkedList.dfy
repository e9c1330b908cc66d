/**
 * A doubly linked deque whose nodes are heap objects joined by `next` and
 * `prev` links, as in `MyLinkedList<T>` of src/lib.rs.
 *
 * The list object holds `head`, `tail` and `len`. The ghost sequence `nodes`
 * lists the chain from head to tail, and `Repr` is the set of objects the list
 * owns (itself and its nodes). `Valid()` is the two-way link invariant; the
 * ghost `Elements` is the abstract deque of payloads, against which each
 * splice primitive is specified.
 */
module LinkedList {

  /** A chain node: a payload and two observing links. */
  class Node<T> {
    var next: Node?<T>
    var prev: Node?<T>
    var element: T

    /** `Node::new`: a detached node holding `element`. */
    constructor (element: T)
      ensures this.element == element
      ensures next == null && prev == null
    {
      this.element := element;
      next := null;
      prev := null;
    }
  }

  /** The objects an optional link names: none for null, else the one node. */
  function Only<T>(n: Node?<T>): (s: set<Node<T>>)
    ensures n in s <==> n != null
    ensures |s| <= 1
  {
    if n == null then {} else {n}
  }

  /** The node reached from `n` by following `next` links `k` times. */
  ghost function Forward<T>(n: Node?<T>, k: nat): Node?<T>
    reads *
  {
    if k == 0 || n == null then n else Forward(n.next, k - 1)
  }

  /** The node reached from `n` by following `prev` links `k` times. */
  ghost function Backward<T>(n: Node?<T>, k: nat): Node?<T>
    reads *
  {
    if k == 0 || n == null then n else Backward(n.prev, k - 1)
  }

  class MyLinkedList<T> {
    var head: Node?<T>
    var tail: Node?<T>
    var len: nat

    /** The deque the list represents: the payloads from head to tail. */
    ghost var Elements: seq<T>
    /** The chain from `head` to `tail`. */
    ghost var nodes: seq<Node<T>>
    /** The list object and every node it owns. */
    ghost var Repr: set<object>

    /** Link consistency of the chain, in both directions. */
    ghost predicate Valid()
      reads this, Repr
      ensures Valid() ==> this in Repr
    {
      this in Repr &&
      (forall i :: 0 <= i < |nodes| ==> nodes[i] in Repr) &&
      len == |nodes| && |Elements| == |nodes| &&
      (forall i :: 0 <= i < |nodes| ==> Elements[i] == nodes[i].element) &&
      (forall i, j :: 0 <= i < j < |nodes| ==> nodes[i] != nodes[j]) &&
      (|nodes| == 0 ==> head == null && tail == null) &&
      (|nodes| > 0 ==>
        head == nodes[0] && tail == nodes[|nodes| - 1] &&
        nodes[0].prev == null && nodes[|nodes| - 1].next == null) &&
      (forall i, j :: 0 <= i && j == i + 1 && j < |nodes| ==> nodes[i].next == nodes[j] && nodes[j].prev == nodes[i])
    }


    /** `MyLinkedList::new`: the empty list. */
    constructor ()
      ensures Valid() && fresh(Repr) && Repr == {this}
      ensures head == null && tail == null && len == 0
      ensures nodes == [] && Elements == []
    {
      head := null;
      tail := null;
      len := 0;
      nodes := [];
      Elements := [];
      Repr := {this};
    }

    /** Following `next` from the `i`-th node walks along the chain and off its end. */
    lemma {:induction false} ForwardFrom(i: nat, k: nat)
      requires Valid() && i < |nodes| && i + k <= |nodes|
      ensures Forward(nodes[i], k) == if i + k < |nodes| then nodes[i + k] else null
      decreases k
    {
      if k > 0 && i + 1 < |nodes| {
        ForwardFrom(i + 1, k - 1);
      }
    }

    /** Following `prev` from the `i`-th node walks back along the chain and off its start. */
    lemma {:induction false} BackwardFrom(i: nat, k: nat)
      requires Valid() && i < |nodes| && k <= i + 1
      ensures Backward(nodes[i], k) == if k <= i then nodes[i - k] else null
      decreases k
    {
      if k > 0 && i > 0 {
        BackwardFrom(i - 1, k - 1);
      }
    }

    /**
     * The chain is acyclic and holds exactly `len` nodes: walking `next` from
     * `head` visits `len` distinct nodes and then reaches null, and walking
     * `prev` from `tail` visits the same nodes in reverse.
     */
    lemma Chain()
      requires Valid()
      ensures forall k :: 0 <= k < len ==> Forward(head, k) == nodes[k] && Backward(tail, k) == nodes[len - 1 - k]
      ensures Forward(head, len) == null && Backward(tail, len) == null
      ensures forall k, m :: 0 <= k < m < len ==> Forward(head, k) != Forward(head, m)
    {
      if len > 0 {
        forall k | 0 <= k <= len
          ensures Forward(head, k) == if k < len then nodes[k] else null
          ensures Backward(tail, k) == if k < len then nodes[len - 1 - k] else null
        {
          ForwardFrom(0, k);
          BackwardFrom(len - 1, k);
        }
        BackwardFrom(len - 1, len);
      }
    }

    /** The node after the head, whose `prev` a front pop clears. */
    ghost function Second(): (n: Node?<T>)
      requires Valid()
      reads this, Repr
      ensures n == if len >= 2 then nodes[1] else null
      ensures Only(n) <= Repr
    {
      if head == null then null else head.next
    }

    /** The node before the tail, whose `next` a back pop clears. */
    ghost function Penultimate(): (n: Node?<T>)
      requires Valid()
      reads this, Repr
      ensures n == if len >= 2 then nodes[len - 2] else null
      ensures Only(n) <= Repr
    {
      if tail == null then null else tail.prev
    }

    /**
     * `push_front_node`: splices the caller's node in before the head. The
     * node's incoming links are overwritten; the only other node touched is
     * the old head, whose `prev` now points back at the new node.
     */
    method PushFrontNode(node: Node<T>)
      requires Valid()
      requires node !in Repr
      modifies this, node`next, node`prev, Only(head)`prev
      ensures Valid()
      ensures head == node && node.prev == null && node.next == old(head)
      ensures old(head) == null ==> tail == node
      ensures old(head) != null ==> tail == old(tail) && old(head).prev == node
      ensures len == old(len) + 1
      ensures nodes == [node] + old(nodes) && Repr == old(Repr) + {node}
      ensures Elements == [node.element] + old(Elements)
    {
      node.next := head;
      node.prev := null;
      if head == null {
        tail := node;
      } else {
        head.prev := node;
      }
      head := node;
      len := len + 1;
      nodes := [node] + nodes;
      Elements := [node.element] + Elements;
      Repr := Repr + {node};
    }

    /**
     * `pop_front_node`: on an empty list returns null (None) and changes
     * nothing; otherwise unlinks and returns the head node. The node's own
     * links are left as they were, so its `next` still names the new head.
     */
    method PopFrontNode() returns (r: Node?<T>)
      requires Valid()
      modifies this, Only(Second())`prev
      ensures Valid()
      ensures r == null <==> old(len) == 0
      ensures old(len) == 0 ==> head == null && tail == null && len == 0 && nodes == [] && Repr == old(Repr)
      ensures old(len) > 0 ==> r == old(head) && r.element == old(Elements)[0]
      ensures old(len) > 0 ==> head == old(head.next) && (head == null ==> tail == null)
      ensures old(len) > 0 && head != null ==> head.prev == null && tail == old(tail)
      ensures old(len) > 0 ==> len == old(len) - 1
      ensures old(len) > 0 ==> nodes == old(nodes)[1..] && Repr == old(Repr) - {r}
      ensures old(len) > 0 ==> Elements == old(Elements)[1..]
    {
      if head == null {
        return null;
      }
      r := head;
      head := r.next;
      if head == null {
        tail := null;
      } else {
        head.prev := null;
      }
      len := len - 1;
      nodes := nodes[1..];
      Elements := Elements[1..];
      Repr := Repr - {r};
    }

    /**
     * `push_back_node`: splices the caller's node in after the tail; the
     * mirror image of `PushFrontNode`.
     */
    method PushBackNode(node: Node<T>)
      requires Valid()
      requires node !in Repr
      modifies this, node`next, node`prev, Only(tail)`next
      ensures Valid()
      ensures tail == node && node.next == null && node.prev == old(tail)
      ensures old(tail) == null ==> head == node
      ensures old(tail) != null ==> head == old(head) && old(tail).next == node
      ensures len == old(len) + 1
      ensures nodes == old(nodes) + [node] && Repr == old(Repr) + {node}
      ensures Elements == old(Elements) + [node.element]
    {
      node.next := null;
      node.prev := tail;
      if tail == null {
        head := node;
      } else {
        tail.next := node;
      }
      tail := node;
      len := len + 1;
      nodes := nodes + [node];
      Elements := Elements + [node.element];
      Repr := Repr + {node};
    }

    /**
     * `pop_back_node`: on an empty list returns null (None) and changes
     * nothing; otherwise unlinks and returns the tail node, leaving its own
     * `prev` naming the new tail.
     */
    method PopBackNode() returns (r: Node?<T>)
      requires Valid()
      modifies this, Only(Penultimate())`next
      ensures Valid()
      ensures r == null <==> old(len) == 0
      ensures old(len) == 0 ==> head == null && tail == null && len == 0 && nodes == [] && Repr == old(Repr)
      ensures old(len) > 0 ==> r == old(tail) && r.element == old(Elements)[old(len) - 1]
      ensures old(len) > 0 ==> tail == old(tail.prev) && (tail == null ==> head == null)
      ensures old(len) > 0 && tail != null ==> tail.next == null && head == old(head)
      ensures old(len) > 0 ==> len == old(len) - 1
      ensures old(len) > 0 ==> nodes == old(nodes)[..old(len) - 1] && Repr == old(Repr) - {r}
      ensures old(len) > 0 ==> Elements == old(Elements)[..old(len) - 1]
    {
      if tail == null {
        return null;
      }
      r := tail;
      tail := r.prev;
      if tail == null {
        head := null;
      } else {
        tail.next := null;
      }
      len := len - 1;
      nodes := nodes[..len];
      Elements := Elements[..len];
      Repr := Repr - {r};
    }

    /**
     * The drain loop of `Drop::drop`: pops the front node until the list is
     * empty, one node per iteration and never by recursion through `next`.
     * `freed` is the sequence of nodes the loop detached, in order.
     */
    method Drop() returns (ghost freed: seq<Node<T>>)
      requires Valid()
      modifies Repr
      ensures Valid()
      ensures head == null && tail == null && len == 0 && nodes == []
      ensures freed == old(nodes)
      ensures Repr <= old(Repr) && forall i :: 0 <= i < |freed| ==> freed[i] !in Repr
    {
      ghost var all := nodes;
      freed := [];
      while true
        invariant Valid() && Repr <= old(Repr)
        invariant forall i :: 0 <= i < |freed| ==> freed[i] !in Repr
        invariant |freed| <= |all| && freed == all[..|freed|] && nodes == all[|freed|..]
        decreases len
      {
        var node := PopFrontNode();
        if node == null {
          break;
        }
        assert all[..|freed| + 1] == freed + [node];
        freed := freed + [node];
      }
    }
  }
}
