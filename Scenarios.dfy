/**
 * Clients of the splice primitives: the unit test of src/lib.rs, and the
 * last-in-first-out behaviour at each end that it exercises, stated for
 * every input sequence.
 */
module Scenarios {
  import opened LinkedList

  /** `s` read from its last element to its first. */
  function Reversed<T>(s: seq<T>): (r: seq<T>)
    ensures |r| == |s|
    ensures forall i :: 0 <= i < |s| ==> r[i] == s[|s| - 1 - i]
  {
    if s == [] then [] else Reversed(s[1..]) + [s[0]]
  }

  /** Taking one more element of `s` appends it. */
  lemma TakeOneMore<T>(s: seq<T>, n: nat)
    requires n < |s|
    ensures s[..n + 1] == s[..n] + [s[n]]
  {
  }

  /** Reversing `s` with one more element at its end puts that element first. */
  lemma {:induction false} ReversedSnoc<T>(s: seq<T>, x: T)
    ensures Reversed(s + [x]) == [x] + Reversed(s)
  {
    if s != [] {
      assert (s + [x])[1..] == s[1..] + [x];
      ReversedSnoc(s[1..], x);
    }
  }

  /** One more front push extends the reversed prefix of `xs` by `xs[i]`. */
  lemma PushedOneMore<T>(xs: seq<T>, i: nat, t: seq<T>)
    requires i < |xs|
    ensures [xs[i]] + (Reversed(xs[..i]) + t) == Reversed(xs[..i + 1]) + t
  {
    TakeOneMore(xs, i);
    ReversedSnoc(xs[..i], xs[i]);
  }

  /** Dropping the first element of `a[n..]` advances `n`. */
  lemma DropFirst<T>(a: seq<T>, n: nat)
    requires n < |a|
    ensures a[n..][0] == a[n] && a[n..][1..] == a[n + 1..]
  {
  }

  /** Dropping the last element of `a[..n]` shortens the prefix. */
  lemma DropLast<T>(a: seq<T>, n: nat)
    requires 0 < n <= |a|
    ensures a[..n][n - 1] == a[n - 1] && a[..n][..n - 1] == a[..n - 1]
  {
  }

  /** Pushes the elements of `xs` at the front of `list`, one node each, in order. */
  method PushFrontAll<T>(list: MyLinkedList<T>, xs: seq<T>)
    requires list.Valid()
    modifies list.Repr
    ensures list.Valid() && fresh(list.Repr - old(list.Repr))
    ensures list.Elements == Reversed(xs) + old(list.Elements) && list.len == old(list.len) + |xs|
  {
    ghost var start := list.Elements;
    var i := 0;
    while i < |xs|
      invariant 0 <= i <= |xs|
      invariant list.Valid() && fresh(list.Repr - old(list.Repr))
      invariant list.Elements == Reversed(xs[..i]) + start
    {
      var node := new Node(xs[i]);
      PushedOneMore(xs, i, start);
      list.PushFrontNode(node);
      i := i + 1;
    }
    assert xs[..i] == xs;
  }

  /** Pops `n` nodes from the front of `list`: they hold its first `n` elements, in order. */
  method PopFrontCount<T>(list: MyLinkedList<T>, n: nat) returns (ys: seq<T>)
    requires list.Valid() && n <= list.len
    modifies list.Repr
    ensures list.Valid() && list.Repr <= old(list.Repr)
    ensures ys == old(list.Elements)[..n] && list.Elements == old(list.Elements)[n..]
    ensures list.len == old(list.len) - n
  {
    ghost var start := list.Elements;
    ys := [];
    while |ys| < n
      invariant list.Valid() && list.Repr <= old(list.Repr)
      invariant |ys| <= n && ys == start[..|ys|] && list.Elements == start[|ys|..]
    {
      DropFirst(start, |ys|);
      var node := list.PopFrontNode();
      TakeOneMore(start, |ys|);
      ys := ys + [node.element];
    }
  }

  /** Pushes the elements of `xs` at the back of `list`, one node each, in order. */
  method PushBackAll<T>(list: MyLinkedList<T>, xs: seq<T>)
    requires list.Valid()
    modifies list.Repr
    ensures list.Valid() && fresh(list.Repr - old(list.Repr))
    ensures list.Elements == old(list.Elements) + xs && list.len == old(list.len) + |xs|
  {
    var i := 0;
    while i < |xs|
      invariant 0 <= i <= |xs|
      invariant list.Valid() && fresh(list.Repr - old(list.Repr))
      invariant list.Elements == old(list.Elements) + xs[..i]
    {
      var node := new Node(xs[i]);
      list.PushBackNode(node);
      TakeOneMore(xs, i);
      i := i + 1;
    }
    assert xs[..i] == xs;
  }

  /**
   * Pops `n` nodes from the back of `list`: they hold its last `n` elements,
   * last first.
   */
  method PopBackCount<T>(list: MyLinkedList<T>, n: nat) returns (ys: seq<T>)
    requires list.Valid() && n <= list.len
    modifies list.Repr
    ensures list.Valid() && list.Repr <= old(list.Repr)
    ensures ys == Reversed(old(list.Elements)[old(list.len) - n..])
    ensures list.Elements == old(list.Elements)[..old(list.len) - n]
    ensures list.len == old(list.len) - n
  {
    ghost var start := list.Elements;
    ys := [];
    var k := 0;
    while k < n
      invariant k <= n
      invariant list.Valid() && list.Repr <= old(list.Repr)
      invariant ys == Reversed(start[|start| - k..]) && list.Elements == start[..|start| - k]
    {
      DropLast(start, |start| - k);
      var node := list.PopBackNode();
      ReversedStep(start, |start| - k);
      ys := ys + [node.element];
      k := k + 1;
    }
  }

  /** Reversing one more element of a suffix of `s` appends that element. */
  lemma ReversedStep<T>(s: seq<T>, m: nat)
    requires 0 < m <= |s|
    ensures Reversed(s[m - 1..]) == Reversed(s[m..]) + [s[m - 1]]
  {
    assert s[m - 1..][1..] == s[m..];
  }

  /**
   * Pushes every element of `xs` at the front of `list`, in order, then pops
   * from the front as many times: the pops yield `xs` reversed, and the list
   * is left holding what it held before.
   */
  method FrontLifo<T>(list: MyLinkedList<T>, xs: seq<T>) returns (ys: seq<T>)
    requires list.Valid()
    modifies list.Repr
    ensures list.Valid() && fresh(list.Repr - old(list.Repr))
    ensures list.Elements == old(list.Elements) && list.len == old(list.len)
    ensures ys == Reversed(xs)
  {
    PushFrontAll(list, xs);
    ys := PopFrontCount(list, |xs|);
    assert (Reversed(xs) + old(list.Elements))[|xs|..] == old(list.Elements);
  }

  /**
   * Pushes every element of `xs` at the back of `list`, in order, then pops
   * from the back as many times: the pops yield `xs` reversed, and the list
   * is left holding what it held before.
   */
  method BackLifo<T>(list: MyLinkedList<T>, xs: seq<T>) returns (ys: seq<T>)
    requires list.Valid()
    modifies list.Repr
    ensures list.Valid() && fresh(list.Repr - old(list.Repr))
    ensures list.Elements == old(list.Elements) && list.len == old(list.len)
    ensures ys == Reversed(xs)
  {
    PushBackAll(list, xs);
    ys := PopBackCount(list, |xs|);
    assert (old(list.Elements) + xs)[|old(list.Elements)|..] == xs;
    assert (old(list.Elements) + xs)[..|old(list.Elements)|] == old(list.Elements);
  }

  /** Lines 153-155 of the test: nodes holding 3, 2, 1 pushed at the front of an empty list. */
  method TestFrontPushes(list: MyLinkedList<int>)
    requires list.Valid() && list.len == 0
    modifies list.Repr
    ensures list.Valid() && fresh(list.Repr - old(list.Repr))
    ensures list.Elements == [1, 2, 3]
  {
    var n3 := new Node(3);
    list.PushFrontNode(n3);
    var n2 := new Node(2);
    list.PushFrontNode(n2);
    var n1 := new Node(1);
    list.PushFrontNode(n1);
  }

  /** Lines 156-161 of the test: three front pops of that list yield 1, 2, 3 and empty it. */
  method TestFrontPops(list: MyLinkedList<int>) returns (l1: int, l2: int, l3: int)
    requires list.Valid() && list.Elements == [1, 2, 3]
    modifies list.Repr
    ensures list.Valid() && list.len == 0 && list.Repr <= old(list.Repr)
    ensures l1 == 1 && l2 == 2 && l3 == 3
  {
    var p1 := list.PopFrontNode();
    l1 := p1.element;
    var p2 := list.PopFrontNode();
    l2 := p2.element;
    var p3 := list.PopFrontNode();
    l3 := p3.element;
  }

  /** Lines 162-164 of the test: nodes holding 3, 2, 1 pushed at the back of an empty list. */
  method TestBackPushes(list: MyLinkedList<int>)
    requires list.Valid() && list.len == 0
    modifies list.Repr
    ensures list.Valid() && fresh(list.Repr - old(list.Repr))
    ensures list.Elements == [3, 2, 1]
  {
    var n3 := new Node(3);
    list.PushBackNode(n3);
    var n2 := new Node(2);
    list.PushBackNode(n2);
    var n1 := new Node(1);
    list.PushBackNode(n1);
  }

  /** Lines 165-170 of the test: three back pops of that list yield 1, 2, 3 and empty it. */
  method TestBackPops(list: MyLinkedList<int>) returns (l1: int, l2: int, l3: int)
    requires list.Valid() && list.Elements == [3, 2, 1]
    modifies list.Repr
    ensures list.Valid() && list.len == 0 && list.Repr <= old(list.Repr)
    ensures l1 == 1 && l2 == 2 && l3 == 3
  {
    var p1 := list.PopBackNode();
    l1 := p1.element;
    var p2 := list.PopBackNode();
    l2 := p2.element;
    var p3 := list.PopBackNode();
    l3 := p3.element;
  }

  /**
   * `test_op_my_linked_list`: the front pushes and pops, then the back pushes
   * and pops on the same list, each phase returning its three popped payloads
   * in pop order.
   */
  method TestOpMyLinkedList() returns (front: seq<int>, back: seq<int>, lenAfterFront: nat, lenAfterBack: nat)
    ensures front == [1, 2, 3] && back == [1, 2, 3]
    ensures lenAfterFront == 0 && lenAfterBack == 0
  {
    var list := new MyLinkedList<int>();
    TestFrontPushes(list);
    var f1, f2, f3 := TestFrontPops(list);
    front := [f1, f2, f3];
    lenAfterFront := list.len;
    TestBackPushes(list);
    var b1, b2, b3 := TestBackPops(list);
    back := [b1, b2, b3];
    lenAfterBack := list.len;
  }
}
