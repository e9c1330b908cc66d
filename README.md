# MyLinkedList: a verified model of a doubly linked deque

`src/lib.rs` defines `MyLinkedList<T>`, a doubly linked list with a `head`
link, a `tail` link and a length `len`, whose nodes each hold a payload and
`next` and `prev` links. Four private splice primitives push a caller's node
at either end or unlink and return the end node (`None` on an empty list).
`Drop` drains the list one front pop at a time, so freeing it never recurses
down the chain. A unit test pushes 3, 2, 1 at one end and pops 1, 2, 3 from
the same end, first at the front and then at the back.

The model keeps the source's imperative shape:

- `LinkedList.dfy`, module `LinkedList`:
  - `Node<T>` is a class with mutable `next`, `prev` and `element` fields.
  - `MyLinkedList<T>` is a class with `head`, `tail` and `len` fields.
  - Ghost state, used only for the proofs:
    - `nodes` is the chain from head to tail;
    - `Elements` is the sequence of payloads, i.e. the deque the list stands for;
    - `Repr` is the set of objects the list owns.
  - `Valid()` is the link invariant:
    - `len` is the chain's length;
    - the nodes are distinct;
    - `head` and `tail` are the chain's ends, or both null when the list is empty;
    - the ends' outer links are null;
    - every adjacent pair is linked in both directions.
  - Each primitive is a method. Its `modifies` clause names the fields the
    Rust code writes, so the verifier checks that nothing else changes.
  - Its `ensures` states the new links, the new `len`, and the new chain and
    payload sequence.
- `Scenarios.dfy`, module `Scenarios`, holds clients of the primitives:
  - loops that push a whole sequence at one end, or pop a given number of nodes;
  - last-in-first-out at each end, proved for every input sequence and every
    starting list;
  - the unit test, with its push and pop calls written out one by one, in
    methods whose postconditions are the test's assertions.

Null stands for `None` throughout. A `Box<Node<T>>` handed to a push is a
node the list does not own yet. A popped `Box` is the returned node, which
then leaves `Repr`.

## Model

| member | source | states |
|---|---|---|
| LinkedList.Node.constructor | src/lib.rs:19-25 | the new node holds the given payload and both of its links are null |
| LinkedList.MyLinkedList.constructor | src/lib.rs:55-62 | the new list is valid, owns only itself, has null head and tail, length 0 and no elements |
| LinkedList.MyLinkedList.PushFrontNode | src/lib.rs:70-86 | for a node the list does not own: it becomes the head, with null `prev` and `next` set to the old head; the old head's `prev` points back at it, or it is also the tail of a list that was empty; the tail is otherwise unchanged; `len` grows by one; the elements become the node's payload followed by the old elements; the list stays valid; only the list, the node's two links and the old head's `prev` are written |
| LinkedList.MyLinkedList.PopFrontNode | src/lib.rs:91-104 | returns null exactly when the list is empty, and then nothing changes; otherwise it returns the old head, whose payload was the first element; the head becomes the old head's successor, with `prev` cleared, or head and tail both become null; `len` drops by one; the elements lose their first entry; the list stays valid; only the list and the successor's `prev` are written |
| LinkedList.MyLinkedList.PushBackNode | src/lib.rs:109-126 | the mirror of the front push: the node becomes the tail, with null `next` and `prev` set to the old tail; the old tail's `next` points at it, or it is also the head; `len` grows by one; the elements gain its payload at the end; only the list, the node's links and the old tail's `next` are written |
| LinkedList.MyLinkedList.PopBackNode | src/lib.rs:131-144 | the mirror of the front pop: null exactly on an empty list, which is left unchanged; otherwise it returns the old tail, whose payload was the last element; the tail becomes its predecessor, with `next` cleared, or both ends become null; `len` drops by one; the elements lose their last entry; only the list and the predecessor's `next` are written |
| LinkedList.MyLinkedList.Drop | src/lib.rs:44-48 | the drain loop ends, with `len` falling on every round; it leaves head and tail null, `len` 0 and no nodes; the nodes it detached are the original chain in order, and none of them is owned any more |
| LinkedList.MyLinkedList.ForwardFrom | src/lib.rs:3-15 | in a valid list, following `next` k times from the i-th node reaches the (i+k)-th node, or null just after the tail |
| LinkedList.MyLinkedList.BackwardFrom | src/lib.rs:3-15 | in a valid list, following `prev` k times from the i-th node reaches the (i-k)-th node, or null just before the head |
| LinkedList.MyLinkedList.Chain | src/lib.rs:3-15 | in a valid list the chain from `head` has exactly `len` distinct nodes and then reaches null; the chain from `tail` by `prev` visits the same nodes in reverse and then reaches null |
| LinkedList.MyLinkedList.Second | src/lib.rs:94-98 | the node whose `prev` a front pop clears is the second node of the chain, or nothing when there are fewer than two nodes, and the list owns it |
| LinkedList.MyLinkedList.Penultimate | src/lib.rs:134-138 | the node whose `next` a back pop clears is the next-to-last node of the chain, or nothing when there are fewer than two nodes, and the list owns it |
| Scenarios.Reversed | src/lib.rs:150-171 | the order in which the test expects pops to return pushed values: the same length, with position i holding the input's (n-1-i)-th element |
| Scenarios.ReversedSnoc | src/lib.rs:153-155 | adding x at the end of a sequence puts x at the front of its reversal, which is why each front push adds to the front of the reversed input |
| Scenarios.PushFrontAll | src/lib.rs:153-155 | pushing xs at the front one node at a time leaves the elements equal to xs reversed followed by the old elements; `len` grows by the length of xs; only fresh nodes are added |
| Scenarios.PopFrontCount | src/lib.rs:156-161 | popping n ≤ len nodes from the front yields the first n elements in order, and leaves the rest |
| Scenarios.PushBackAll | src/lib.rs:162-164 | pushing xs at the back one node at a time leaves the old elements followed by xs; `len` grows by the length of xs |
| Scenarios.PopBackCount | src/lib.rs:165-170 | popping n ≤ len nodes from the back yields the last n elements, last first, and leaves the rest |
| Scenarios.FrontLifo | src/lib.rs:152-161 | on any valid list, pushing xs at the front and then popping as many nodes from the front returns xs reversed and restores the elements and length |
| Scenarios.BackLifo | src/lib.rs:162-170 | on any valid list, pushing xs at the back and then popping as many nodes from the back returns xs reversed and restores the elements and length |
| Scenarios.TestFrontPushes | src/lib.rs:152-155 | on a valid empty list, pushing nodes holding 3, 2, 1 at the front leaves the elements 1, 2, 3, with only fresh nodes added |
| Scenarios.TestFrontPops | src/lib.rs:156-161 | on a valid list holding 1, 2, 3, three front pops return nodes holding 1, 2 and 3 in that order and leave the list valid and empty |
| Scenarios.TestBackPushes | src/lib.rs:162-164 | on a valid empty list, pushing nodes holding 3, 2, 1 at the back leaves the elements 3, 2, 1, with only fresh nodes added |
| Scenarios.TestBackPops | src/lib.rs:165-170 | on a valid list holding 3, 2, 1, three back pops return nodes holding 1, 2 and 3 in that order and leave the list valid and empty |
| Scenarios.TestOpMyLinkedList | src/lib.rs:150-171 | on a new list, the front pushes and pops and then the back pushes and pops on the same list each pop 1, 2, 3, and the list is empty after each phase |

## Left out

- `NonNull`, `Box::leak`, `Box::from_raw` and `PhantomData` (src/lib.rs:1-8, 74, 93, 115, 133): nodes are garbage-collected heap objects. Handing a node's ownership to the list is modelled as adding it to `Repr`, and taking it back as removing it.
- Deallocation in `Drop` (src/lib.rs:46): Dafny has no explicit free. The drain loop returns the detached nodes as a ghost sequence instead.
- `DropGuard` and `mem::forget` (src/lib.rs:36-42, 45, 47): these only matter when a payload's destructor panics. The model has no unwinding and no payload destructors.
- `Default` (src/lib.rs:28-32): it only calls `new`, which the constructor models.
- The aliasing comments of `push_back_node` (src/lib.rs:110-111, 119): they concern Rust's reference rules, which have no counterpart in Dafny's heap model.
- LinkedList.MyLinkedList.PushFrontNode: `len` is a `nat` here, whereas the source has a `usize`. The overflow of `len += 1` after 2^64 nodes is not modelled (likewise for PushBackNode).
- LinkedList.MyLinkedList.Valid: states no upper bound on `Repr`, so the list may own objects outside its chain. Drop therefore proves that the nodes it detached are no longer owned, not that `Repr` shrinks to the list alone.
- Thread safety: the source has no concurrency.
