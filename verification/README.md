# Singly-linked list with a snapshot iterator

This project models the generic singly-linked list of `src/linkedlist.rs`.
Each `Node<T>` holds one value and an exclusively owned link to its
successor. A `LinkedList<T>` holds a link to its first node. The list supports:

- `new`;
- `push_front`, which puts a fresh node before the head;
- `push_back`, which walks a cursor to the empty link after the last node and
  fills it;
- `pop_front`, which returns `None` on an empty list;
- `iter`, which clones the whole chain and gives the copy to an `Iter<T>`
  that hands the values out head first.

The model is written in Dafny, in the same imperative form as the source:

- `linkedlist.dfy` (module `LinkedLists`) has heap classes `Node`,
  `LinkedList` and `Iter`, with the fields `data`, `next` and `head`.
  - The list and the iterator each carry a ghost view: `Contents` (or
    `Remaining`), the values head to tail; `Spine`, the nodes that hold them;
    and `Repr`, the objects they own.
  - `IsChain` is the structural invariant. Following `next` from `head` visits
    exactly the spine, in order, and ends in an empty link. No node occurs
    twice, so the chain is acyclic and each node has one owner.
  - The `push_back` cursor is a `while` loop. Its invariant places the cursor
    on the spine.
  - `iter`'s clone is a loop that copies the chain node by node into fresh
    nodes.
- `properties.dfy` (module `ListProperties`) holds what callers can rely on:
  whole runs of operations, stated against the abstract contents and mostly
  observed through the iterator.
- `driver.dfy` (module `Driver`) holds the one place the program uses the
  list, `RustHeapAllocation::using_box_with_linkedlist_and_recursive_value`
  in `src/main.rs`.

The Rust `push_back` cursor is a mutable reference to a link slot
(`&mut Option<Box<Node<T>>>`). Dafny cannot take a reference to a field, so the
model splits this in two:

- on an empty list, the cursor's only slot is the list's `head`, which the
  model fills directly;
- otherwise the model walks a node cursor until that node's `next` is empty,
  then fills that `next`.

Both cases reach the same empty link the Rust loop stops at.

## Model

| member | source | states |
|---|---|---|
| `LinkedLists.Node.constructor` | src/linkedlist.rs:7-10 | `Node::new(data)` holds `data` and has no successor |
| `LinkedLists.LinkedList.constructor` | src/linkedlist.rs:34-36 | `new()` gives a valid list with no head and empty contents, owning only fresh objects |
| `LinkedLists.LinkedList.PushFront` | src/linkedlist.rs:38-42 | the contents become `[data] + old contents`; the new head links to the old head and the old spine sits unchanged behind it; only fresh nodes join the footprint |
| `LinkedLists.LinkedList.PushBack` | src/linkedlist.rs:44-61 | the contents become `old contents + [data]` (so `[data]` on an empty list); only fresh nodes join the footprint. That the cursor loop stops exactly at the last node, the only one whose link is empty, is proved by an assertion in the body (from the loop invariants), not stated in the contract |
| `LinkedLists.LinkedList.PopFront` | src/linkedlist.rs:63-69 | empty list: returns `None` and the list stays empty; otherwise returns `Some(old head value)` and the contents become the old tail, one shorter; the footprint only shrinks |
| `LinkedLists.Iter.constructor` | src/linkedlist.rs:75-77 | an iterator owning a chain yields exactly that chain's values |
| `LinkedLists.Iter.Next` | src/linkedlist.rs:17-27 | returns `Some` of the next value and drops it from what remains; once exhausted, returns `None` and stays exhausted |
| `LinkedLists.LinkedList.Iter` | src/linkedlist.rs:71-78 | does not modify the list; the new iterator will yield exactly the current contents, head to tail, from nodes that are all fresh, so they are disjoint from the list |
| `ListProperties.Drain` | src/main.rs:50 | consuming an iterator with `for_each` visits exactly the values it had left, in order, and leaves it exhausted |
| `ListProperties.IterateFully` | src/linkedlist.rs:71-78 | iterating a valid list yields its contents head to tail, and every later `next` answers `None` |
| `ListProperties.PushBackAll` | src/linkedlist.rs:44-61 | `push_back` of v1..vn onto a new list, then iteration, yields v1..vn |
| `ListProperties.PushFrontAll` | src/linkedlist.rs:38-42 | `push_front` of v1..vn onto a new list, then iteration, yields vn..v1 |
| `ListProperties.PopEmptyRepeatedly` | src/linkedlist.rs:63-69 | `pop_front` on a new list answers `None` every time it is called, and the list stays empty |
| `ListProperties.PushFrontThenPopFront` | src/linkedlist.rs:38-69 | on any list, `push_front(x)` then `pop_front()` returns `Some(x)` and restores the previous contents |
| `ListProperties.IterateIsSnapshot` | src/linkedlist.rs:71-78 | an iterator taken before `push_back` and `pop_front` change the list still yields the contents as they were when `iter()` was called |
| `ListProperties.Applied` | src/linkedlist.rs:38-61 | reference contents after any sequence of front/back insertions on a new list; each insertion adds exactly one value |
| `ListProperties.AppliedMultiset` | src/linkedlist.rs:38-61 | the values in `Applied(ops)` are, as a multiset, exactly the inserted values: none lost, none duplicated |
| `ListProperties.Run` | src/linkedlist.rs:38-61 | any interleaving of n `push_back` and m `push_front` calls on a new list iterates as `Applied(ops)`: exactly n + m values, the inserted ones |
| `Driver.UsingBoxWithLinkedListAndRecursiveValue` | src/main.rs:39-50 | the program's own sequence of calls: `unwrap` on the popped value cannot fail, the popped value is `"Such wow"`, and iteration then yields `"Lol"`, `"rofllelemeio"`, `"kekw"`, `"x'D"` |

## Left out

- Deallocation: the model does not show that a popped node, or the chain of a dropped list, is freed exactly once. Rust's `Drop` of boxed nodes has no counterpart in a garbage-collected heap.
- `#[derive(Clone)]`: values are treated as plain values, so cloning a node copies its value. The copy in `LinkedList.Iter` is a loop that builds the copy front to back. The derived `clone` does the same work by recursion.
- Output: `println!` in the driver is left out. `Driver.UsingBoxWithLinkedListAndRecursiveValue` returns the popped value and the values it would print instead.
- The rest of `src/main.rs` (the `Rc<RefCell<_>>` demonstration, spawned threads, the `Arc<Mutex<_>>` counter, the channel demonstration and the `sleep`-sequenced `main`) is not part of this model. It is concurrency and printing glue that never touches the list.
- Allocation failure is not modelled: every `Box::new` succeeds.
- `LinkedLists.LinkedList.PushBack`: its frame is the whole footprint (`modifies Repr`), although only the last node's link and the list's own fields change.
