/**
 * A singly-linked list built from heap nodes, each reachable from exactly one
 * link: the list's head slot or the `next` slot of its predecessor.
 *
 * The abstract view of a list (and of an iterator) is a ghost sequence of
 * values, `Contents`, together with the ghost sequence `Spine` of the nodes
 * that hold them, head first. `IsChain` ties the real `head`/`next` links to
 * that spine: following `next` from `head` visits exactly the spine, in order,
 * and ends in `null` after the last node; no node appears twice, so the chain
 * is acyclic.
 */
module LinkedLists {

  /** The result of `pop_front` and of `Iter::next`: a value, or no value. */
  datatype Option<T> = None | Some(value: T)

  class Node<T> {
    var data: T
    var next: Node?<T>

    /** `Node::new`: a node holding `data` with no successor. */
    constructor (data: T)
      ensures this.data == data && next == null
    {
      this.data := data;
      next := null;
    }
  }

  /** The set of nodes on a spine, as a frame. */
  ghost function Elements<T>(nodes: seq<Node<T>>): set<object>
  {
    set n | n in nodes
  }

  /**
   * `head` starts a chain whose nodes are `nodes`, in order, holding `values`:
   * every node links to the next one on the spine, the last one links to
   * nothing, and no node occurs twice.
   */
  ghost predicate IsChain<T>(head: Node?<T>, nodes: seq<Node<T>>, values: seq<T>)
    reads Elements(nodes)
  {
    |nodes| == |values| &&
    head == (if nodes == [] then null else nodes[0]) &&
    (forall i :: 0 <= i < |nodes| ==> nodes[i].data == values[i]) &&
    (forall i :: 0 <= i < |nodes| - 1 ==> nodes[i].next == nodes[i + 1]) &&
    (nodes != [] ==> nodes[|nodes| - 1].next == null) &&
    (forall i, j :: 0 <= i < j < |nodes| ==> nodes[i] != nodes[j])
  }

  /** Dropping the head node of a chain leaves a chain that starts at its successor. */
  lemma ChainTail<T>(head: Node?<T>, nodes: seq<Node<T>>, values: seq<T>)
    requires IsChain(head, nodes, values) && nodes != []
    ensures IsChain(nodes[0].next, nodes[1..], values[1..])
    ensures Elements(nodes[1..]) == Elements(nodes) - {nodes[0]}
  {
  }

  /** A node that is not on a chain and links to its head extends it at the front. */
  lemma ChainCons<T>(node: Node<T>, nodes: seq<Node<T>>, values: seq<T>)
    requires IsChain(node.next, nodes, values) && node !in nodes
    ensures IsChain(node, [node] + nodes, [node.data] + values)
    ensures Elements([node] + nodes) == {node} + Elements(nodes)
  {
  }

  /**
   * The snapshot iterator returned by `LinkedList.Iter`. It owns its own chain
   * of nodes and hands out their values one by one, head first.
   */
  class Iter<T> {
    var head: Node?<T>
    /** The values still to be yielded, in order. */
    ghost var Remaining: seq<T>
    ghost var Spine: seq<Node<T>>
    ghost var Repr: set<object>

    ghost predicate Valid()
      reads this, Repr
      ensures Valid() ==> this in Repr
    {
      this in Repr &&
      Repr == {this} + Elements(Spine) &&
      IsChain(head, Spine, Remaining)
    }

    /** Takes ownership of the chain starting at `head`. */
    constructor (head: Node?<T>, ghost spine: seq<Node<T>>, ghost values: seq<T>)
      requires IsChain(head, spine, values)
      ensures Valid() && Repr == {this} + Elements(spine)
      ensures Remaining == values
    {
      this.head := head;
      Spine := spine;
      Remaining := values;
      Repr := {this} + Elements(spine);
    }

    /**
     * `Iter::next`: takes the head node out, moves its successor up and
     * yields its value; yields `None` once the chain is exhausted.
     */
    method Next() returns (r: Option<T>)
      requires Valid()
      modifies this
      ensures Valid() && Repr <= old(Repr)
      ensures old(Remaining) == [] ==> r == None && Remaining == []
      ensures old(Remaining) != [] ==>
                r == Some(old(Remaining)[0]) && Remaining == old(Remaining)[1..]
    {
      var taken := head;
      head := null;
      if taken == null {
        r := None;
      } else {
        ChainTail(taken, Spine, Remaining);
        r := Some(taken.data);
        head := taken.next;
        Spine := Spine[1..];
        Remaining := Remaining[1..];
        Repr := {this} + Elements(Spine);
      }
    }
  }

  class LinkedList<T> {
    var head: Node?<T>
    /** The values on the list, head first. */
    ghost var Contents: seq<T>
    ghost var Spine: seq<Node<T>>
    ghost var Repr: set<object>

    ghost predicate Valid()
      reads this, Repr
      ensures Valid() ==> this in Repr
    {
      this in Repr &&
      Repr == {this} + Elements(Spine) &&
      IsChain(head, Spine, Contents)
    }

    /** `LinkedList::new`: an empty list, with no head. */
    constructor ()
      ensures Valid() && fresh(Repr)
      ensures head == null && Contents == []
    {
      head := null;
      Contents := [];
      Spine := [];
      Repr := {this};
    }

    /**
     * `push_front`: a fresh node holding `data` becomes the head and takes
     * over the old chain, which stays as it was behind it.
     */
    method PushFront(data: T)
      requires Valid()
      modifies this
      ensures Valid() && fresh(Repr - old(Repr))
      ensures Contents == [data] + old(Contents)
      ensures head != null && head.next == old(head) && Spine == [head] + old(Spine)
    {
      var node := new Node(data);
      node.next := head;
      ChainCons(node, Spine, Contents);
      head, Spine, Contents := node, [node] + Spine, [data] + Contents;
      Repr := {this} + Elements(Spine);
    }

    /**
     * `push_back`: walks a cursor from the head to the only node whose link
     * is empty and hangs a fresh node holding `data` there; on an empty list
     * the head slot is that empty link.
     */
    method PushBack(data: T)
      requires Valid()
      modifies Repr
      ensures Valid() && fresh(Repr - old(Repr))
      ensures Contents == old(Contents) + [data]
    {
      var node := new Node(data);
      if head == null {
        head := node;
      } else {
        var current := head;
        ghost var i := 0;
        while current.next != null
          invariant 0 <= i < |Spine| && current == Spine[i]
          invariant IsChain(head, Spine, Contents)
          invariant i + 1 < |Spine| ==> current.next == Spine[i + 1]
          decreases |Spine| - i
        {
          current := current.next;
          i := i + 1;
        }
        // the cursor stopped at the last node: only it has an empty link
        assert i == |Spine| - 1;
        current.next := node;
      }
      Spine := Spine + [node];
      Contents := Contents + [data];
      Repr := {this} + Elements(Spine);
    }

    /**
     * `pop_front`: on an empty list yields `None` and changes nothing;
     * otherwise detaches the head, promotes its successor and yields the
     * detached node's value.
     */
    method PopFront() returns (r: Option<T>)
      requires Valid()
      modifies this
      ensures Valid() && Repr <= old(Repr)
      ensures old(Contents) == [] ==> r == None && Contents == []
      ensures old(Contents) != [] ==>
                r == Some(old(Contents)[0]) && Contents == old(Contents)[1..]
    {
      var taken := head;
      head := null;
      if taken == null {
        r := None;
      } else {
        ChainTail(taken, Spine, Contents);
        r := Some(taken.data);
        head := taken.next;
        Spine := Spine[1..];
        Contents := Contents[1..];
        Repr := {this} + Elements(Spine);
      }
    }

    /**
     * `iter`: clones the whole chain into fresh nodes and hands the copy to a
     * new iterator, which therefore yields the contents as they are now,
     * whatever later happens to this list. The list itself is not changed.
     */
    method Iter() returns (it: Iter<T>)
      requires Valid()
      ensures it.Valid() && fresh(it.Repr)
      ensures it.Remaining == Contents
    {
      var copyHead: Node?<T> := null;
      var last: Node?<T> := null;
      ghost var copies: seq<Node<T>> := [];
      var current := head;
      ghost var i := 0;
      while current != null
        invariant 0 <= i <= |Spine|
        invariant current == if i < |Spine| then Spine[i] else null
        invariant IsChain(copyHead, copies, Contents[..i])
        invariant last == if i == 0 then null else copies[i - 1]
        invariant forall k :: 0 <= k < i ==> fresh(copies[k])
        decreases |Spine| - i
      {
        var copy := new Node(current.data);
        if last == null {
          copyHead := copy;
        } else {
          last.next := copy;
        }
        last := copy;
        copies := copies + [copy];
        current := current.next;
        i := i + 1;
      }
      assert Contents[..i] == Contents;
      it := new Iter(copyHead, copies, Contents);
    }
  }
}
