/**
 * What callers of the list can rely on: whole runs of operations, stated
 * against the list's abstract contents and mostly checked through the
 * iterator, the way the list hands all its values back.
 */
module ListProperties {
  import opened LinkedLists

  /**
   * Consumes an iterator to the end, collecting what it yields, as
   * `for_each` does.
   */
  method Drain<T>(it: Iter<T>) returns (yielded: seq<T>)
    requires it.Valid()
    modifies it
    ensures it.Valid() && it.Remaining == []
    ensures yielded == old(it.Remaining)
  {
    yielded := [];
    var r := it.Next();
    while r.Some?
      invariant it.Valid()
      invariant r.Some? ==> old(it.Remaining) == yielded + [r.value] + it.Remaining
      invariant r.None? ==> old(it.Remaining) == yielded && it.Remaining == []
      decreases |it.Remaining| + if r.Some? then 1 else 0
    {
      yielded := yielded + [r.value];
      r := it.Next();
    }
  }

  /**
   * Iterating a list changes nothing in it, yields its values head to tail,
   * and the exhausted iterator then answers `None` to every further request
   * (`extra` of them here).
   */
  method IterateFully<T>(l: LinkedList<T>, extra: nat) returns (yielded: seq<T>, after: seq<Option<T>>)
    requires l.Valid()
    ensures yielded == l.Contents
    ensures |after| == extra && forall i :: 0 <= i < extra ==> after[i] == None
  {
    var it := l.Iter();
    yielded := Drain(it);
    after := [];
    while |after| < extra
      invariant it.Valid() && it.Remaining == []
      invariant |after| <= extra && forall i :: 0 <= i < |after| ==> after[i] == None
    {
      var r := it.Next();
      after := after + [r];
    }
  }

  /** `push_back` of v1..vn onto a new list makes iteration yield v1..vn. */
  method PushBackAll<T>(vs: seq<T>) returns (yielded: seq<T>)
    ensures yielded == vs
  {
    var l := new LinkedList<T>();
    for i := 0 to |vs|
      invariant l.Valid() && fresh(l.Repr)
      invariant l.Contents == vs[..i]
    {
      l.PushBack(vs[i]);
    }
    assert vs[..|vs|] == vs;
    var none;
    yielded, none := IterateFully(l, 0);
  }

  /** `push_front` of v1..vn onto a new list makes iteration yield vn..v1. */
  method PushFrontAll<T>(vs: seq<T>) returns (yielded: seq<T>)
    ensures |yielded| == |vs|
    ensures forall k :: 0 <= k < |vs| ==> yielded[k] == vs[|vs| - 1 - k]
  {
    var l := new LinkedList<T>();
    for i := 0 to |vs|
      invariant l.Valid() && fresh(l.Repr)
      invariant |l.Contents| == i
      invariant forall k :: 0 <= k < i ==> l.Contents[k] == vs[i - 1 - k]
    {
      l.PushFront(vs[i]);
    }
    var none;
    yielded, none := IterateFully(l, 0);
  }

  /**
   * `pop_front` on an empty list answers `None` and leaves the list empty,
   * however often it is asked (`k` times here).
   */
  method PopEmptyRepeatedly<T>(k: nat) returns (results: seq<Option<T>>, left: seq<T>)
    ensures |results| == k && forall i :: 0 <= i < k ==> results[i] == None
    ensures left == []
  {
    var l := new LinkedList<T>();
    results := [];
    while |results| < k
      invariant l.Valid() && fresh(l.Repr) && l.Contents == []
      invariant |results| <= k && forall i :: 0 <= i < |results| ==> results[i] == None
    {
      var r := l.PopFront();
      results := results + [r];
    }
    var none;
    left, none := IterateFully(l, 0);
  }

  /** `push_front(x)` then `pop_front()` yields `x` back and restores the list. */
  method PushFrontThenPopFront<T>(l: LinkedList<T>, x: T) returns (r: Option<T>)
    requires l.Valid()
    modifies l
    ensures l.Valid() && l.Contents == old(l.Contents)
    ensures r == Some(x)
  {
    l.PushFront(x);
    r := l.PopFront();
  }

  /**
   * The iterator works on a copy: what the list had when `iter()` was called
   * is what comes out, even though the list is changed before the iterator
   * is consumed.
   */
  method IterateIsSnapshot<T>(l: LinkedList<T>, x: T) returns (yielded: seq<T>)
    requires l.Valid()
    modifies l.Repr
    ensures l.Valid() && l.Contents == (old(l.Contents) + [x])[1..]
    ensures yielded == old(l.Contents)
  {
    var it := l.Iter();
    l.PushBack(x);
    assert it.Valid() && it.Remaining == old(l.Contents);
    var popped := l.PopFront();
    yielded := Drain(it);
  }

  /** One insertion at either end. */
  datatype Op<T> = PushFront(value: T) | PushBack(value: T)

  /** The values the operations insert, in the order of the operations. */
  function Values<T>(ops: seq<Op<T>>): seq<T>
  {
    seq(|ops|, i requires 0 <= i < |ops| => ops[i].value)
  }

  /**
   * The contents of a new list after `ops` are applied to it in order: each
   * `PushFront` puts its value before everything so far, each `PushBack`
   * after it. Every operation adds exactly one value.
   */
  function Applied<T>(ops: seq<Op<T>>): (r: seq<T>)
    ensures |r| == |ops|
  {
    if ops == [] then []
    else
      var prior := Applied(ops[..|ops| - 1]);
      match ops[|ops| - 1]
      case PushFront(x) => [x] + prior
      case PushBack(x) => prior + [x]
  }

  /** Applying insertions neither loses nor duplicates a value. */
  lemma {:induction false} AppliedMultiset<T>(ops: seq<Op<T>>)
    ensures multiset(Applied(ops)) == multiset(Values(ops))
  {
    if ops != [] {
      var init := ops[..|ops| - 1];
      AppliedMultiset(init);
      assert Values(ops) == Values(init) + [ops[|ops| - 1].value];
    }
  }

  /**
   * Runs `ops` on a new list and iterates it: the result is `Applied(ops)`,
   * so n `push_back`s and m `push_front`s leave exactly n + m values, the
   * inserted ones.
   */
  method Run<T>(ops: seq<Op<T>>) returns (yielded: seq<T>)
    ensures yielded == Applied(ops)
    ensures |yielded| == |ops| && multiset(yielded) == multiset(Values(ops))
  {
    var l := new LinkedList<T>();
    for i := 0 to |ops|
      invariant l.Valid() && fresh(l.Repr)
      invariant l.Contents == Applied(ops[..i])
    {
      assert ops[..i + 1][..i] == ops[..i];
      match ops[i]
      case PushFront(x) => l.PushFront(x);
      case PushBack(x) => l.PushBack(x);
    }
    assert ops[..|ops|] == ops;
    var none;
    yielded, none := IterateFully(l, 0);
    AppliedMultiset(ops);
  }
}
