/** The one place the program drives the list. */
module Driver {
  import opened LinkedLists
  import ListProperties

  /**
   * `RustHeapAllocation::using_box_with_linkedlist_and_recursive_value`:
   * builds a list of strings, pops its head (the `unwrap` cannot fail) and
   * iterates over what is left. The values it prints are returned instead.
   */
  method UsingBoxWithLinkedListAndRecursiveValue() returns (popped: string, printed: seq<string>)
    ensures popped == "Such wow"
    ensures printed == ["Lol", "rofllelemeio", "kekw", "x'D"]
  {
    var list := new LinkedList<string>();
    list.PushBack("Lol");
    list.PushFront("Such wow");
    assert list.Contents == ["Such wow", "Lol"];
    list.PushBack("rofllelemeio");
    list.PushBack("kekw");
    list.PushBack("x'D");
    assert list.Contents == ["Such wow", "Lol", "rofllelemeio", "kekw", "x'D"];

    var r := list.PopFront();
    popped := r.value;

    var it := list.Iter();
    printed := ListProperties.Drain(it);
  }
}
