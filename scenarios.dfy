/** Clients of the list: properties of the operations for every list and
    index, and the concrete sequences of calls that the repository's unit
    tests make, with the results they observe. */
module Scenarios {
  import opened SinglyLinked

  /** Inserting at a valid index and reading the same index gives back the
      inserted value. */
  method InsertThenRead<T>(l: LinkedList<T>, i: int, x: T) returns (r: Result<T>)
    requires l.Valid() && 0 <= i <= |l.Contents|
    modifies l.Repr
    ensures l.Valid() && r == Ok(x)
  {
    var ok := l.AddAtIndex(i, x);
    r := l.GetElementAtIndex(i);
  }

  /** After deleting index `i`, reading index `i` gives what used to be at
      `i + 1`, and the size has dropped by one. */
  method DeleteThenRead<T>(l: LinkedList<T>, i: int) returns (r: Result<T>)
    requires l.Valid() && 0 <= i && i + 1 < |l.Contents|
    modifies l.Repr
    ensures l.Counted() && r == Ok(old(l.Contents[i + 1]))
    ensures l.GetSize() == old(l.GetSize()) - 1
  {
    var ok := l.DeleteAtIndex(i);
    r := l.GetElementAtIndex(i);
  }

  /** The list of numbers the unit tests start from: four tail insertions. */
  method NumbersFixture() returns (l: LinkedList<int>)
    ensures l.Valid() && fresh(l.Repr) && l.Contents == [1, 99, 250, 50]
  {
    l := new LinkedList<int>();
    l.AddAtTail(1);
    l.AddAtTail(99);
    l.AddAtTail(250);
    l.AddAtTail(50);
  }

  /** The list of strings the unit tests start from. */
  method LanguagesFixture() returns (l: LinkedList<string>)
    ensures l.Valid() && fresh(l.Repr) && l.Contents == ["Java", "Go", "TypeScript", "C++"]
  {
    l := new LinkedList<string>();
    l.AddAtTail("Java");
    l.AddAtTail("Go");
    l.AddAtTail("TypeScript");
    l.AddAtTail("C++");
  }

  /** Four tail insertions, then positional, first and last reads. */
  method TailInsertions() returns (at2: Result<int>, first: Result<int>, last: Result<int>, n: int)
    ensures at2 == Ok(250) && first == Ok(1) && last == Ok(50) && n == 4
  {
    var l := NumbersFixture();
    at2 := l.GetElementAtIndex(2);
    first := l.GetFirstElement();
    last := l.GetLastElement();
    n := l.GetSize();
  }

  /** Reading one past the last element reports a missing node, not an
      index out of bounds; further out it is out of bounds. */
  method ReadPastTheEnd() returns (atSize: Result<int>, beyond: Result<int>, negative: Result<int>)
    ensures atSize == Err(NullPointer)
    ensures beyond == Err(IndexOutOfBounds) && negative == Err(IndexOutOfBounds)
  {
    var l := new LinkedList<int>();
    l.AddAtTail(1);
    l.AddAtTail(99);
    atSize := l.GetElementAtIndex(2);
    beyond := l.GetElementAtIndex(3);
    negative := l.GetElementAtIndex(-1);
  }

  /** Head insertions read back in reverse order of insertion. */
  method HeadInsertions() returns (only: Result<int>, first: Result<int>, at3: Result<int>, n: int)
    ensures only == Ok(10)
    ensures first == Ok(40) && at3 == Ok(10) && n == 4
  {
    var l := new LinkedList<int>();
    l.AddAtHead(10);
    only := l.GetFirstElement();
    l.AddAtHead(20);
    l.AddAtHead(30);
    l.AddAtHead(40);
    first := l.GetFirstElement();
    at3 := l.GetElementAtIndex(3);
    n := l.GetSize();
  }

  /** Head insertions of strings: the latest one is first. */
  method HeadInsertionsOfStrings() returns (first: Result<string>)
    ensures first == Ok("Xbox")
  {
    var l := new LinkedList<string>();
    l.AddAtHead("Car");
    l.AddAtHead("Xbox");
    first := l.GetFirstElement();
  }

  /** Positional insertions strictly inside the list, and one past the
      range check. */
  method InsertAtIndices() returns (at1: Result<int>, at3: Result<int>, inserted: bool, refused: bool)
    ensures at1 == Ok(200) && at3 == Ok(400)
    ensures inserted && !refused
  {
    var l := new LinkedList<int>();
    l.AddAtTail(100);
    l.AddAtTail(300);
    l.AddAtTail(500);
    inserted := l.AddAtIndex(1, 200);
    var ok := l.AddAtIndex(3, 400);
    refused := l.AddAtIndex(6, 600);
    at1 := l.GetElementAtIndex(1);
    at3 := l.GetElementAtIndex(3);
  }

  /** Positional insertions at index 0 and at index size, which go through
      the head and the tail insertions. */
  method InsertAtEnds() returns (at0: Result<string>, at3: Result<string>)
    ensures at0 == Ok("CPU") && at3 == Ok("CAR")
  {
    var l := new LinkedList<string>();
    l.AddAtTail("Car");
    l.AddAtTail("Xbox");
    var ok := l.AddAtIndex(0, "CPU");
    ok := l.AddAtIndex(3, "CAR");
    at0 := l.GetElementAtIndex(0);
    at3 := l.GetElementAtIndex(3);
  }

  /** Removing from the front down to an empty list: every observation the
      unit test makes holds, yet `tail` still refers to the removed cell. */
  method RemoveFirstUntilEmpty() returns (first: Result<string>, again: bool, n: int, empty: bool, tailKept: bool)
    ensures first == Ok("C++")
    ensures !again && n == 0 && empty
    ensures tailKept
  {
    var l := LanguagesFixture();
    var ok := l.RemoveFirstElement();
    ok := l.RemoveFirstElement();
    ok := l.RemoveFirstElement();
    first := l.GetFirstElement();
    ok := l.RemoveFirstElement();
    again := l.RemoveFirstElement();
    n := l.GetSize();
    empty := l.IsEmpty();
    tailKept := l.tail != null;
  }

  /** Emptying from the front, then inserting at the head and at the tail:
      the tail insertion hangs its cell on the detached old cell, so the
      count says two while the chain from `head` holds one element, reading
      index 1 reports a missing node, and the last element read is one the
      list does not hold. */
  method StaleTailAfterEmptying() returns (n: int, first: Result<int>, at1: Result<int>, last: Result<int>)
    ensures n == 2
    ensures first == Ok(2) && at1 == Err(NullPointer)
    ensures last == Ok(3)
  {
    var l := new LinkedList<int>();
    l.AddAtTail(1);
    var ok := l.RemoveFirstElement();
    l.AddAtHead(2);
    l.AddAtTail(3);
    assert l.Contents == [2];
    n := l.GetSize();
    first := l.GetFirstElement();
    at1 := l.GetElementAtIndex(1);
    last := l.GetLastElement();
  }

  /** Removing from the back: the new last element and the count. */
  method RemoveLastThreeTimes() returns (last: Result<int>, n: int, first: Result<int>)
    ensures last == Ok(250) && n == 1 && first == Ok(1)
  {
    var l := NumbersFixture();
    var r := l.RemoveLastElement();
    last := l.GetLastElement();
    r := l.RemoveLastElement();
    r := l.RemoveLastElement();
    n := l.GetSize();
    first := l.GetFirstElement();
  }

  /** Removing the last of the four strings. */
  method RemoveLastOfStrings() returns (last: Result<string>, n: int)
    ensures last == Ok("TypeScript") && n == 3
  {
    var l := LanguagesFixture();
    var r := l.RemoveLastElement();
    last := l.GetLastElement();
    n := l.GetSize();
  }

  /** Two tail insertions after the stale-tail path leave a count of three
      over a chain of one cell. A positional insertion at index 2 then
      passes the range check, is neither at the head nor at the size, and
      the lookup of the cell before it finds nothing: the state in which
      `addAtIndex` throws IllegalArgumentException. */
  method InsertionPointMissing() returns (n: int, inRange: bool, before: Node?<int>)
    ensures n == 3 && inRange && before == null
  {
    var l := new LinkedList<int>();
    l.AddAtTail(1);
    var ok := l.RemoveFirstElement();
    l.AddAtHead(2);
    l.AddAtTail(3);
    l.AddAtTail(4);
    assert l.Contents == [2];
    n := l.GetSize();
    inRange := IsIndexInRange(2, n);
    before := l.GetNodeAtIndex(1);
  }

  /** Removing the last element of a one-element list dereferences null
      and leaves the list as it was. */
  method RemoveLastOfSingleton() returns (r: Result<bool>, n: int, last: Result<int>)
    ensures r == Err(NullPointer) && n == 1 && last == Ok(7)
  {
    var l := new LinkedList<int>();
    l.AddAtHead(7);
    r := l.RemoveLastElement();
    n := l.GetSize();
    last := l.GetLastElement();
  }

  /** Deleting by index, through the head, the middle and the tail paths. */
  method DeleteAtIndices() returns (first: Result<int>, last: Result<int>, n: int)
    ensures first == Ok(99) && last == Ok(250) && n == 2
  {
    var l := NumbersFixture();
    var ok := l.DeleteAtIndex(0);
    assert l.Contents == [99, 250, 50];
    first := l.GetFirstElement();
    ok := l.DeleteAtIndex(2);
    assert l.Contents == [99, 250];
    last := l.GetLastElement();
    n := l.GetSize();
  }

  /** Four head insertions, then a middle deletion and a tail deletion. */
  method SizesAfterMiddleDeletions() returns (n4: int, n2: int, first: Result<int>, last: Result<int>)
    ensures n4 == 4 && n2 == 2 && first == Ok(40) && last == Ok(20)
  {
    var l := new LinkedList<int>();
    l.AddAtHead(10);
    l.AddAtHead(20);
    l.AddAtHead(30);
    l.AddAtHead(40);
    n4 := l.GetSize();
    var ok := l.DeleteAtIndex(1);
    ok := l.DeleteAtIndex(2);
    n2 := l.GetSize();
    first := l.GetFirstElement();
    last := l.GetLastElement();
  }

  /** Three head insertions, then a head deletion and a tail deletion. */
  method SizesAfterEndDeletions() returns (n3: int, n1: int, rest: Result<string>)
    ensures n3 == 3 && n1 == 1 && rest == Ok("Xbox")
  {
    var l := new LinkedList<string>();
    l.AddAtHead("Car");
    l.AddAtHead("Xbox");
    l.AddAtHead("PC");
    n3 := l.GetSize();
    var ok := l.DeleteAtIndex(0);
    ok := l.DeleteAtIndex(1);
    n1 := l.GetSize();
    rest := l.GetFirstElement();
  }
}
