/** A generic singly-linked list with a head reference, a tail reference and
    a running element count, updated in place.

    The public view of a list is the ghost sequence `Contents`; the ghost
    sequence `Nodes` is the chain of cells reachable from `head`, in order.
    Three object invariants of increasing strength are used, because some
    operations of the list leave it in a state that is well linked but whose
    `tail` or `size` no longer agree with the chain:
      - Linked():  the chain from `head` is finite, null-terminated and
                   without repetition, and `tail` is either its last cell or
                   a cell that is not on the chain at all;
      - Counted(): Linked() and `size` is the length of the chain;
      - Valid():   Counted() and `tail` is the last cell (null when empty).
 */
module SinglyLinked {

  /** The exceptions the list raises, as failure outcomes. */
  datatype Exception = IndexOutOfBounds | NullPointer | NoSuchElement

  datatype Result<T> = Ok(value: T) | Err(error: Exception)

  /** One cell of the chain. */
  class Node<T> {
    var data: T
    var next: Node?<T>

    constructor (data: T, next: Node?<T>)
      ensures this.data == data && this.next == next
    {
      this.data := data;
      this.next := next;
    }
  }

  /** Whether `index` lies in [0, size]: one past the last element is accepted. */
  predicate IsIndexInRange(index: int, size: int): (r: bool)
    ensures 0 <= size ==> (r <==> (0 <= index < size || index == size))
    ensures size < 0 ==> !r
  {
    0 <= index && index <= size
  }

  /** No element occurs twice in `s`. */
  ghost predicate Distinct<X>(s: seq<X>)
  {
    forall i, j :: 0 <= i < j < |s| ==> s[i] != s[j]
  }

  lemma DistinctAfterInsert<X>(s: seq<X>, k: nat, x: X)
    requires Distinct(s) && k <= |s|
    requires forall i :: 0 <= i < |s| ==> s[i] != x
    ensures Distinct(s[..k] + [x] + s[k..])
  {
    var t := s[..k] + [x] + s[k..];
    forall i, j | 0 <= i < j < |t|
      ensures t[i] != t[j]
    {
      if i != k && j != k {
        assert t[i] == s[if i < k then i else i - 1];
        assert t[j] == s[if j < k then j else j - 1];
      }
    }
  }

  lemma DistinctAfterRemove<X>(s: seq<X>, k: nat)
    requires Distinct(s) && k < |s|
    ensures Distinct(s[..k] + s[k + 1..])
  {
    var t := s[..k] + s[k + 1..];
    forall i, j | 0 <= i < j < |t|
      ensures t[i] != t[j]
    {
      assert t[i] == s[if i < k then i else i + 1];
      assert t[j] == s[if j < k then j else j + 1];
    }
  }

  /** Splicing cell `n`, holding `x`, in at position `k` of a well-formed
      chain gives a well-formed chain over the spliced sequences. */
  lemma SplicedChain<T>(was: seq<Node<T>>, con: seq<T>, repr: set<object>, k: nat, n: Node<T>, x: T)
    requires |was| == |con| && 0 < k < |was| && n.data == x && n !in was
    requires forall i :: 0 <= i < |was| ==> was[i] in repr && was[i].data == con[i]
    requires forall i :: 0 <= i < k - 1 ==> was[i].next == was[i + 1]
    requires forall i :: k <= i < |was| - 1 ==> was[i].next == was[i + 1]
    requires was[k - 1].next == n && n.next == was[k] && was[|was| - 1].next == null
    requires Distinct(was)
    ensures var nodes := was[..k] + [n] + was[k..];
      var contents := con[..k] + [x] + con[k..];
      |nodes| == |contents| &&
      (forall i :: 0 <= i < |nodes| ==> nodes[i] in repr + {n} && nodes[i].data == contents[i]) &&
      (forall i :: 0 <= i < |nodes| - 1 ==> nodes[i].next == nodes[i + 1]) &&
      nodes[|nodes| - 1] == was[|was| - 1] && nodes[|nodes| - 1].next == null &&
      Distinct(nodes)
  {
    var nodes := was[..k] + [n] + was[k..];
    var contents := con[..k] + [x] + con[k..];
    forall i | 0 <= i < |nodes|
      ensures nodes[i] in repr + {n} && nodes[i].data == contents[i]
    {
      if i < k {
        assert nodes[i] == was[i] && contents[i] == con[i];
      } else if i > k {
        assert nodes[i] == was[i - 1] && contents[i] == con[i - 1];
      }
    }
    forall i | 0 <= i < |nodes| - 1
      ensures nodes[i].next == nodes[i + 1]
    {
      if i < k - 1 {
        assert nodes[i] == was[i] && nodes[i + 1] == was[i + 1];
      } else if i > k {
        assert nodes[i] == was[i - 1] && nodes[i + 1] == was[i];
      }
    }
    DistinctAfterInsert(was, k, n);
  }

  /** Unlinking the cell at position `k` of a well-formed chain, where the
      cell before it now points past it, gives a well-formed chain over the
      shortened sequences. */
  lemma SplicedOutChain<T>(was: seq<Node<T>>, con: seq<T>, repr: set<object>, k: nat)
    requires |was| == |con| && 0 < k < |was| - 1
    requires forall i :: 0 <= i < |was| ==> was[i] in repr && was[i].data == con[i]
    requires forall i :: 0 <= i < k - 1 ==> was[i].next == was[i + 1]
    requires forall i :: k + 1 <= i < |was| - 1 ==> was[i].next == was[i + 1]
    requires was[k - 1].next == was[k + 1] && was[|was| - 1].next == null
    requires Distinct(was)
    ensures var nodes := was[..k] + was[k + 1..];
      var contents := con[..k] + con[k + 1..];
      |nodes| == |contents| &&
      (forall i :: 0 <= i < |nodes| ==> nodes[i] in repr && nodes[i].data == contents[i]) &&
      (forall i :: 0 <= i < |nodes| - 1 ==> nodes[i].next == nodes[i + 1]) &&
      nodes[|nodes| - 1] == was[|was| - 1] && nodes[|nodes| - 1].next == null &&
      Distinct(nodes)
  {
    var nodes := was[..k] + was[k + 1..];
    var contents := con[..k] + con[k + 1..];
    forall i | 0 <= i < |nodes|
      ensures nodes[i] in repr && nodes[i].data == contents[i]
    {
      if i < k {
        assert nodes[i] == was[i] && contents[i] == con[i];
      } else {
        assert nodes[i] == was[i + 1] && contents[i] == con[i + 1];
      }
    }
    forall i | 0 <= i < |nodes| - 1
      ensures nodes[i].next == nodes[i + 1]
    {
      if i < k - 1 {
        assert nodes[i] == was[i] && nodes[i + 1] == was[i + 1];
      } else if i >= k {
        assert nodes[i] == was[i + 1] && nodes[i + 1] == was[i + 2];
      }
    }
    DistinctAfterRemove(was, k);
  }

  /** The cell reached from `start` after following `k` successor links,
      stopping early at null. */
  ghost function Walk<T>(start: Node?<T>, k: nat): Node?<T>
    reads *
    decreases k
  {
    if k == 0 || start == null then start else Walk(start.next, k - 1)
  }

  class LinkedList<T> {
    // public view
    ghost var Contents: seq<T>
    ghost var Nodes: seq<Node<T>>
    ghost var Repr: set<object>

    // implementation
    var head: Node?<T>
    var tail: Node?<T>
    var size: int

    ghost predicate Linked()
      reads this, Repr
    {
      this in Repr &&
      |Contents| == |Nodes| &&
      (forall i :: 0 <= i < |Nodes| ==> Nodes[i] in Repr && Nodes[i].data == Contents[i]) &&
      (forall i :: 0 <= i < |Nodes| - 1 ==> Nodes[i].next == Nodes[i + 1]) &&
      (Nodes != [] ==> Nodes[|Nodes| - 1].next == null) &&
      Distinct(Nodes) &&
      head == (if Nodes == [] then null else Nodes[0]) &&
      (tail != null ==> tail in Repr) &&
      (forall i :: 0 <= i < |Nodes| - 1 ==> Nodes[i] != tail) &&
      (head != null ==> tail != null)
    }

    ghost predicate Counted()
      reads this, Repr
    {
      Linked() && size == |Nodes|
    }

    ghost predicate Valid()
      reads this, Repr
    {
      Counted() &&
      (Nodes == [] ==> tail == null) &&
      (Nodes != [] ==> tail == Nodes[|Nodes| - 1])
    }

    /** The cell `GetNodeAtIndex(index)` returns. */
    ghost function NodeAt(index: int): Node?<T>
      reads this
    {
      if head == null || !IsIndexInRange(index, size) then null
      else if index < |Nodes| then Nodes[index]
      else null
    }

    /** Following `k` links from the `j`-th cell of the chain lands `k`
        cells further on, or on null once the chain has ended. */
    lemma {:induction false} WalkAlongChain(j: nat, k: nat)
      requires Linked() && j < |Nodes|
      ensures Walk(Nodes[j], k) == if j + k < |Nodes| then Nodes[j + k] else null
      decreases k
    {
      if k > 0 {
        if j + 1 < |Nodes| {
          assert Nodes[j].next == Nodes[j + 1];
          WalkAlongChain(j + 1, k - 1);
        } else {
          assert Nodes[j].next == null;
        }
      }
    }

    /** `size` is the number of cells reachable from `head`: following
        `size` links from `head` reaches null and no shorter walk does, and
        in a valid list the cell before that point is `tail`. */
    lemma SizeCountsReachableCells()
      requires Counted()
      ensures Walk(head, size) == null
      ensures forall k :: 0 <= k < size ==> Walk(head, k) != null
      ensures Valid() && size > 0 ==> Walk(head, size - 1) == tail
    {
      if Nodes != [] {
        WalkAlongChain(0, size);
        forall k | 0 <= k < size
          ensures Walk(head, k) != null
        {
          WalkAlongChain(0, k);
        }
        WalkAlongChain(0, size - 1);
      }
    }

    constructor ()
      ensures Valid() && fresh(Repr)
      ensures Contents == []
    {
      head := null;
      tail := null;
      size := 0;
      Contents := [];
      Nodes := [];
      Repr := {this};
    }

    function IsEmpty(): (r: bool)
      reads this, Repr
      ensures Linked() ==> (r <==> Contents == [])
      ensures Counted() ==> (r <==> size == 0)
    {
      head == null
    }

    function GetSize(): (r: int)
      reads this, Repr
      ensures Counted() ==> r == |Contents| && (r == 0 <==> Contents == [])
    {
      size
    }

    /** Walks `index` links from `head`; null when the list is empty, when
        `index` is outside [0, size], or when the chain ends first. */
    method GetNodeAtIndex(index: int) returns (n: Node?<T>)
      requires Linked()
      ensures n == NodeAt(index)
      ensures Counted() && 0 <= index < |Contents| ==> n != null && n == Nodes[index] && n.data == Contents[index]
      ensures Counted() && index == |Contents| ==> n == null
    {
      if IsEmpty() || !IsIndexInRange(index, size) {
        return null;
      }
      var currentPosition := 0;
      var currentNode := head;
      while currentPosition < index && currentNode != null
        invariant 0 <= currentPosition <= index
        invariant currentPosition <= |Nodes|
        invariant currentNode == if currentPosition < |Nodes| then Nodes[currentPosition] else null
        decreases index - currentPosition
      {
        currentNode := currentNode.next;
        currentPosition := currentPosition + 1;
      }
      return currentNode;
    }

    method AddAtHead(x: T)
      requires Linked()
      modifies this
      ensures Linked() && fresh(head) && Repr == old(Repr) + {head}
      ensures Nodes == [head] + old(Nodes) && Contents == [x] + old(Contents)
      ensures size == old(size) + 1
      ensures tail == if old(tail) == null then head else old(tail)
      ensures old(Counted()) ==> Counted()
      ensures old(Valid()) ==> Valid()
    {
      head := new Node(x, head);
      if tail == null {
        tail := head;
      }
      size, Nodes, Contents, Repr := size + 1, [head] + Nodes, [x] + Contents, Repr + {head};
    }

    method AddAtTail(x: T)
      requires Linked()
      modifies this, tail
      ensures Linked() && fresh(tail) && Repr == old(Repr) + {tail}
      ensures tail.data == x && tail.next == null && size == old(size) + 1
      ensures old(head) == null ==> head == tail && Nodes == [tail] && Contents == [x]
      ensures old(head) != null && old(tail) in old(Nodes) ==>
        head == old(head) && Nodes == old(Nodes) + [tail] && Contents == old(Contents) + [x]
      // a tail that is not on the chain: the new cell is hung on it, not on the chain
      ensures old(head) != null && old(tail) !in old(Nodes) ==>
        head == old(head) && Nodes == old(Nodes) && Contents == old(Contents) && old(tail).next == tail
      ensures old(Counted()) && (old(head) == null || old(tail) in old(Nodes)) ==> Counted()
      ensures old(Valid()) ==> Valid() && Contents == old(Contents) + [x]
    {
      var newNode := new Node(x, null);
      if IsEmpty() {
        head, tail := newNode, newNode;
        Nodes, Contents := [newNode], [x];
      } else {
        ghost var onChain := tail in Nodes;
        tail.next := newNode;
        tail := tail.next;
        if onChain {
          Nodes, Contents := Nodes + [newNode], Contents + [x];
        }
      }
      size, Repr := size + 1, Repr + {newNode};
    }

    method AddAtIndex(index: int, x: T) returns (ok: bool)
      requires Valid()
      modifies Repr
      ensures Valid() && fresh(Repr - old(Repr))
      ensures ok <==> IsIndexInRange(index, old(|Contents|))
      ensures ok ==> Contents == old(Contents)[..index] + [x] + old(Contents)[index..] && Contents[index] == x
      ensures !ok ==> unchanged(this)
    {
      if !IsIndexInRange(index, size) {
        return false;
      }
      if index == 0 {
        AddAtHead(x);
        return true;
      }
      if index == size {
        AddAtTail(x);
        return true;
      }
      InsertInside(index, x);
      return true;
    }

    /** The splice of `addAtIndex` for a position strictly inside the list:
        the new cell goes after the cell at `index - 1`. */
    method InsertInside(index: int, x: T)
      requires Valid() && 0 < index < |Contents|
      modifies Repr
      ensures Valid() && fresh(Repr - old(Repr))
      ensures Contents == old(Contents)[..index] + [x] + old(Contents)[index..]
    {
      ghost var was := Nodes;
      var before := GetNodeAtIndex(index - 1);
      // the IllegalArgumentException branch of the source cannot be taken
      assert before != null;
      assert before.next == was[index];
      var newNode := new Node(x, before.next);
      before.next := newNode;
      forall i | 0 <= i < |was| - 1 && i != index - 1
        ensures was[i].next == was[i + 1]
      {
        assert was[i] != before;
      }
      SplicedChain(was, Contents, Repr, index, newNode, x);
      ghost var nodes := was[..index] + [newNode] + was[index..];
      size, Nodes, Contents, Repr := size + 1, nodes, Contents[..index] + [x] + Contents[index..], Repr + {newNode};
    }

    /** Fails with IndexOutOfBounds outside [0, size] or on an empty list,
        and with NullPointer ("Node not found") when the chain ends before
        `index`, which includes `index == size`. */
    method GetElementAtIndex(index: int) returns (r: Result<T>)
      requires Linked()
      ensures r == if !IsIndexInRange(index, size) || Contents == [] then Err(IndexOutOfBounds)
                   else if index < |Contents| then Ok(Contents[index])
                   else Err(NullPointer)
      ensures Counted() ==> (r.Ok? <==> 0 <= index < |Contents|)
    {
      if !IsIndexInRange(index, size) || IsEmpty() {
        return Err(IndexOutOfBounds);
      }
      var nodeFound := GetNodeAtIndex(index);
      if nodeFound == null {
        return Err(NullPointer);
      }
      return Ok(nodeFound.data);
    }

    method GetFirstElement() returns (r: Result<T>)
      requires Linked()
      ensures r == if Contents == [] then Err(NoSuchElement) else Ok(Contents[0])
    {
      if IsEmpty() {
        return Err(NoSuchElement);
      }
      return Ok(head.data);
    }

    /** Reads the cell `tail` refers to, which is the last element only
        when the tail reference is up to date. */
    method GetLastElement() returns (r: Result<T>)
      requires Linked()
      ensures Contents == [] ==> r == Err(NoSuchElement)
      ensures Contents != [] ==> r == Ok(tail.data)
      ensures Valid() && Contents != [] ==> r == Ok(Contents[|Contents| - 1])
    {
      if IsEmpty() {
        return Err(NoSuchElement);
      }
      return Ok(tail.data);
    }

    /** Advances `head` but never clears `tail`: emptying the list this way
        leaves `tail` on the detached cell. */
    method RemoveFirstElement() returns (ok: bool)
      requires Counted()
      modifies this
      ensures Counted() && Repr == old(Repr) && tail == old(tail)
      ensures ok <==> old(Contents) != []
      ensures ok ==> Nodes == old(Nodes)[1..] && Contents == old(Contents)[1..]
      ensures !ok ==> unchanged(this)
      ensures old(Valid()) && old(|Contents|) != 1 ==> Valid()
      ensures old(Valid()) && old(|Contents|) == 1 ==> !Valid()
    {
      if IsEmpty() {
        return false;
      }
      head, size := head.next, size - 1;
      Nodes, Contents := Nodes[1..], Contents[1..];
      return true;
    }

    /** On a one-element list the cell at index size - 2 does not exist and
        the source dereferences null before changing anything. */
    method RemoveLastElement() returns (r: Result<bool>)
      requires Valid()
      modifies Repr
      ensures Valid() && Repr == old(Repr)
      ensures r == if old(|Contents|) == 0 then Ok(false)
                   else if old(|Contents|) == 1 then Err(NullPointer)
                   else Ok(true)
      ensures r == Ok(true) ==> Contents == old(Contents)[..old(|Contents|) - 1]
      ensures r != Ok(true) ==> unchanged(this)
    {
      if IsEmpty() {
        return Ok(false);
      }
      var newTail := GetNodeAtIndex(size - 2);
      if newTail == null {
        return Err(NullPointer);
      }
      newTail.next := null;
      tail, size := newTail, size - 1;
      Nodes, Contents := Nodes[..|Nodes| - 1], Contents[..|Contents| - 1];
      return Ok(true);
    }

    /** Unchecked helper: its only caller guarantees 0 < index < size - 1. */
    method RemoveElementInTheMiddle(index: int) returns (ok: bool)
      requires Valid() && 0 < index < |Contents| - 1
      modifies Repr
      ensures Valid() && Repr == old(Repr) && ok
      ensures Contents == old(Contents)[..index] + old(Contents)[index + 1..]
    {
      ghost var was := Nodes;
      var before := GetNodeAtIndex(index - 1);
      assert before.next == was[index] && was[index].next == was[index + 1];
      before.next := before.next.next;
      forall i | 0 <= i < |was| - 1 && i != index - 1 && i != index
        ensures was[i].next == was[i + 1]
      {
        assert was[i] != before;
      }
      SplicedOutChain(was, Contents, Repr, index);
      ghost var nodes := was[..index] + was[index + 1..];
      size, Nodes, Contents := size - 1, nodes, Contents[..index] + Contents[index + 1..];
      return true;
    }

    method DeleteAtIndex(index: int) returns (ok: bool)
      requires Valid()
      modifies Repr
      ensures Counted() && Repr == old(Repr)
      ensures ok <==> 0 <= index < old(|Contents|)
      ensures ok ==> Contents == old(Contents)[..index] + old(Contents)[index + 1..]
      ensures !ok ==> unchanged(this)
      // deleting the only element goes through RemoveFirstElement and leaves a stale tail
      ensures !(ok && old(|Contents|) == 1) ==> Valid()
      ensures ok && old(|Contents|) == 1 ==> !Valid()
    {
      if IsEmpty() || !IsIndexInRange(index, size - 1) {
        return false;
      }
      if index == 0 {
        ok := RemoveFirstElement();
        return;
      } else if index == size - 1 {
        var r := RemoveLastElement();
        return r.value;
      }
      ok := RemoveElementInTheMiddle(index);
    }
  }
}
