/** A forward chain of nodes with `head`, `tail` and `size`. */
module SingleLinked {
  import opened Common

  /** The message of the exception getElementAt throws. */
  const OutOfRangeMessage := "Index(es) out of range."

  /** `s` with the elements at `i` and `j` exchanged. */
  function Swapped<E>(s: seq<E>, i: nat, j: nat): (r: seq<E>)
    requires i < |s| && j < |s|
    ensures |r| == |s| && r[i] == s[j] && r[j] == s[i]
    ensures forall k :: 0 <= k < |s| && k != i && k != j ==> r[k] == s[k]
  {
    s[i := s[j]][j := s[i]]
  }

  /** Swapping an index with itself changes nothing. */
  lemma SwappedSame<E>(s: seq<E>, i: nat)
    requires i < |s|
    ensures Swapped(s, i, i) == s
  {
  }

  /** A swap only reorders: the same elements, and swapping back undoes it. */
  lemma SwappedPermutes<E>(s: seq<E>, i: nat, j: nat)
    requires i < |s| && j < |s|
    ensures multiset(Swapped(s, i, j)) == multiset(s)
    ensures Swapped(Swapped(s, i, j), i, j) == s
    ensures Swapped(s, i, j) == Swapped(s, j, i)
  {
  }

  class Node<E> {
    var element: E
    var next: Node?<E>

    constructor (e: E)
      ensures element == e && next == null
    {
      element := e;
      next := null;
    }

    constructor WithNext(e: E, n: Node?<E>)
      ensures element == e && next == n
    {
      element := e;
      next := n;
    }
  }

  class SingleLinkedList<E> {
    var head: Node?<E>
    var tail: Node?<E>
    var size: int

    /** The chain's nodes from head to tail. */
    ghost var Nodes: seq<Node<E>>
    /** Their elements, in order. */
    ghost var Contents: seq<E>

    /** The chain invariant: `size` distinct nodes linked head to tail, tail
        without a successor, head and tail absent exactly when empty. */
    ghost predicate Valid()
      reads this, Nodes
    {
      |Nodes| == size && |Contents| == size &&
      (size == 0 ==> head == null && tail == null) &&
      (size > 0 ==> head == Nodes[0] && tail == Nodes[size - 1] && tail.next == null) &&
      (forall i :: 0 <= i < size - 1 ==> Nodes[i].next == Nodes[i + 1]) &&
      (forall i :: 0 <= i < size ==> Nodes[i].element == Contents[i]) &&
      (forall i, j :: 0 <= i < j < size ==> Nodes[i] != Nodes[j])
    }

    constructor ()
      ensures Valid() && Contents == [] && Nodes == []
    {
      head, tail, size := null, null, 0;
      Nodes, Contents := [], [];
    }

    /** The element-array constructor as written: its first loop counts down
        from 0, so a non-empty input makes it index the array at -1, and an empty
        one makes it read element 0 of an empty array. It never completes. */
    static method FromElementsAsWritten(es: seq<E>) returns (outcome: Outcome)
      ensures outcome == Fail(IndexOutOfBounds(if es == [] then 0 else -1))
    {
      var size := |es|;
      var eArray := new Node?<E>[size];
      var i := 0;
      while i < size
        invariant i == 0 || (i == -1 && size > 0)
        decreases i + 1
      {
        if i < 0 { return Fail(IndexOutOfBounds(i)); }
        var node := new Node<E>(es[i]);
        eArray[i] := node;
        i := i - 1;
      }
      // Here size == 0: the linking loop runs no step and `eArray[0]` is out of bounds.
      return Fail(IndexOutOfBounds(0));
    }

    /** The element-array constructor as intended: one node per element, each
        linked to the next, head the first and tail the last; an empty input
        gives an empty list. */
    constructor FromElements(es: seq<E>)
      ensures Valid() && fresh(Nodes) && Contents == es
    {
      size := |es|;
      head, tail := null, null;
      Nodes, Contents := [], es;
      new;
      label initialised:
      var eArray := new Node?<E>[size];
      ghost var nodes: seq<Node<E>> := [];
      for i := 0 to size
        invariant unchanged@initialised(this) && |nodes| == i && fresh(nodes)
        invariant forall k :: 0 <= k < i ==> eArray[k] == nodes[k]
        invariant forall k :: 0 <= k < i ==> nodes[k].element == es[k] && nodes[k].next == null
        invariant forall a, b :: 0 <= a < b < i ==> nodes[a] != nodes[b]
      {
        var node := new Node<E>(es[i]);
        eArray[i] := node;
        nodes := nodes + [node];
      }
      var j := 0;
      while j < size - 1
        invariant unchanged@initialised(this) && 0 <= j <= if size == 0 then 0 else size - 1
        invariant forall k :: 0 <= k < size ==> eArray[k] == nodes[k] && nodes[k].element == es[k]
        invariant forall k :: 0 <= k < j ==> nodes[k].next == nodes[k + 1]
        invariant forall k :: j <= k < size ==> nodes[k].next == null
      {
        eArray[j].next := eArray[j + 1];
        j := j + 1;
      }
      if size > 0 {
        head := eArray[0];
        tail := eArray[size - 1];
      }
      Nodes := nodes;
    }

    function IsEmpty(): (b: bool)
      reads this, Nodes
      requires Valid()
      ensures b <==> Contents == []
    {
      size == 0
    }

    /** The element of head, None when empty. */
    function First(): (r: Option<E>)
      reads this, Nodes
      requires Valid()
      ensures r == if Contents == [] then None else Some(Contents[0])
    {
      if IsEmpty() then None else Some(head.element)
    }

    /** The element of tail, None when empty. */
    function Last(): (r: Option<E>)
      reads this, Nodes
      requires Valid()
      ensures r == if Contents == [] then None else Some(Contents[|Contents| - 1])
    {
      if IsEmpty() then None else Some(tail.element)
    }

    /** Appends `e` after tail. The list must not be empty: tail is dereferenced. */
    method AddLast(e: E)
      requires Valid() && size > 0
      modifies this, tail
      ensures Valid() && size == old(size) + 1
      ensures Contents == old(Contents) + [e]
      ensures Nodes == old(Nodes) + [tail] && fresh(tail) && head == old(head)
    {
      var node := new Node<E>(e);
      tail.next := node;
      tail := node;
      size := size + 1;
      Nodes := Nodes + [node];
      Contents := Contents + [e];
    }

    /** addFirst as written: it allocates a node pointing at head but links it
        nowhere, and raises size, so size no longer counts the chain. */
    method AddFirstAsWritten(e: E)
      requires Valid()
      modifies this`size
      ensures size == old(size) + 1 && head == old(head) && tail == old(tail)
      ensures !Valid()
    {
      var node := new Node<E>.WithNext(e, head);
      size := size + 1;
    }

    /** addFirst as intended: the new node becomes head (and tail of an empty list). */
    method AddFirst(e: E)
      requires Valid()
      modifies this
      ensures Valid() && size == old(size) + 1
      ensures Contents == [e] + old(Contents)
      ensures Nodes == [head] + old(Nodes) && fresh(head)
    {
      var node := new Node<E>.WithNext(e, head);
      head := node;
      if tail == null {
        tail := node;
      }
      size := size + 1;
      Nodes := [node] + Nodes;
      Contents := [e] + Contents;
    }

    /** The node `index` steps from head; IllegalArgument outside [0, size - 1]. */
    method GetElementAt(index: int) returns (r: Result<Node<E>>)
      requires Valid()
      ensures r.Failure? <==> index < 0 || index > size - 1
      ensures r.Failure? ==> r.error == IllegalArgument(OutOfRangeMessage)
      ensures r.Success? ==> r.value == Nodes[index] && r.value.element == Contents[index]
    {
      if index < 0 || index > size - 1 {
        return Failure(IllegalArgument(OutOfRangeMessage));
      }
      var current := head;
      for i := 0 to index
        invariant current == Nodes[i]
      {
        current := current.next;
      }
      return Success(current);
    }

    /** Exchanges the elements stored at two positions, after looking both up;
        nodes and links stay as they are. Either index out of range fails before
        anything is written. */
    method SwapNode(first: int, second: int) returns (outcome: Outcome)
      requires Valid()
      modifies this`Contents, Nodes`element
      ensures Valid() && Nodes == old(Nodes)
      ensures outcome.Fail? <==> !(0 <= first < size && 0 <= second < size)
      ensures outcome.Fail? ==>
                outcome.error == IllegalArgument(OutOfRangeMessage) &&
                Contents == old(Contents) && unchanged(Nodes)
      ensures outcome.Pass? ==> Contents == Swapped(old(Contents), first, second)
    {
      var r1 := GetElementAt(first);
      if r1.Failure? { return Fail(r1.error); }
      var r2 := GetElementAt(second);
      if r2.Failure? { return Fail(r2.error); }
      var node1, node2 := r1.value, r2.value;
      var temp := node1.element;
      node1.element := node2.element;
      node2.element := temp;
      Contents := Swapped(Contents, first, second);
      return Pass;
    }

    /** "(" + the first `size` elements from head joined by ", " + ")". */
    method ToString(render: E -> string) returns (s: string)
      requires Valid()
      ensures s == "(" + Joined(Rendered(render, Contents), ", ") + ")"
    {
      ghost var parts := Rendered(render, Contents);
      var sb := "(";
      var walk := head;
      for i := 0 to size
        invariant walk == if i < size then Nodes[i] else null
        invariant sb == "(" + Joined(parts[..i], ", ") + (if 0 < i < size then ", " else "")
      {
        assert parts[..i + 1][..i] == parts[..i];
        sb := sb + render(walk.element);
        if i != size - 1 {
          sb := sb + ", ";
        }
        walk := walk.next;
      }
      assert parts[..size] == parts;
      sb := sb + ")";
      s := sb;
    }
  }

  /** Swapping the ends of (A, B, C), an index with itself, and indices outside the list. */
  method SwapDemo() returns (swapped: string, same: Outcome, below: Outcome, beyond: Outcome)
    ensures swapped == "(C, B, A)" && same == Pass
    ensures below == Fail(IllegalArgument(OutOfRangeMessage)) && beyond == below
  {
    var list := new SingleLinkedList<string>.FromElements(["A", "B", "C"]);
    var _ := list.SwapNode(0, 2);
    assert list.Contents == ["C", "B", "A"];
    same := list.SwapNode(1, 1);
    SwappedSame(["C", "B", "A"], 1);
    below := list.SwapNode(-1, 0);
    beyond := list.SwapNode(0, 3);
    var asIs := (s: string) => s;
    swapped := list.ToString(asIs);
    assert Rendered(asIs, list.Contents) == ["C", "B", "A"];
    JoinedCons("C", ["B", "A"], ", ");
    JoinedCons("B", ["A"], ", ");
  }
}
