/** A doubly-linked list bounded by two permanent sentinel nodes, `header` and
    `trailer`, that hold no element. Every insertion goes through AddBetween and
    every removal through Remove; Concat splices a second list onto this one. */
module DoublyLinked {
  import opened Common

  /** A node: the element (None in a sentinel, where Java stores null) and two links. */
  class Node<E> {
    var prev: Node?<E>
    var elem: Option<E>
    var next: Node?<E>

    constructor (prev: Node?<E>, elem: Option<E>, next: Node?<E>)
      ensures this.prev == prev && this.elem == elem && this.next == next
    {
      this.prev := prev;
      this.elem := elem;
      this.next := next;
    }
  }

  /** The singleton frame of a link that may be null. */
  function Only<E>(n: Node?<E>): set<Node<E>>
  {
    if n == null then {} else {n}
  }

  class DoublyLinkedList<E> {
    var header: Node<E>
    var trailer: Node<E>
    /** The number of nodes in the list, sentinels excluded. */
    var size: int

    /** The chain from header to trailer, both included. */
    ghost var Nodes: seq<Node<E>>
    /** The elements of the real nodes, from first to last. */
    ghost var Contents: seq<E>

    /** The chain invariant: sentinels at both ends with no outer link and no
        element, prev/next consistent along the chain, every node distinct, and
        `size` counting the real nodes. */
    ghost predicate Valid()
      reads this, Nodes
    {
      |Nodes| == size + 2 && |Contents| == size &&
      Nodes[0] == header && Nodes[|Nodes| - 1] == trailer &&
      header.prev == null && trailer.next == null &&
      header.elem == None && trailer.elem == None &&
      (forall i :: 0 <= i < |Nodes| - 1 ==> Nodes[i].next == Nodes[i + 1]) &&
      (forall i :: 0 < i < |Nodes| ==> Nodes[i].prev == Nodes[i - 1]) &&
      (forall i :: 0 <= i < size ==> Nodes[i + 1].elem == Some(Contents[i])) &&
      (forall i, j :: 0 <= i < j < |Nodes| ==> Nodes[i] != Nodes[j])
    }

    /** An empty list: the two sentinels linked to each other. */
    constructor ()
      ensures Valid() && fresh(Nodes)
      ensures Contents == [] && size == 0
      ensures header.next == trailer && trailer.prev == header
    {
      var h := new Node<E>(null, None, null);
      var t := new Node<E>(h, None, null);
      header, trailer, size := h, t, 0;
      Nodes := [h, t];
      Contents := [];
      new;
      header.next := trailer;
    }

    /** A list holding `elements` in order, built by repeated AddLast. */
    constructor FromElements(elements: seq<E>)
      ensures Valid() && fresh(Nodes)
      ensures Contents == elements && size == |elements|
    {
      var h := new Node<E>(null, None, null);
      var t := new Node<E>(h, None, null);
      header, trailer, size := h, t, 0;
      Nodes := [h, t];
      Contents := [];
      new;
      header.next := trailer;
      for i := 0 to |elements|
        invariant Valid() && fresh(Nodes)
        invariant Contents == elements[..i]
      {
        AddLast(elements[i]);
      }
    }

    function IsEmpty(): (b: bool)
      reads this, Nodes
      requires Valid()
      ensures b <==> Contents == []
    {
      size == 0
    }

    /** Inserts `e` in a new node between the adjacent nodes `predecessor` and
        `successor`; `k` is the position of `predecessor` in the chain. */
    method AddBetween(e: E, predecessor: Node<E>, successor: Node<E>, ghost k: nat)
      requires Valid()
      requires k + 1 < |Nodes| && Nodes[k] == predecessor && Nodes[k + 1] == successor
      modifies this, predecessor`next, successor`prev
      ensures Valid()
      ensures header == old(header) && trailer == old(trailer) && size == old(size) + 1
      ensures Contents == old(Contents)[..k] + [e] + old(Contents)[k..]
      ensures Nodes == old(Nodes)[..k + 1] + [Nodes[k + 1]] + old(Nodes)[k + 1..]
      ensures fresh(Nodes[k + 1])
    {
      var newNode := new Node<E>(predecessor, Some(e), successor);
      predecessor.next := newNode;
      successor.prev := newNode;
      size := size + 1;
      Nodes := Nodes[..k + 1] + [newNode] + Nodes[k + 1..];
      Contents := Contents[..k] + [e] + Contents[k..];
    }

    method AddFirst(e: E)
      requires Valid()
      modifies this, Nodes
      ensures Valid()
      ensures header == old(header) && trailer == old(trailer) && size == old(size) + 1
      ensures Contents == [e] + old(Contents)
      ensures Nodes == old(Nodes)[..1] + [Nodes[1]] + old(Nodes)[1..] && fresh(Nodes[1])
    {
      assert Nodes[0].next == Nodes[1];
      var second := header.next;
      AddBetween(e, header, second, 0);
    }

    method AddLast(e: E)
      requires Valid()
      modifies this, Nodes
      ensures Valid()
      ensures header == old(header) && trailer == old(trailer) && size == old(size) + 1
      ensures Contents == old(Contents) + [e]
      ensures Nodes == old(Nodes)[..size] + [Nodes[size]] + [trailer] && fresh(Nodes[size])
    {
      assert Nodes[size + 1].prev == Nodes[size];
      var penultimate := trailer.prev;
      AddBetween(e, penultimate, trailer, size);
      assert Contents == old(Contents) + [e];
    }

    /** Unlinks `node` from its neighbours and returns its element. A missing
        neighbour is left alone, and `size` drops only when both neighbours are
        present, so unlinking a sentinel keeps the count. No list invariant is
        needed: Concat unlinks sentinels. */
    method Remove(node: Node<E>) returns (r: Option<E>)
      modifies this`size, Only(node.prev)`next, Only(node.next)`prev
      ensures r == node.elem
      ensures old(node.prev) != null ==> old(node.prev).next == old(node.next)
      ensures old(node.next) != null ==> old(node.next).prev == old(node.prev)
      ensures size == if old(node.prev) != null && old(node.next) != null then old(size) - 1 else old(size)
    {
      var predecessor := node.prev;
      var successor := node.next;
      if predecessor != null { predecessor.next := successor; }
      if successor != null { successor.prev := predecessor; }
      if predecessor != null && successor != null { size := size - 1; }
      r := node.elem;
    }

    /** Removes and returns the first element; None, with nothing changed, when empty. */
    method RemoveFirst() returns (r: Option<E>)
      requires Valid()
      modifies this, Nodes
      ensures Valid() && header == old(header) && trailer == old(trailer)
      ensures old(Contents) == [] ==> r == None && unchanged(this) && unchanged(old(Nodes))
      ensures old(Contents) != [] ==>
                r == Some(old(Contents)[0]) && Contents == old(Contents)[1..] &&
                size == old(size) - 1 && Nodes == old(Nodes)[..1] + old(Nodes)[2..]
    {
      if IsEmpty() { return None; }
      assert Nodes[0].next == Nodes[1] && Nodes[1].prev == Nodes[0] && Nodes[1].next == Nodes[2];
      var first := header.next;
      r := Remove(first);
      Nodes := Nodes[..1] + Nodes[2..];
      Contents := Contents[1..];
    }

    /** Removes and returns the last element; None, with nothing changed, when empty. */
    method RemoveLast() returns (r: Option<E>)
      requires Valid()
      modifies this, Nodes
      ensures Valid() && header == old(header) && trailer == old(trailer)
      ensures old(Contents) == [] ==> r == None && unchanged(this) && unchanged(old(Nodes))
      ensures old(Contents) != [] ==>
                r == Some(old(Contents)[|old(Contents)| - 1]) &&
                Contents == old(Contents)[..|old(Contents)| - 1] &&
                size == old(size) - 1 && Nodes == old(Nodes)[..old(size)] + [trailer]
    {
      if IsEmpty() { return None; }
      assert Nodes[size + 1].prev == Nodes[size] && Nodes[size].next == Nodes[size + 1];
      assert Nodes[size].prev == Nodes[size - 1];
      var last := trailer.prev;
      r := Remove(last);
      Nodes := Nodes[..size + 1] + [trailer];
      Contents := Contents[..size];
    }

    /** "(" + the elements from header.next up to trailer, joined by ", " + ")". */
    method ToString(render: E -> string) returns (s: string)
      requires Valid()
      ensures s == "(" + Joined(Rendered(render, Contents), ", ") + ")"
    {
      ghost var parts := Rendered(render, Contents);
      var sb := "(";
      var walk := header.next;
      ghost var i := 0;
      while walk != trailer
        invariant 0 <= i <= size && walk == Nodes[i + 1]
        invariant sb == "(" + Joined(parts[..i], ", ") + (if 0 < i < size then ", " else "")
        decreases size - i
      {
        assert parts[..i + 1][..i] == parts[..i];
        assert walk.elem == Some(Contents[i]);
        sb := sb + render(walk.elem.value);
        walk := walk.next;
        i := i + 1;
        if walk != trailer {
          sb := sb + ", ";
        }
      }
      assert parts[..i] == parts;
      sb := sb + ")";
      s := sb;
    }

    /** Splices `second` onto the end of this list: this list's trailer and the
        second list's header are unlinked, the two inner ends joined, and the
        second list's trailer becomes this list's. `second` is consumed: it
        shares its nodes with this list afterwards and must not be used. */
    method Concat(second: DoublyLinkedList<E>) returns (r: DoublyLinkedList<E>)
      requires Valid() && second.Valid() && second != this
      requires forall i, j :: 0 <= i < |Nodes| && 0 <= j < |second.Nodes| ==> Nodes[i] != second.Nodes[j]
      modifies this, second`size, Nodes, second.Nodes
      ensures r == this && Valid()
      ensures Contents == old(Contents) + old(second.Contents)
      ensures size == old(size) + old(second.size)
      ensures header == old(header) && trailer == old(second.trailer)
      ensures Nodes == old(Nodes)[..|old(Nodes)| - 1] + old(second.Nodes)[1..]
    {
      assert Nodes[|Nodes| - 1].prev == Nodes[|Nodes| - 2];
      assert second.Nodes[0].next == second.Nodes[1];
      var firstEnd := trailer.prev;
      var secondStart := second.header.next;
      var _ := Remove(trailer);
      var _ := second.Remove(second.header);
      firstEnd.next := secondStart;
      secondStart.prev := firstEnd;
      trailer := second.trailer;
      size := size + second.size;
      Nodes := Nodes[..|Nodes| - 1] + second.Nodes[1..];
      Contents := Contents + second.Contents;
      r := this;
    }
  }

  /** (A, B) and (C, D) spliced by Concat. */
  method ConcatDemo() returns (shown: string, total: int)
    ensures shown == "(A, B, C, D)" && total == 4
  {
    var first := new DoublyLinkedList<string>.FromElements(["A", "B"]);
    var second := new DoublyLinkedList<string>.FromElements(["C", "D"]);
    var joined := first.Concat(second);
    var asIs := (s: string) => s;
    shown := joined.ToString(asIs);
    assert Rendered(asIs, joined.Contents) == ["A", "B", "C", "D"];
    JoinedCons("A", ["B", "C", "D"], ", ");
    JoinedCons("B", ["C", "D"], ", ");
    JoinedCons("C", ["D"], ", ");
    assert ["A", "B", "C", "D"] == ["A"] + ["B", "C", "D"];
    assert ["B", "C", "D"] == ["B"] + ["C", "D"];
    assert ["C", "D"] == ["C"] + ["D"];
    assert Joined(["D"], ", ") == "D";
    total := joined.size;
  }

  /** Elements appended to the back come out of the front in the same order. */
  method FifoDemo() returns (out: seq<Option<string>>, emptied: bool)
    ensures out == [Some("A"), Some("B"), Some("C"), None] && emptied
  {
    var list := new DoublyLinkedList<string>();
    list.AddLast("A");
    list.AddLast("B");
    list.AddLast("C");
    var a := list.RemoveFirst();
    var b := list.RemoveFirst();
    var c := list.RemoveFirst();
    var none := list.RemoveFirst();
    out := [a, b, c, none];
    emptied := list.IsEmpty();
  }
}
