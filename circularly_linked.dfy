/** A ring of singly-linked nodes reached through one `tail` reference; the
    node after `tail` is the first element. */
module CircularlyLinked {
  import opened Common

  /** Moving the first element to the end: what `rotate` does to the contents. */
  function Rotated<E>(s: seq<E>): seq<E>
  {
    if s == [] then [] else s[1..] + [s[0]]
  }

  /** `k` rotations in a row. */
  function RotatedTimes<E>(s: seq<E>, k: nat): seq<E>
    decreases k
  {
    if k == 0 then s else RotatedTimes(Rotated(s), k - 1)
  }

  /** After `k` rotations of a non-empty sequence, the first `k` elements have
      moved behind the others. */
  lemma {:induction false} RotatedTimesSplit<E>(s: seq<E>, k: nat)
    requires k <= |s|
    ensures RotatedTimes(s, k) == s[k..] + s[..k]
    decreases k
  {
    if k == 0 {
      assert s[..0] == [] && s[0..] == s;
    } else {
      RotatedTimesStep(s, k - 1);
      RotatedTimesSplit(s, k - 1);
      assert s[k - 1..] == [s[k - 1]] + s[k..];
      assert s[..k] == s[..k - 1] + [s[k - 1]];
    }
  }

  /** One more rotation after `k` of them. */
  lemma {:induction false} RotatedTimesStep<E>(s: seq<E>, k: nat)
    ensures RotatedTimes(s, k + 1) == Rotated(RotatedTimes(s, k))
    decreases k
  {
    if k > 0 {
      RotatedTimesStep(Rotated(s), k - 1);
    }
  }

  /** Rotating a ring once per element restores the original order. */
  lemma RotatedFullCircle<E>(s: seq<E>)
    ensures RotatedTimes(s, |s|) == s
  {
    RotatedTimesSplit(s, |s|);
  }

  /** Appending is prepending followed by one rotation (how addLast is built). */
  lemma RotatedPrepend<E>(e: E, s: seq<E>)
    ensures Rotated([e] + s) == s + [e]
  {
    assert ([e] + s)[1..] == s;
  }

  class Node<E> {
    var element: E
    var next: Node?<E>

    constructor (e: E, n: Node?<E>)
      ensures element == e && next == n
    {
      element := e;
      next := n;
    }
  }

  class CircularlyLinkedList<E> {
    var tail: Node?<E>
    var size: int

    /** The ring's nodes in order, from the first (tail.next) to tail. */
    ghost var Nodes: seq<Node<E>>
    /** The elements in ring order, from first to last. */
    ghost var Contents: seq<E>

    /** The ring invariant: `size` distinct nodes, each linked to the next, the
        last (tail) linked back to the first; no tail exactly when empty. */
    ghost predicate Valid()
      reads this, Nodes
    {
      |Nodes| == size && |Contents| == size &&
      (size == 0 <==> tail == null) &&
      (size > 0 ==> tail == Nodes[size - 1] && tail.next == Nodes[0]) &&
      (forall i :: 0 <= i < size - 1 ==> Nodes[i].next == Nodes[i + 1]) &&
      (forall i :: 0 <= i < size ==> Nodes[i].element == Contents[i]) &&
      (forall i, j :: 0 <= i < j < size ==> Nodes[i] != Nodes[j])
    }

    /** The node reached from `n` by following `next` `k` times. */
    ghost function Advance(n: Node<E>, k: nat): (m: Node<E>)
      reads this, Nodes
      requires Valid() && n in Nodes
      ensures m in Nodes
      decreases k
    {
      if k == 0 then n
      else
        var i :| 0 <= i < size && Nodes[i] == n;
        assert n.next == Nodes[if i + 1 < size then i + 1 else 0];
        Advance(n.next, k - 1)
    }

    /** Within one lap, `k` steps from the i-th node lead to node i + k. */
    lemma {:induction false} AdvanceFrom(i: nat, k: nat)
      requires Valid() && i + k < size
      ensures Advance(Nodes[i], k) == Nodes[i + k]
      decreases k
    {
      if k > 0 {
        assert Nodes[i].next == Nodes[i + 1];
        AdvanceFrom(i + 1, k - 1);
      }
    }

    /** Ring closure: following `next` `size` times from tail comes back to tail,
        passing the elements in order on the way. */
    lemma RingClosed()
      requires Valid() && size > 0
      ensures Advance(tail, size) == tail
      ensures forall k :: 1 <= k <= size ==> Advance(tail, k).element == Contents[k - 1]
    {
      forall k | 1 <= k <= size
        ensures Advance(tail, k) == Nodes[k - 1]
      {
        AdvanceFrom(0, k - 1);
      }
    }

    constructor ()
      ensures Valid() && Contents == [] && Nodes == []
    {
      tail := null;
      size := 0;
      Nodes := [];
      Contents := [];
    }

    function Size(): (n: int)
      reads this, Nodes
      requires Valid()
      ensures n == |Contents|
    {
      size
    }

    function IsEmpty(): (b: bool)
      reads this, Nodes
      requires Valid()
      ensures b <==> Contents == []
    {
      size == 0
    }

    /** The element of tail.next, None when empty. */
    function First(): (r: Option<E>)
      reads this, Nodes
      requires Valid()
      ensures r == if Contents == [] then None else Some(Contents[0])
    {
      if IsEmpty() then None else Some(tail.next.element)
    }

    /** The element of tail, None when empty. */
    function Last(): (r: Option<E>)
      reads this, Nodes
      requires Valid()
      ensures r == if Contents == [] then None else Some(Contents[|Contents| - 1])
    {
      if IsEmpty() then None else Some(tail.element)
    }

    /** Advances tail to its successor; nothing happens on an empty ring. */
    method Rotate()
      requires Valid()
      modifies this
      ensures Valid() && size == old(size)
      ensures Contents == Rotated(old(Contents)) && Nodes == Rotated(old(Nodes))
    {
      if tail != null {
        tail := tail.next;
        Nodes := Nodes[1..] + [Nodes[0]];
        Contents := Contents[1..] + [Contents[0]];
      }
    }

    /** A new first element: a self-looped node on an empty ring, otherwise a
        node linked in after tail, which stays the last. */
    method AddFirst(e: E)
      requires Valid()
      modifies this, Only(tail)
      ensures Valid() && size == old(size) + 1
      ensures Contents == [e] + old(Contents)
      ensures Nodes == [Nodes[0]] + old(Nodes) && fresh(Nodes[0])
      ensures old(tail) != null ==> tail == old(tail)
    {
      if size == 0 {
        tail := new Node<E>(e, null);
        tail.next := tail;
        Nodes := [tail];
      } else {
        var newest := new Node<E>(e, tail.next);
        tail.next := newest;
        Nodes := [newest] + Nodes;
      }
      size := size + 1;
      Contents := [e] + Contents;
    }

    /** AddFirst followed by Rotate: the new node becomes the last. */
    method AddLast(e: E)
      requires Valid()
      modifies this, Only(tail)
      ensures Valid() && size == old(size) + 1
      ensures Contents == old(Contents) + [e]
      ensures Nodes == old(Nodes) + [tail] && fresh(tail)
    {
      AddFirst(e);
      Rotate();
      RotatedPrepend(e, old(Contents));
      RotatedPrepend(Nodes[|Nodes| - 1], old(Nodes));
    }

    /** Removes and returns the first element; None when empty. Removing the
        only element clears tail. */
    method RemoveFirst() returns (r: Option<E>)
      requires Valid()
      modifies this, Only(tail)
      ensures Valid()
      ensures old(Contents) == [] ==> r == None && unchanged(this)
      ensures old(Contents) != [] ==>
                r == Some(old(Contents)[0]) && Contents == old(Contents)[1..] &&
                size == old(size) - 1 && Nodes == old(Nodes)[1..]
      ensures old(size) == 1 ==> tail == null
    {
      if IsEmpty() { return None; }
      var head := tail.next;
      if tail == head {
        tail := null;
      } else {
        tail.next := head.next;
      }
      size := size - 1;
      Nodes := Nodes[1..];
      Contents := Contents[1..];
      return Some(head.element);
    }

    /** "(" + the elements from tail.next round to tail, with no separator, + ")";
        "()" for an empty ring. */
    method ToString(render: E -> string) returns (s: string)
      requires Valid()
      ensures s == "(" + Joined(Rendered(render, Contents), "") + ")"
    {
      if tail == null { return "()"; }
      ghost var parts := Rendered(render, Contents);
      var sb := "(";
      var walk := tail;
      ghost var i := 0;
      var stop := false;
      while !stop
        invariant 0 <= i <= size && walk == (if i == 0 then tail else Nodes[i - 1])
        invariant stop <==> i == size
        invariant sb == "(" + Joined(parts[..i], "") + (if stop then ")" else "")
        decreases size - i
      {
        assert parts[..i + 1][..i] == parts[..i];
        assert walk.next == Nodes[i];
        walk := walk.next;
        sb := sb + render(walk.element);
        i := i + 1;
        if walk == tail {
          sb := sb + ")";
        }
        stop := walk == tail;
      }
      assert parts[..i] == parts;
      s := sb;
    }

    /** A fresh iterator positioned before the first element. */
    method Iterator() returns (it: ElementIterator<E>)
      requires Valid()
      ensures fresh(it) && it.Valid() && it.list == this && it.cursor == 0
    {
      it := new ElementIterator(this);
    }

    /** A for-each loop over the ring: yields every element once, in ring order. */
    method Elements() returns (es: seq<E>)
      requires Valid()
      ensures es == Contents
    {
      var it := Iterator();
      es := [];
      while it.HasNext()
        invariant fresh(it) && it.Valid() && it.list == this
        invariant es == Contents[..it.cursor]
        decreases size - it.cursor
      {
        var e := it.Next();
        es := es + [e];
      }
      assert es == Contents[..size];
    }
  }

  /** The singleton frame of a link that may be null. */
  function Only<E>(n: Node?<E>): set<Node<E>>
  {
    if n == null then {} else {n}
  }

  /** Walks `size` elements of a ring from tail.next onward. The ring must not
      change while an iteration is in progress. */
  class ElementIterator<E> {
    const list: CircularlyLinkedList<E>
    var cursor: int
    var cursorPointer: Node?<E>

    /** `cursor` elements have been returned and cursorPointer is the node of the
        last one returned (tail before the first call of Next). */
    ghost predicate Valid()
      reads this, list, list.Nodes
    {
      list.Valid() && 0 <= cursor <= list.size &&
      cursorPointer == (if cursor == 0 then list.tail else list.Nodes[cursor - 1])
    }

    constructor (m: CircularlyLinkedList<E>)
      requires m.Valid()
      ensures Valid() && list == m && cursor == 0
    {
      list := m;
      cursor := 0;
      cursorPointer := m.tail;
    }

    function HasNext(): (b: bool)
      reads this, list, list.Nodes
      requires Valid()
      ensures b <==> cursor < |list.Contents|
    {
      cursor < list.size
    }

    /** Returns the next element in ring order. */
    method Next() returns (e: E)
      requires Valid() && HasNext()
      modifies this
      ensures Valid() && cursor == old(cursor) + 1
      ensures e == list.Contents[old(cursor)]
    {
      assert cursorPointer.next == list.Nodes[cursor];
      cursor := cursor + 1;
      cursorPointer := cursorPointer.next;
      e := cursorPointer.element;
    }
  }

  /** The ring the demonstration builds: LAX first, then MSP, ATL and BOS
      appended, shown by toString (which puts nothing between elements), then
      rotated once; iteration yields the four codes in order. */
  method AirportRing() returns (shown: string, rotated: string, iterated: seq<string>)
    ensures iterated == ["LAX", "MSP", "ATL", "BOS"]
    ensures shown == "(LAXMSPATLBOS)"
    ensures rotated == "(MSPATLBOSLAX)"
  {
    var ring := new CircularlyLinkedList<string>();
    ring.AddFirst("LAX");
    ring.AddLast("MSP");
    ring.AddLast("ATL");
    ring.AddLast("BOS");
    iterated := ring.Elements();
    var asIs := (code: string) => code;
    shown := ring.ToString(asIs);
    assert Rendered(asIs, ring.Contents) == ["LAX", "MSP", "ATL", "BOS"];
    JoinedSpelled("LAX", "MSP", "ATL", "BOS");
    ring.Rotate();
    rotated := ring.ToString(asIs);
    assert Rendered(asIs, ring.Contents) == ["MSP", "ATL", "BOS", "LAX"];
    JoinedSpelled("MSP", "ATL", "BOS", "LAX");
  }

  /** Four parts joined with no separator. */
  lemma JoinedSpelled(a: string, b: string, c: string, d: string)
    ensures Joined([a, b, c, d], "") == a + b + c + d
  {
    assert [a, b, c, d][..3] == [a, b, c];
    assert [a, b, c][..2] == [a, b];
    assert [a, b][..1] == [a];
    assert Joined([a, b], "") == a + "" + b == a + b;
    assert Joined([a, b, c], "") == a + b + "" + c == a + b + c;
    assert Joined([a, b, c, d], "") == a + b + c + "" + d;
  }
}
