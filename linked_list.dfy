/** The singly linked list: `head` and `tail` links, a `size` counter and
    nodes whose `next` links are rewired in place. */
module MyLinkedList {
  import opened Wrappers
  import opened SeqSpec

  class Node<E> {
    var element: E
    var next: Node?<E>

    constructor(element: E)
      ensures this.element == element && next == null
    {
      this.element := element;
      next := null;
    }
  }

  /** The exception `set` throws for an index outside the list. */
  datatype IndexError = IndexOutOfBounds

  class LinkedList<E(==)> {
    var head: Node?<E>
    var tail: Node?<E>
    var size: int
    /** The nodes reachable from `head`, in order. */
    ghost var Spine: seq<Node<E>>
    /** Their elements. */
    ghost var Contents: seq<E>

    /** `size` nodes are chained by `next` from `head` to `tail`, the last
        `next` is null, and no node occurs twice. */
    ghost predicate Valid()
      reads this, Spine
    {
      && |Spine| == |Contents| == size
      && (size == 0 ==> head == null && tail == null)
      && (size > 0 ==> head == Spine[0] && tail == Spine[size - 1] && tail.next == null)
      && (forall i :: 0 <= i < size - 1 ==> Spine[i].next == Spine[i + 1])
      && (forall i :: 0 <= i < size ==> Spine[i].element == Contents[i])
      && (forall i, j :: 0 <= i < j < size ==> Spine[i] != Spine[j])
    }

    /** The empty list. */
    constructor()
      ensures Valid() && Contents == []
    {
      head, tail := null, null;
      size := 0;
      Spine, Contents := [], [];
    }

    /** The node `steps` links after `head`; null one past the last node. */
    method Walk(steps: int) returns (node: Node?<E>)
      requires Valid() && 0 <= steps <= size
      ensures node == if steps < size then Spine[steps] else null
    {
      node := head;
      for i := 0 to steps
        invariant node == if i < size then Spine[i] else null
      {
        node := node.next;
      }
    }

    method GetFirst() returns (r: Option<E>)
      requires Valid()
      ensures r == if Contents == [] then None else Some(Contents[0])
    {
      if size == 0 {
        return None;
      } else {
        return Some(head.element);
      }
    }

    method GetLast() returns (r: Option<E>)
      requires Valid()
      ensures r == if Contents == [] then None else Some(Contents[|Contents| - 1])
    {
      if size == 0 {
        return None;
      } else {
        return Some(tail.element);
      }
    }

    method AddFirst(e: E)
      requires Valid()
      modifies this
      ensures Valid() && Contents == [e] + old(Contents)
      ensures old(size) == 0 ==> head == tail
    {
      var newNode := new Node(e);
      newNode.next := head;
      head := newNode;
      size := size + 1;
      if tail == null {
        tail := head;
      }
      Spine, Contents := [newNode] + Spine, [e] + Contents;
    }

    method AddLast(e: E)
      requires Valid()
      modifies this, Spine
      ensures Valid() && Contents == old(Contents) + [e]
      ensures old(size) == 0 ==> head == tail
    {
      var newNode := new Node(e);
      if tail == null {
        head, tail := newNode, newNode;
      } else {
        tail.next := newNode;
        tail := tail.next;
      }
      size := size + 1;
      Spine, Contents := Spine + [newNode], Contents + [e];
    }

    /** Index 0 prepends, an index at or past the end appends, and any other
        index walks to the node before it and links the new node after that
        one; a negative index therefore inserts at position 1. */
    method Add(index: int, e: E)
      requires Valid()
      requires index >= 0 || size >= 2
      modifies this, Spine
      ensures Valid()
      ensures index == 0 ==> Contents == [e] + old(Contents)
      ensures index != 0 && index >= old(size) ==> Contents == old(Contents) + [e]
      ensures 0 < index < old(size) ==> Contents == Insert(old(Contents), index, e)
      ensures index < 0 ==> Contents == Insert(old(Contents), 1, e)
    {
      if index == 0 {
        AddFirst(e);
      } else if index >= size {
        AddLast(e);
      } else {
        // the loop from 1 to index - 1 makes no step for a negative index
        LinkAt(if index < 1 then 1 else index, e);
      }
    }

    /** Links a new node after the node at position `p - 1`. */
    method LinkAt(p: int, e: E)
      requires Valid() && 1 <= p < size
      modifies this, Spine
      ensures Valid() && Contents == Insert(old(Contents), p, e)
    {
      var current := Walk(p - 1);
      var temp := current.next;
      assert temp == Spine[p];
      ghost var S := Spine;
      var newNode := new Node(e);
      current.next := newNode;
      newNode.next := temp;
      size := size + 1;
      Spine, Contents := Insert(Spine, p, newNode), Insert(Contents, p, e);
      forall i | 0 <= i < size - 1 ensures Spine[i].next == Spine[i + 1] {
        if i < p - 1 {
          assert S[i] != S[p - 1] && S[i].next == old(S[i].next);
        } else if i > p {
          assert S[i - 1] != S[p - 1] && S[i - 1].next == old(S[i - 1].next);
        }
      }
      forall i | 0 <= i < size ensures Spine[i].element == Contents[i] {
        if i < p {
          assert Spine[i] == S[i];
        } else if i > p {
          assert Spine[i] == S[i - 1];
        }
      }
      forall i, j | 0 <= i < j < size ensures Spine[i] != Spine[j] {
        if i < p && j > p {
          assert Spine[i] == S[i] && Spine[j] == S[j - 1];
        } else if i > p {
          assert Spine[i] == S[i - 1] && Spine[j] == S[j - 1];
        }
      }
      assert tail == S[size - 2] != S[p - 1];
    }

    method RemoveFirst() returns (r: Option<E>)
      requires Valid()
      modifies this
      ensures Valid()
      ensures old(size) == 0 ==> r == None && unchanged(this)
      ensures old(size) > 0 ==> r == Some(old(Contents)[0]) && Contents == old(Contents)[1..]
    {
      if size == 0 {
        return None;
      } else {
        var temp := head;
        head := head.next;
        size := size - 1;
        if head == null {
          tail := null;
        }
        Spine, Contents := Spine[1..], Contents[1..];
        return Some(temp.element);
      }
    }

    /** Walks to the second-to-last node, which becomes the tail. */
    method RemoveLast() returns (r: Option<E>)
      requires Valid()
      modifies this, Spine
      ensures Valid()
      ensures old(size) == 0 ==> r == None && unchanged(this)
      ensures old(size) > 0 ==>
        r == Some(old(Contents)[old(size) - 1]) && Contents == old(Contents)[..old(size) - 1]
    {
      if size == 0 {
        return None;
      } else if size == 1 {
        var temp := head;
        head, tail := null, null;
        size := 0;
        Spine, Contents := [], [];
        return Some(temp.element);
      } else {
        var current := Walk(size - 2);
        var temp := tail;
        tail := current;
        tail.next := null;
        size := size - 1;
        Spine, Contents := Spine[..size], Contents[..size];
        return Some(temp.element);
      }
    }

    method Remove(index: int) returns (r: Option<E>)
      requires Valid()
      modifies this, Spine
      ensures Valid()
      ensures !(0 <= index < old(size)) ==> r == None && unchanged(this)
      ensures 0 <= index < old(size) ==>
        r == Some(old(Contents)[index]) && Contents == Delete(old(Contents), index)
    {
      if index < 0 || index >= size {
        return None;
      } else if index == 0 {
        r := RemoveFirst();
      } else if index == size - 1 {
        r := RemoveLast();
      } else {
        var previous := Walk(index - 1);
        assert previous.next == Spine[index];
        var current := previous.next;
        previous.next := current.next;
        size := size - 1;
        Spine, Contents := Delete(Spine, index), Delete(Contents, index);
        return Some(current.element);
      }
    }

    method Clear()
      modifies this
      ensures Valid() && Contents == []
      ensures head == null && tail == null
    {
      size := 0;
      head, tail := null, null;
      Spine, Contents := [], [];
    }

    method Contains(e: E) returns (r: bool)
      requires Valid()
      ensures r <==> e in Contents
    {
      var i := IndexOf(e);
      return i != -1;
    }

    /** Walks `index` links from `head`: a negative index makes no step, and
        one past the last node reads null. */
    method Get(index: int) returns (r: Option<E>)
      requires Valid() && index <= size
      ensures 0 <= index < size ==> r == Some(Contents[index])
      ensures index < 0 ==> r == if Contents == [] then None else Some(Contents[0])
      ensures index == size ==> r == None
    {
      var current := Walk(if index < 0 then 0 else index);
      if current != null {
        return Some(current.element);
      } else {
        return None;
      }
    }

    method IndexOf(e: E) returns (index: int)
      requires Valid()
      ensures index == FirstIndex(Contents, e)
    {
      var current := head;
      index := 0;
      while current != null
        invariant 0 <= index <= size
        invariant current == if index < size then Spine[index] else null
        invariant e !in Contents[..index]
        decreases size - index
      {
        if current.element == e {
          return index;
        } else {
          assert Contents[..index + 1] == Contents[..index] + [Contents[index]];
          current := current.next;
          index := index + 1;
        }
      }
      assert Contents[..index] == Contents;
      return -1;
    }

    /** Scans the whole list, remembering the last match. */
    method LastIndexOf(e: E) returns (answer: int)
      requires Valid()
      ensures answer == LastIndex(Contents, e)
    {
      var current := head;
      answer := -1;
      var index := 0;
      while current != null
        invariant 0 <= index <= size
        invariant current == if index < size then Spine[index] else null
        invariant answer == LastIndex(Contents[..index], e)
        decreases size - index
      {
        assert Contents[..index + 1][..index] == Contents[..index];
        if current.element == e {
          answer := index;
        }
        current := current.next;
        index := index + 1;
      }
      assert Contents[..index] == Contents;
    }

    method Set(index: int, e: E) returns (r: Result<E, IndexError>)
      requires Valid()
      modifies this, Spine
      ensures Valid()
      ensures !(0 <= index < old(size)) ==> r == Err(IndexOutOfBounds) && unchanged(this)
      ensures 0 <= index < old(size) ==>
        r == Ok(old(Contents)[index]) && Contents == old(Contents)[index := e]
    {
      if index < 0 || index >= size {
        return Err(IndexOutOfBounds);
      }
      var current := Walk(index);
      var old_ := current.element;
      current.element := e;
      Contents := Contents[index := e];
      return Ok(old_);
    }
  }
}
