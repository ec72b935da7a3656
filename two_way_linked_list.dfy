/** The doubly linked list: `head` and `tail` links, a `size` counter, and
    nodes whose `next` and `previous` links are rewired in place. */
module MyTwoWayLinkedList {
  import opened Wrappers
  import opened SeqSpec

  class Node<E> {
    var element: E
    var next: Node?<E>
    var previous: Node?<E>

    constructor(element: E)
      ensures this.element == element && next == null && previous == null
    {
      this.element := element;
      next := null;
      previous := null;
    }
  }

  /** What `lastIndexOf` computes for a list of `size` whose backward walk
      meets the elements of `w` from last to first: it steps back over the
      elements equal to `e`, answers -1 when it runs out of nodes and
      otherwise counts down from `size - 1` once per step: the answer is
      `size - 1 - d` where `d` is the number of trailing elements equal to
      `e`, the element before them being the first one that differs. */
  function LastIndexAsWritten<T(==)>(size: int, w: seq<T>, e: T): (r: int)
    ensures (forall j :: 0 <= j < |w| ==> w[j] == e) ==> r == -1
    ensures (exists j :: 0 <= j < |w| && w[j] != e) ==>
      var d := size - 1 - r;
      && 0 <= d < |w| && w[|w| - 1 - d] != e
      && forall j :: |w| - d <= j < |w| ==> w[j] == e
  {
    var k := TrailingMatches(w, e);
    if k == |w| then -1 else size - 1 - k
  }

  /** On a list with no nodes behind its head and a correct `size`, the
      answer is the position of the last element NOT equal to `e`, or -1
      when every element equals `e`. */
  lemma {:induction false} AsWrittenFindsLastNonMatch<T>(s: seq<T>, e: T)
    ensures var r := LastIndexAsWritten(|s|, s, e);
      && -1 <= r < |s|
      && (r == -1 <==> forall j :: 0 <= j < |s| ==> s[j] == e)
      && (r >= 0 ==> s[r] != e && forall j :: r < j < |s| ==> s[j] == e)
  {
    var k := TrailingMatches(s, e);
    if k < |s| {
      assert s[|s| - 1 - k] != e;
    }
  }

  /** The as-written answer agrees with the last matching position only on
      the empty list. */
  lemma {:induction false} AsWrittenAgreesOnlyWhenEmpty<T>(s: seq<T>, e: T)
    ensures LastIndexAsWritten(|s|, s, e) == LastIndex(s, e) <==> s == []
  {
    AsWrittenFindsLastNonMatch(s, e);
    var r := LastIndexAsWritten(|s|, s, e);
    if s != [] {
      if r == -1 {
        assert s[|s| - 1] == e;
        assert LastIndex(s, e) == |s| - 1;
      } else {
        assert s[r] != e;
      }
    }
  }

  /** The list [1, 2]: `lastIndexOf(2)` answers 0, the position of 1. */
  lemma LastIndexOfReturnsNonMatch()
    ensures LastIndexAsWritten(2, [1, 2], 2) == 0
    ensures LastIndex([1, 2], 2) == 1
  {
    assert TrailingMatches([1, 2][..1], 2) == 0;
    assert [1, 2][..1] == [1];
  }

  class TwoWayLinkedList<E(==)> {
    var head: Node?<E>
    var tail: Node?<E>
    var size: int
    /** The nodes reachable backwards from `tail` through `previous`, the
        farthest first: the nodes that `removeFirst` unlinked but left
        behind the head, then the nodes from `head` to `tail`. */
    ghost var Nodes: seq<Node<E>>
    /** The elements of the nodes behind the head. */
    ghost var Behind: seq<E>
    /** The elements of the nodes from `head` to `tail`. */
    ghost var Contents: seq<E>

    /** The nodes from `head` are chained by `next` and every node by
        `previous`, back to null; no node occurs twice. `size` is at least
        the number of nodes from `head`, because `clear` leaves it as it
        was. */
    ghost predicate Valid()
      reads this, Nodes
    {
      && |Nodes| == |Behind| + |Contents| && |Contents| <= size
      && (Contents == [] ==> head == null && tail == null && Nodes == [])
      && (Contents != [] ==> head == Nodes[|Behind|] && tail == Nodes[|Nodes| - 1] && tail.next == null)
      && (forall i :: |Behind| <= i < |Nodes| - 1 ==> Nodes[i].next == Nodes[i + 1])
      && (forall i :: 0 < i < |Nodes| ==> Nodes[i].previous == Nodes[i - 1])
      && (Nodes != [] ==> Nodes[0].previous == null)
      && (forall i :: 0 <= i < |Behind| ==> Nodes[i].element == Behind[i])
      && (forall i :: |Behind| <= i < |Nodes| ==> Nodes[i].element == Contents[i - |Behind|])
      && (forall i, j :: 0 <= i < j < |Nodes| ==> Nodes[i] != Nodes[j])
    }

    /** The empty list. */
    constructor()
      ensures Valid() && Contents == [] && size == 0
    {
      head, tail := null, null;
      size := 0;
      Nodes, Behind, Contents := [], [], [];
    }

    /** The node `steps` links after `head`; null one past the last node. */
    method Walk(steps: int) returns (node: Node?<E>)
      requires Valid() && 0 <= steps <= |Contents|
      ensures node == if steps < |Contents| then Nodes[|Behind| + steps] else null
    {
      node := head;
      for i := 0 to steps
        invariant node == if i < |Contents| then Nodes[|Behind| + i] else null
      {
        node := node.next;
      }
    }

    /** Tests `size`, not `head`. */
    method GetFirst() returns (r: Option<E>)
      requires Valid() && (size > 0 ==> Contents != [])
      ensures r == if size == 0 then None else Some(Contents[0])
    {
      if size == 0 {
        return None;
      } else {
        return Some(head.element);
      }
    }

    /** Tests `size`, not `tail`. */
    method GetLast() returns (r: Option<E>)
      requires Valid() && (size > 0 ==> Contents != [])
      ensures r == if size == 0 then None else Some(Contents[|Contents| - 1])
    {
      if size == 0 {
        return None;
      } else {
        return Some(tail.element);
      }
    }

    /** Prepends, and points the old head's `previous` at the new node; the
        nodes behind the old head are no longer reachable. */
    method AddFirst(e: E)
      requires Valid()
      modifies this, Nodes
      ensures Valid() && Contents == [e] + old(Contents) && size == old(size) + 1
      ensures old(Contents) == [] ==> head == tail
      ensures Behind == []
    {
      var newNode := new Node(e);
      newNode.next := head;
      head := newNode;
      size := size + 1;
      if tail == null {
        tail := head;
      }
      if head != tail {
        head.next.previous := head;
      }
      Nodes, Behind, Contents := [newNode] + Nodes[|Behind|..], [], [e] + Contents;
    }

    /** Appends; the new tail's `previous` is the old tail, null on an empty
        list. */
    method AddLast(e: E)
      requires Valid()
      modifies this, Nodes
      ensures Valid() && Contents == old(Contents) + [e] && size == old(size) + 1
      ensures old(Contents) == [] ==> head == tail
      ensures Behind == old(Behind)
    {
      var newNode := new Node(e);
      var temp := tail;
      if tail == null {
        head, tail := newNode, newNode;
      } else {
        tail.next := newNode;
        tail := tail.next;
      }
      size := size + 1;
      tail.previous := temp;
      Nodes, Contents := Nodes + [newNode], Contents + [e];
    }

    /** Index 0 prepends, an index at or past `size` appends, and any other
        index links the new node both ways between the node before it and
        the node at it; a negative index inserts at position 1. */
    method Add(index: int, e: E)
      requires Valid()
      requires index == 0 || index >= size || 0 < index < |Contents| || (index < 0 && |Contents| >= 2)
      modifies this, Nodes
      ensures Valid() && size == old(size) + 1
      ensures index == 0 ==> Contents == [e] + old(Contents)
      ensures index != 0 && index >= old(size) ==> Contents == old(Contents) + [e]
      ensures 0 < index < old(size) ==> Contents == Insert(old(Contents), index, e)
      ensures index < 0 ==> Contents == Insert(old(Contents), 1, e)
      ensures index == 0 ==> Behind == []
      ensures index != 0 ==> Behind == old(Behind)
    {
      if index == 0 {
        AddFirst(e);
      } else if index >= size {
        AddLast(e);
      } else {
        // the loop from 1 to index - 1 makes no step for a negative index
        LinkAt(if index < 1 then 1 else index, e);
      }
    }

    /** The middle case of `add`: walks to the node at position `p - 1` and
        links a new node between it and its successor, both ways. */
    method LinkAt(p: int, e: E)
      requires Valid() && 1 <= p < |Contents|
      modifies this, Nodes
      ensures Valid() && size == old(size) + 1
      ensures Contents == Insert(old(Contents), p, e) && Behind == old(Behind)
    {
      var current := Walk(p - 1);
      var temp := current.next;
      ghost var k := |Behind| + p;
      assert temp == Nodes[k];
      current.next := new Node(e);
      current.next.next := temp;
      size := size + 1;
      temp.previous := current.next;
      current.next.previous := current;
      var newNode := current.next;
      Nodes, Contents := Insert(Nodes, k, newNode), Insert(Contents, p, e);
      LinkedInKeepsValid(k, newNode);
    }

    /** Linking a fresh node between positions `k - 1` and `k` of the
        chain, both ways, keeps the list valid. */
    twostate lemma LinkedInKeepsValid(k: int, new n: Node<E>)
      requires old(Valid()) && old(|Behind|) < k < old(|Nodes|)
      requires fresh(n)
      requires Nodes == Insert(old(Nodes), k, n) && Behind == old(Behind)
      requires Contents == Insert(old(Contents), k - |Behind|, n.element)
      requires head == old(head) && tail == old(tail) && size == old(size) + 1
      requires n.next == old(Nodes[k]) && n.previous == old(Nodes[k - 1])
      requires old(Nodes[k - 1]).next == n && old(Nodes[k]).previous == n
      requires forall m :: m in old(Nodes) && m != old(Nodes[k - 1]) ==> m.next == old(m.next)
      requires forall m :: m in old(Nodes) && m != old(Nodes[k]) ==> m.previous == old(m.previous)
      requires forall m :: m in old(Nodes) ==> m.element == old(m.element)
      ensures Valid()
    {
      ghost var S := old(Nodes);
      forall i | |Behind| <= i < |Nodes| - 1 ensures Nodes[i].next == Nodes[i + 1] {
        if i < k - 1 {
          assert S[i] != S[k - 1] && S[i].next == old(S[i].next);
        } else if i > k {
          assert S[i - 1] != S[k - 1] && S[i - 1].next == old(S[i - 1].next);
        }
      }
      forall i | 0 < i < |Nodes| ensures Nodes[i].previous == Nodes[i - 1] {
        if i < k {
          assert S[i] != S[k] && S[i].previous == old(S[i].previous);
        } else if i > k + 1 {
          assert S[i - 1] != S[k] && S[i - 1].previous == old(S[i - 1].previous);
        }
      }
      forall i | |Behind| <= i < |Nodes| ensures Nodes[i].element == Contents[i - |Behind|] {
        if i < k {
          assert Nodes[i] == S[i];
        } else if i > k {
          assert Nodes[i] == S[i - 1];
        }
      }
      forall i, j | 0 <= i < j < |Nodes| ensures Nodes[i] != Nodes[j] {
        if i < k && j > k {
          assert Nodes[i] == S[i] && Nodes[j] == S[j - 1];
        } else if i > k {
          assert Nodes[i] == S[i - 1] && Nodes[j] == S[j - 1];
        }
      }
    }

    /** Unlinks the head but leaves the new head's `previous` pointing at it. */
    method RemoveFirst() returns (r: Option<E>)
      requires Valid() && (size > 0 ==> Contents != [])
      modifies this
      ensures Valid()
      ensures old(size) == 0 ==> r == None && unchanged(this)
      ensures old(size) > 0 ==>
        && r == Some(old(Contents)[0]) && Contents == old(Contents)[1..]
        && size == old(size) - 1
        && (Contents != [] ==> Behind == old(Behind) + [old(Contents)[0]])
    {
      if size == 0 {
        return None;
      } else {
        assert |Contents| > 1 ==> head.next == Nodes[|Behind| + 1];
        var temp := head;
        head := head.next;
        size := size - 1;
        if head == null {
          tail := null;
        }
        if head == null {
          Nodes, Behind, Contents := [], [], [];
        } else {
          Behind, Contents := Behind + [Contents[0]], Contents[1..];
        }
        return Some(temp.element);
      }
    }

    /** Walks forward to the node at position `size - 2`, which becomes the
        tail. When `size` exceeds the node count by one, that node already is
        the tail and nothing is unlinked. */
    method RemoveLast() returns (r: Option<E>)
      requires Valid() && (size == 0 || (|Contents| >= 1 && |Contents| >= size - 1))
      modifies this, Nodes
      ensures Valid()
      ensures old(size) == 0 ==> r == None && unchanged(this)
      ensures old(size) > 0 ==>
        r == Some(old(Contents)[|old(Contents)| - 1]) && size == old(size) - 1
      ensures old(size) > 0 && |old(Contents)| == old(size) ==>
        Contents == old(Contents)[..old(size) - 1]
      ensures old(size) > 1 && |old(Contents)| < old(size) ==> Contents == old(Contents)
      ensures old(size) > 1 ==> Behind == old(Behind)
    {
      if size == 0 {
        return None;
      } else if size == 1 {
        var temp := head;
        head, tail := null, null;
        size := 0;
        Nodes, Behind, Contents := [], [], [];
        return Some(temp.element);
      } else {
        var current := Walk(size - 2);
        var temp := tail;
        tail := current;
        tail.next := null;
        size := size - 1;
        Nodes, Contents := Nodes[..|Behind| + size], Contents[..size];
        TruncatedKeepsValid(size);
        return Some(temp.element);
      }
    }

    /** Cutting the chain after its `n`-th node from `head`, which becomes
        the tail, keeps the list valid. */
    twostate lemma TruncatedKeepsValid(n: int)
      requires old(Valid()) && 1 <= n <= old(|Contents|) && n <= size
      requires Behind == old(Behind) && Nodes == old(Nodes[..|Behind| + n])
      requires Contents == old(Contents[..n])
      requires head == old(head) && tail == Nodes[|Nodes| - 1] && tail.next == null
      requires forall m :: m in old(Nodes) && m != tail ==> m.next == old(m.next)
      requires forall m :: m in old(Nodes) ==> m.previous == old(m.previous) && m.element == old(m.element)
      ensures Valid()
    {
    }

    /** Unlinks the node at `index`, relinking its neighbours both ways. */
    method Remove(index: int) returns (r: Option<E>)
      requires Valid()
      requires 0 <= index < size ==>
        if index == 0 then Contents != []
        else if index == size - 1 then |Contents| >= size - 1
        else index + 1 < |Contents|
      modifies this, Nodes
      ensures Valid()
      ensures !(0 <= index < old(size)) ==> r == None && unchanged(this)
      ensures 0 <= index < old(size) ==> size == old(size) - 1
      ensures 0 <= index < old(size) - 1 || (0 <= index == old(size) - 1 && |old(Contents)| == old(size)) ==>
        r == Some(old(Contents)[index]) && Contents == Delete(old(Contents), index)
      ensures 0 < index == old(size) - 1 && |old(Contents)| < old(size) ==>
        r == Some(old(Contents)[index - 1]) && Contents == old(Contents)
      ensures 0 < index < old(size) ==> Behind == old(Behind)
      ensures index == 0 < old(size) && Contents != [] ==> Behind == old(Behind) + [old(Contents)[0]]
    {
      if index < 0 || index >= size {
        return None;
      }
      if index == 0 {
        r := RemoveFirst();
      } else if index == size - 1 {
        r := RemoveLast();
      } else {
        var x := UnlinkAt(index);
        return Some(x);
      }
    }

    /** The middle case of `remove`: walks to the node before position
        `index` and links it and the successor of the removed node both
        ways. */
    method UnlinkAt(index: int) returns (x: E)
      requires Valid() && 1 <= index && index + 1 < |Contents|
      modifies this, Nodes
      ensures Valid() && size == old(size) - 1
      ensures x == old(Contents)[index] && Contents == Delete(old(Contents), index)
      ensures Behind == old(Behind)
    {
      var previous := Walk(index - 1);
      ghost var k := |Behind| + index;
      assert previous.next == Nodes[k] && Nodes[k].next == Nodes[k + 1];
      var current := previous.next;
      previous.next := current.next;
      current.next.previous := previous;
      size := size - 1;
      Nodes, Contents := Delete(Nodes, k), Delete(Contents, index);
      UnlinkedKeepsValid(k);
      return current.element;
    }

    /** Linking the nodes at positions `k - 1` and `k + 1` of the chain to
        each other, both ways, drops the node at `k` and keeps the list
        valid. */
    twostate lemma UnlinkedKeepsValid(k: int)
      requires old(Valid()) && old(|Behind|) < k < old(|Nodes|) - 1
      requires Nodes == Delete(old(Nodes), k) && Behind == old(Behind)
      requires Contents == Delete(old(Contents), k - |Behind|)
      requires head == old(head) && tail == old(tail) && size == old(size) - 1
      requires old(Nodes[k - 1]).next == old(Nodes[k + 1]) && old(Nodes[k + 1]).previous == old(Nodes[k - 1])
      requires forall m :: m in old(Nodes) && m != old(Nodes[k - 1]) ==> m.next == old(m.next)
      requires forall m :: m in old(Nodes) && m != old(Nodes[k + 1]) ==> m.previous == old(m.previous)
      requires forall m :: m in old(Nodes) ==> m.element == old(m.element)
      ensures Valid()
    {
      ghost var S := old(Nodes);
      forall i | |Behind| <= i < |Nodes| - 1 ensures Nodes[i].next == Nodes[i + 1] {
        if i < k - 1 {
          assert S[i] != S[k - 1] && S[i].next == old(S[i].next);
        } else if i >= k {
          assert S[i + 1] != S[k - 1] && S[i + 1].next == old(S[i + 1].next);
        }
      }
      forall i | 0 < i < |Nodes| ensures Nodes[i].previous == Nodes[i - 1] {
        if i < k {
          assert S[i] != S[k + 1] && S[i].previous == old(S[i].previous);
        } else if i > k {
          assert S[i + 1] != S[k + 1] && S[i + 1].previous == old(S[i + 1].previous);
        }
      }
    }

    /** Drops every node but leaves `size` as it was. */
    method Clear()
      requires Valid()
      modifies this
      ensures Valid() && Contents == [] && size == old(size)
      ensures head == null && tail == null
    {
      head, tail := null, null;
      Nodes, Behind, Contents := [], [], [];
    }

    method Contains(e: E) returns (r: bool)
      requires Valid()
      ensures r <==> e in Contents
    {
      var current := head;
      ghost var n := 0;
      while current != null
        invariant 0 <= n <= |Contents|
        invariant current == if n < |Contents| then Nodes[|Behind| + n] else null
        invariant e !in Contents[..n]
        decreases |Contents| - n
      {
        if e == current.element {
          return true;
        }
        assert Contents[..n + 1] == Contents[..n] + [Contents[n]];
        current := current.next;
        n := n + 1;
      }
      assert Contents[..n] == Contents;
      return false;
    }

    /** Walks `index` links from `head`: a negative index makes no step, and
        one past the last node reads null. */
    method Get(index: int) returns (r: Option<E>)
      requires Valid() && index <= |Contents|
      ensures 0 <= index < |Contents| ==> r == Some(Contents[index])
      ensures index < 0 ==> r == if Contents == [] then None else Some(Contents[0])
      ensures index == |Contents| ==> r == None
    {
      var current := Walk(if index < 0 then 0 else index);
      if current != null {
        return Some(current.element);
      } else {
        return None;
      }
    }

    method IndexOf(e: E) returns (index: int)
      requires Valid()
      ensures index == FirstIndex(Contents, e)
    {
      var current := head;
      index := 0;
      while current != null
        invariant 0 <= index <= |Contents|
        invariant current == if index < |Contents| then Nodes[|Behind| + index] else null
        invariant e !in Contents[..index]
        decreases |Contents| - index
      {
        if current.element == e {
          return index;
        } else {
          assert Contents[..index + 1] == Contents[..index] + [Contents[index]];
          current := current.next;
          index := index + 1;
        }
      }
      assert Contents[..index] == Contents;
      return -1;
    }

    /** Walks back from `tail` through `previous` while the elements equal
        `e`, counting down from `size - 1`. */
    method LastIndexOf(e: E) returns (index: int)
      requires Valid()
      ensures index == LastIndexAsWritten(size, Behind + Contents, e)
    {
      ghost var w := Behind + Contents;
      var current := tail;
      index := size - 1;
      ghost var n := 0;
      while current != null && e == current.element
        invariant 0 <= n <= |w|
        invariant index == size - 1 - n
        invariant current == if n < |w| then Nodes[|w| - 1 - n] else null
        invariant forall j :: |w| - n <= j < |w| ==> w[j] == e
        decreases |w| - n
      {
        assert current.element == w[|w| - 1 - n];
        current := current.previous;
        index := index - 1;
        n := n + 1;
      }
      if current == null {
        assert n == |w|;
        return -1;
      }
      assert w[|w| - 1 - n] != e;
      assert TrailingMatches(w, e) == n;
      return index;
    }

    /** The last matching position, found by a forward scan that remembers
        the last match. */
    method LastIndexOfFixed(e: E) returns (answer: int)
      requires Valid()
      ensures answer == LastIndex(Contents, e)
    {
      var current := head;
      answer := -1;
      var index := 0;
      while current != null
        invariant 0 <= index <= |Contents|
        invariant current == if index < |Contents| then Nodes[|Behind| + index] else null
        invariant answer == LastIndex(Contents[..index], e)
        decreases |Contents| - index
      {
        assert Contents[..index + 1][..index] == Contents[..index];
        if current.element == e {
          answer := index;
        }
        current := current.next;
        index := index + 1;
      }
      assert Contents[..index] == Contents;
    }

    /** Returns None past `size`; otherwise walks `index` links (none for a
        negative index) and overwrites that node's element. */
    method Set(index: int, e: E) returns (r: Option<E>)
      requires Valid()
      requires index > size || (if index < 0 then 0 else index) < |Contents|
      modifies this, Nodes
      ensures Valid()
      ensures index > old(size) ==> r == None && unchanged(this)
      ensures index <= old(size) ==>
        var j := if index < 0 then 0 else index;
        r == Some(old(Contents)[j]) && Contents == old(Contents)[j := e] && size == old(size)
      ensures Behind == old(Behind)
    {
      if index > size {
        return None;
      }
      var current := Walk(if index < 0 then 0 else index);
      var temp := current.element;
      current.element := e;
      Contents := Contents[if index < 0 then 0 else index := e];
      return Some(temp);
    }
  }
}
