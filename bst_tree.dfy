/** The node structure of the binary search tree as a value: the TreeNode chain,
    the compareTo contract, the three recursive traversals, and the trees that
    the source's insert and delete leave behind, with what they preserve. */
module BstTree {

  /** A subtree: `Nil` is a null child reference, `Node` a TreeNode. */
  datatype Tree<E> = Nil | Node(left: Tree<E>, element: E, right: Tree<E>)

  /** The contract of `compareTo` that the tree relies on: zero exactly on equal
      elements, antisymmetric in sign, and transitive. Transitivity is used
      through `LessTrans` only, so that the solver does not chain it unasked. */
  ghost predicate IsTotalOrder<E(!new)>(cmp: (E, E) -> int) {
    && (forall a, b :: cmp(a, b) == 0 <==> a == b)
    && (forall a, b :: cmp(a, b) < 0 <==> cmp(b, a) > 0)
    && (forall a, b, c {:trigger Between(cmp, a, b, c)} :: Between(cmp, a, b, c) ==> cmp(a, c) < 0)
  }

  ghost predicate Between<E>(cmp: (E, E) -> int, a: E, b: E, c: E) {
    cmp(a, b) < 0 && cmp(b, c) < 0
  }

  lemma LessTrans<E(!new)>(cmp: (E, E) -> int, a: E, b: E, c: E)
    requires IsTotalOrder(cmp) && cmp(a, b) < 0 && cmp(b, c) < 0
    ensures cmp(a, c) < 0
  {
    assert Between(cmp, a, b, c);
  }

  ghost function Elements<E>(t: Tree<E>): set<E> {
    match t
    case Nil => {}
    case Node(l, x, r) => Elements(l) + {x} + Elements(r)
  }

  /** The elements with their multiplicity: one per node. */
  ghost function Bag<E>(t: Tree<E>): multiset<E> {
    match t
    case Nil => multiset{}
    case Node(l, x, r) => Bag(l) + multiset{x} + Bag(r)
  }

  /** The number of nodes. */
  ghost function Count<E>(t: Tree<E>): nat {
    match t
    case Nil => 0
    case Node(l, _, r) => Count(l) + 1 + Count(r)
  }

  /** The strict search-tree ordering: every element of a left subtree is less
      than its node, every element of a right subtree greater. */
  ghost predicate Ordered<E>(t: Tree<E>, cmp: (E, E) -> int) {
    match t
    case Nil => true
    case Node(l, x, r) =>
      && Ordered(l, cmp) && Ordered(r, cmp)
      && (forall y :: y in Elements(l) ==> cmp(y, x) < 0)
      && (forall y :: y in Elements(r) ==> cmp(x, y) < 0)
  }

  ghost predicate Ascending<E>(s: seq<E>, cmp: (E, E) -> int) {
    forall i, j :: 0 <= i < j < |s| ==> cmp(s[i], s[j]) < 0
  }

  // ---------------------------------------------------------------------------
  // Traversals (BST.java inorder / postorder / preorder and the iterator's list)
  // ---------------------------------------------------------------------------

  /** Left subtree, node, right subtree: the order of `inorder` and of the
      iterator's snapshot list. Every node is visited exactly once. */
  function Inorder<E(!new)>(t: Tree<E>): (s: seq<E>)
    ensures |s| == Count(t)
    ensures forall y :: y in s <==> y in Elements(t)
  {
    match t
    case Nil => []
    case Node(l, x, r) => Inorder(l) + [x] + Inorder(r)
  }

  /** The visiting order of the source's method named `postorder`: the node
      first, then its left and right subtrees. */
  function Postorder<E>(t: Tree<E>): (s: seq<E>)
    ensures |s| == Count(t)
    ensures t.Node? ==> s[0] == t.element
  {
    match t
    case Nil => []
    case Node(l, x, r) => [x] + Postorder(l) + Postorder(r)
  }

  /** The visiting order of the source's method named `preorder`: the left and
      right subtrees first, the node last. */
  function Preorder<E>(t: Tree<E>): (s: seq<E>)
    ensures |s| == Count(t)
    ensures t.Node? ==> s[|s| - 1] == t.element
  {
    match t
    case Nil => []
    case Node(l, x, r) => Preorder(l) + Preorder(r) + [x]
  }

  /** The in-order traversal visits every node exactly once. */
  lemma {:induction false} InorderVisitsEachNodeOnce<E(!new)>(t: Tree<E>)
    ensures multiset(Inorder(t)) == Bag(t)
  {
    match t
    case Nil =>
    case Node(l, x, r) =>
      InorderVisitsEachNodeOnce(l);
      InorderVisitsEachNodeOnce(r);
      assert multiset(Inorder(t)) == multiset(Inorder(l)) + multiset{x} + multiset(Inorder(r));
  }

  /** The node-first traversal visits every node exactly once. */
  lemma {:induction false} PostorderVisitsEachNodeOnce<E>(t: Tree<E>)
    ensures multiset(Postorder(t)) == Bag(t)
  {
    match t
    case Nil =>
    case Node(l, x, r) =>
      PostorderVisitsEachNodeOnce(l);
      PostorderVisitsEachNodeOnce(r);
      assert multiset(Postorder(t)) == multiset{x} + multiset(Postorder(l)) + multiset(Postorder(r));
  }

  /** The node-last traversal visits every node exactly once. */
  lemma {:induction false} PreorderVisitsEachNodeOnce<E>(t: Tree<E>)
    ensures multiset(Preorder(t)) == Bag(t)
  {
    match t
    case Nil =>
    case Node(l, x, r) =>
      PreorderVisitsEachNodeOnce(l);
      PreorderVisitsEachNodeOnce(r);
      assert multiset(Preorder(t)) == multiset(Preorder(l)) + multiset(Preorder(r)) + multiset{x};
  }

  /** On an ordered tree the in-order sequence is strictly ascending. */
  lemma {:induction false} InorderAscending<E(!new)>(t: Tree<E>, cmp: (E, E) -> int)
    requires IsTotalOrder(cmp) && Ordered(t, cmp)
    ensures Ascending(Inorder(t), cmp)
  {
    match t
    case Nil =>
    case Node(l, x, r) =>
      InorderAscending(l, cmp);
      InorderAscending(r, cmp);
      AscendingJoin(Inorder(l), x, Inorder(r), cmp);
  }

  /** Two ascending sequences joined by an element above the first and below
      the second form an ascending sequence. */
  lemma AscendingJoin<E(!new)>(a: seq<E>, x: E, b: seq<E>, cmp: (E, E) -> int)
    requires IsTotalOrder(cmp) && Ascending(a, cmp) && Ascending(b, cmp)
    requires forall y :: y in a ==> cmp(y, x) < 0
    requires forall y :: y in b ==> cmp(x, y) < 0
    ensures Ascending(a + [x] + b, cmp)
  {
    var s := a + [x] + b;
    forall i, j | 0 <= i < j < |s| ensures cmp(s[i], s[j]) < 0 {
      if j < |a| {
        assert s[i] == a[i] && s[j] == a[j];
      } else if i < |a| {
        assert s[i] == a[i] && a[i] in a;
        if j > |a| {
          assert s[j] == b[j - |a| - 1] && b[j - |a| - 1] in b;
          LessTrans(cmp, s[i], x, s[j]);
        }
      } else if i == |a| {
        assert s[j] == b[j - |a| - 1] && b[j - |a| - 1] in b;
      } else {
        assert s[i] == b[i - |a| - 1] && s[j] == b[j - |a| - 1];
      }
    }
  }

  /** On an ordered tree no element occurs twice, so the node count (the
      tree's `size`) is the number of distinct elements. */
  lemma {:induction false} OrderedCountIsCardinality<E(!new)>(t: Tree<E>, cmp: (E, E) -> int)
    requires IsTotalOrder(cmp) && Ordered(t, cmp)
    ensures Count(t) == |Elements(t)|
  {
    match t
    case Nil =>
    case Node(l, x, r) =>
      OrderedCountIsCardinality(l, cmp);
      OrderedCountIsCardinality(r, cmp);
      var a, b := Elements(l), Elements(r);
      assert x !in a && x !in b;
      forall y, z | y in a && z in b ensures y != z {
        LessTrans(cmp, y, x, z);
      }
      assert (a + {x}) * b == {};
      assert |a + {x}| == |a| + 1;
      assert |a + {x} + b| == |a + {x}| + |b|;
  }

  // ---------------------------------------------------------------------------
  // Search (BST.java search and path)
  // ---------------------------------------------------------------------------

  /** The child `search` moves to from node `n` when `e` does not compare equal. */
  function Child<E>(n: Tree<E>, e: E, cmp: (E, E) -> int): Tree<E>
    requires n.Node?
  {
    if cmp(e, n.element) < 0 then n.left else n.right
  }

  /** Whether the walk of `search`, `insert` and `path` reaches a node that
      compares equal to `e`. */
  ghost predicate Contains<E>(t: Tree<E>, e: E, cmp: (E, E) -> int) {
    match t
    case Nil => false
    case Node(l, x, r) =>
      if cmp(e, x) < 0 then Contains(l, e, cmp)
      else if cmp(e, x) > 0 then Contains(r, e, cmp)
      else true
  }

  /** On an ordered tree the search walk finds `e` exactly when `e` is an element. */
  lemma {:induction false} ContainsIffMember<E(!new)>(t: Tree<E>, e: E, cmp: (E, E) -> int)
    requires IsTotalOrder(cmp) && Ordered(t, cmp)
    ensures Contains(t, e, cmp) <==> e in Elements(t)
  {
    match t
    case Nil =>
    case Node(l, x, r) =>
      ContainsIffMember(l, e, cmp);
      ContainsIffMember(r, e, cmp);
      if cmp(e, x) < 0 {
        GreaterSubtreeExcludes(r, x, e, cmp);
      } else if cmp(e, x) > 0 {
        LessSubtreeExcludes(l, x, e, cmp);
      }
  }

  /** An element less than a node's element is not in its right subtree. */
  lemma GreaterSubtreeExcludes<E(!new)>(r: Tree<E>, x: E, e: E, cmp: (E, E) -> int)
    requires IsTotalOrder(cmp) && cmp(e, x) < 0
    requires forall y :: y in Elements(r) ==> cmp(x, y) < 0
    ensures e !in Elements(r)
  {
    forall y | y in Elements(r) ensures y != e {
      LessTrans(cmp, e, x, y);
    }
  }

  /** An element greater than a node's element is not in its left subtree. */
  lemma LessSubtreeExcludes<E(!new)>(l: Tree<E>, x: E, e: E, cmp: (E, E) -> int)
    requires IsTotalOrder(cmp) && cmp(e, x) > 0
    requires forall y :: y in Elements(l) ==> cmp(y, x) < 0
    ensures e !in Elements(l)
  {
    forall y | y in Elements(l) ensures y != e {
      LessTrans(cmp, y, x, e);
    }
  }

  // ---------------------------------------------------------------------------
  // Insert (BST.java insert)
  // ---------------------------------------------------------------------------

  /** The tree `insert(e)` leaves: unchanged when the walk meets an equal
      element, otherwise with one new leaf where the walk fell off the tree. */
  ghost function InsertTree<E>(t: Tree<E>, e: E, cmp: (E, E) -> int): Tree<E> {
    match t
    case Nil => Node(Nil, e, Nil)
    case Node(l, x, r) =>
      if cmp(e, x) < 0 then Node(InsertTree(l, e, cmp), x, r)
      else if cmp(e, x) > 0 then Node(l, x, InsertTree(r, e, cmp))
      else t
  }

  /** Insert leaves the tree unchanged exactly when the walk finds `e`; otherwise
      it adds one node holding `e`. Either way the element set gains `e`. */
  lemma {:induction false} InsertTreeShape<E>(t: Tree<E>, e: E, cmp: (E, E) -> int)
    ensures Contains(t, e, cmp) ==> InsertTree(t, e, cmp) == t
    ensures !Contains(t, e, cmp) ==> Count(InsertTree(t, e, cmp)) == Count(t) + 1
    ensures !Contains(t, e, cmp) ==> Elements(InsertTree(t, e, cmp)) == Elements(t) + {e}
  {
    match t
    case Nil =>
    case Node(l, x, r) =>
      InsertTreeShape(l, e, cmp);
      InsertTreeShape(r, e, cmp);
  }

  /** Insert preserves the strict ordering, and the elements become those of
      the old tree plus `e`. */
  lemma {:induction false} InsertTreeOrdered<E(!new)>(t: Tree<E>, e: E, cmp: (E, E) -> int)
    requires IsTotalOrder(cmp) && Ordered(t, cmp)
    ensures Ordered(InsertTree(t, e, cmp), cmp)
    ensures Elements(InsertTree(t, e, cmp)) == Elements(t) + {e}
  {
    match t
    case Nil =>
    case Node(l, x, r) =>
      if cmp(e, x) < 0 {
        InsertTreeOrdered(l, e, cmp);
        var l' := InsertTree(l, e, cmp);
        assert InsertTree(t, e, cmp) == Node(l', x, r);
        assert forall y :: y in Elements(l') ==> y == e || y in Elements(l);
      } else if cmp(e, x) > 0 {
        InsertTreeOrdered(r, e, cmp);
        var r' := InsertTree(r, e, cmp);
        assert InsertTree(t, e, cmp) == Node(l, x, r');
        assert forall y :: y in Elements(r') ==> y == e || y in Elements(r);
      }
  }

  // ---------------------------------------------------------------------------
  // Delete (BST.java delete), as written and as intended
  // ---------------------------------------------------------------------------

  /** The rightmost node of a subtree spliced out, with the element it held:
      what the loop at lines 208-222 does to the left subtree of the found node. */
  ghost function RemoveMax<E>(t: Tree<E>): (Tree<E>, E)
    requires t.Node?
  {
    if t.right == Nil then (t.left, t.element)
    else
      var p := RemoveMax(t.right);
      (Node(t.left, t.element, p.0), p.1)
  }

  /** Case 2 of delete: the node takes its in-order predecessor's element and the
      predecessor node is replaced by its own left child. */
  ghost function Promote<E>(t: Tree<E>): Tree<E>
    requires t.Node? && t.left.Node?
  {
    var p := RemoveMax(t.left);
    Node(p.0, p.1, t.right)
  }

  /** Whether the locating loop of delete meets `e`: it steps to the left child
      whether `e` is less or greater, so it only visits the leftmost spine. */
  ghost predicate OnLeftSpine<E>(t: Tree<E>, e: E, cmp: (E, E) -> int) {
    match t
    case Nil => false
    case Node(l, x, _) => cmp(e, x) == 0 || OnLeftSpine(l, e, cmp)
  }

  /** Delete below parent `p`, whose left child is the locating loop's `current`. */
  ghost function DeleteBelow<E>(p: Tree<E>, e: E, cmp: (E, E) -> int): Tree<E>
    requires p.Node?
  {
    match p
    case Node(pl, px, pr) =>
      match pl
      case Nil => p
      case Node(cl, y, cr) =>
        if cmp(e, y) == 0 then
          if cl == Nil then
            // line 197 compares e with the element equal to it
            if cmp(e, y) < 0 then Node(cr, px, pr) else Node(pl, px, cr)
          else Node(Promote(pl), px, pr)
        else Node(DeleteBelow(pl, e, cmp), px, pr)
  }

  /** The tree `delete(e)` leaves, as the source is written. */
  ghost function DeleteAsWritten<E>(t: Tree<E>, e: E, cmp: (E, E) -> int): Tree<E> {
    match t
    case Nil => Nil
    case Node(l, x, r) =>
      if cmp(e, x) == 0 then (if l == Nil then r else Promote(t))
      else DeleteBelow(t, e, cmp)
  }

  /** Whether the found node lies below parent `p`'s left link and has no left
      child: the branch at lines 196-201 that relinks the wrong side. */
  ghost predicate RelinkDefect<E>(p: Tree<E>, e: E, cmp: (E, E) -> int)
    requires p.Node?
  {
    match p.left
    case Nil => false
    case Node(cl, y, _) => if cmp(e, y) == 0 then cl == Nil else RelinkDefect(p.left, e, cmp)
  }

  ghost predicate DeleteHitsDefect<E>(t: Tree<E>, e: E, cmp: (E, E) -> int) {
    t.Node? && cmp(e, t.element) != 0 && RelinkDefect(t, e, cmp)
  }

  /** The deletion the source's comments describe: locate `e` by comparison,
      replace a node without left child by its right child, otherwise promote
      the in-order predecessor. */
  ghost function DeleteFixed<E>(t: Tree<E>, e: E, cmp: (E, E) -> int): Tree<E> {
    match t
    case Nil => Nil
    case Node(l, x, r) =>
      if cmp(e, x) < 0 then Node(DeleteFixed(l, e, cmp), x, r)
      else if cmp(e, x) > 0 then Node(l, x, DeleteFixed(r, e, cmp))
      else if l == Nil then r
      else Promote(t)
  }

  lemma {:induction false} OnLeftSpineIsMember<E(!new)>(t: Tree<E>, e: E, cmp: (E, E) -> int)
    requires IsTotalOrder(cmp)
    ensures OnLeftSpine(t, e, cmp) ==> e in Elements(t)
  {
    match t
    case Nil =>
    case Node(l, x, r) => OnLeftSpineIsMember(l, e, cmp);
  }

  /** Splicing out the rightmost node keeps the order and removes exactly the
      largest element, which it returns. */
  lemma {:induction false} RemoveMaxCorrect<E(!new)>(t: Tree<E>, cmp: (E, E) -> int)
    requires IsTotalOrder(cmp) && t.Node? && Ordered(t, cmp)
    ensures Ordered(RemoveMax(t).0, cmp)
    ensures RemoveMax(t).1 in Elements(t)
    ensures Elements(RemoveMax(t).0) == Elements(t) - {RemoveMax(t).1}
    ensures forall y :: y in Elements(RemoveMax(t).0) ==> cmp(y, RemoveMax(t).1) < 0
    ensures Count(RemoveMax(t).0) == Count(t) - 1
  {
    var l, x, r := t.left, t.element, t.right;
    if r == Nil {
      assert x !in Elements(l);
    } else {
      RemoveMaxCorrect(r, cmp);
      var m := RemoveMax(r).1;
      assert cmp(x, m) < 0;
      forall y | y in Elements(l) ensures cmp(y, m) < 0 {
        LessTrans(cmp, y, x, m);
      }
      assert m !in Elements(l) + {x};
    }
  }

  /** Promoting the in-order predecessor removes exactly the node's element and
      keeps the order. */
  lemma {:induction false} PromoteCorrect<E(!new)>(t: Tree<E>, cmp: (E, E) -> int)
    requires IsTotalOrder(cmp) && t.Node? && t.left.Node? && Ordered(t, cmp)
    ensures Ordered(Promote(t), cmp)
    ensures Elements(Promote(t)) == Elements(t) - {t.element}
    ensures Count(Promote(t)) == Count(t) - 1
  {
    var l, x, r := t.left, t.element, t.right;
    RemoveMaxCorrect(l, cmp);
    var l', m := RemoveMax(l).0, RemoveMax(l).1;
    assert Promote(t) == Node(l', m, r);
    assert cmp(m, x) < 0;
    forall y | y in Elements(r) ensures cmp(m, y) < 0 {
      LessTrans(cmp, m, x, y);
    }
    assert x !in Elements(l) && x !in Elements(r);
    assert Elements(l') + {m} == Elements(l);
  }

  /** The intended deletion removes exactly `e` and keeps the order. */
  lemma {:induction false} DeleteFixedCorrect<E(!new)>(t: Tree<E>, e: E, cmp: (E, E) -> int)
    requires IsTotalOrder(cmp) && Ordered(t, cmp)
    ensures Ordered(DeleteFixed(t, e, cmp), cmp)
    ensures Elements(DeleteFixed(t, e, cmp)) == Elements(t) - {e}
    ensures Count(DeleteFixed(t, e, cmp)) == Count(t) - (if e in Elements(t) then 1 else 0)
  {
    match t
    case Nil =>
    case Node(l, x, r) =>
      if cmp(e, x) < 0 {
        DeleteFixedCorrect(l, e, cmp);
        DeleteFixedLeft(l, x, r, e, cmp);
      } else if cmp(e, x) > 0 {
        DeleteFixedCorrect(r, e, cmp);
        DeleteFixedRight(l, x, r, e, cmp);
      } else if l == Nil {
        assert e == x && x !in Elements(r);
        assert DeleteFixed(t, e, cmp) == r;
      } else {
        PromoteCorrect(t, cmp);
        assert DeleteFixed(t, e, cmp) == Promote(t);
      }
  }

  /** A delete that goes left keeps the tree ordered, given that it does so
      in the left subtree. */
  lemma DeleteFixedLeft<E(!new)>(l: Tree<E>, x: E, r: Tree<E>, e: E, cmp: (E, E) -> int)
    requires IsTotalOrder(cmp) && Ordered(Node(l, x, r), cmp) && cmp(e, x) < 0
    requires Ordered(DeleteFixed(l, e, cmp), cmp)
    requires Elements(DeleteFixed(l, e, cmp)) == Elements(l) - {e}
    requires Count(DeleteFixed(l, e, cmp)) == Count(l) - (if e in Elements(l) then 1 else 0)
    ensures Ordered(DeleteFixed(Node(l, x, r), e, cmp), cmp)
    ensures Elements(DeleteFixed(Node(l, x, r), e, cmp)) == Elements(Node(l, x, r)) - {e}
    ensures Count(DeleteFixed(Node(l, x, r), e, cmp)) ==
      Count(Node(l, x, r)) - (if e in Elements(Node(l, x, r)) then 1 else 0)
  {
    GreaterSubtreeExcludes(r, x, e, cmp);
    var l' := DeleteFixed(l, e, cmp);
    assert DeleteFixed(Node(l, x, r), e, cmp) == Node(l', x, r);
    assert e != x && e !in Elements(r);
    assert Elements(Node(l, x, r)) - {e} == (Elements(l) - {e}) + {x} + Elements(r);
    assert forall y :: y in Elements(l') ==> y in Elements(l);
    assert e in Elements(Node(l, x, r)) <==> e in Elements(l);
  }

  /** A delete that goes right keeps the tree ordered, given that it does so
      in the right subtree. */
  lemma DeleteFixedRight<E(!new)>(l: Tree<E>, x: E, r: Tree<E>, e: E, cmp: (E, E) -> int)
    requires IsTotalOrder(cmp) && Ordered(Node(l, x, r), cmp) && cmp(e, x) > 0
    requires Ordered(DeleteFixed(r, e, cmp), cmp)
    requires Elements(DeleteFixed(r, e, cmp)) == Elements(r) - {e}
    requires Count(DeleteFixed(r, e, cmp)) == Count(r) - (if e in Elements(r) then 1 else 0)
    ensures Ordered(DeleteFixed(Node(l, x, r), e, cmp), cmp)
    ensures Elements(DeleteFixed(Node(l, x, r), e, cmp)) == Elements(Node(l, x, r)) - {e}
    ensures Count(DeleteFixed(Node(l, x, r), e, cmp)) ==
      Count(Node(l, x, r)) - (if e in Elements(Node(l, x, r)) then 1 else 0)
  {
    LessSubtreeExcludes(l, x, e, cmp);
    var r' := DeleteFixed(r, e, cmp);
    assert DeleteFixed(Node(l, x, r), e, cmp) == Node(l, x, r');
    assert e != x && e !in Elements(l);
    assert Elements(Node(l, x, r)) - {e} == Elements(l) + {x} + (Elements(r) - {e});
    assert forall y :: y in Elements(r') ==> y in Elements(r);
    assert e in Elements(Node(l, x, r)) <==> e in Elements(r);
  }

  /** When the locating loop does not meet `e`, delete changes nothing. */
  lemma {:induction false} DeleteBelowMiss<E>(p: Tree<E>, e: E, cmp: (E, E) -> int)
    requires p.Node? && !OnLeftSpine(p.left, e, cmp)
    ensures DeleteBelow(p, e, cmp) == p
  {
    match p.left
    case Nil =>
    case Node(_, _, _) => DeleteBelowMiss(p.left, e, cmp);
  }

  lemma DeleteMissChangesNothing<E>(t: Tree<E>, e: E, cmp: (E, E) -> int)
    requires !OnLeftSpine(t, e, cmp)
    ensures DeleteAsWritten(t, e, cmp) == t
  {
    if t.Node? { DeleteBelowMiss(t, e, cmp); }
  }

  /** No element of the root's right subtree is ever found by delete. */
  lemma RightSubtreeNeverFound<E(!new)>(t: Tree<E>, e: E, cmp: (E, E) -> int)
    requires IsTotalOrder(cmp) && Ordered(t, cmp) && t.Node? && e in Elements(t.right)
    ensures !OnLeftSpine(t, e, cmp)
    ensures DeleteAsWritten(t, e, cmp) == t
  {
    OnLeftSpineIsMember(t.left, e, cmp);
    assert cmp(t.element, e) < 0;
    LessSubtreeExcludes(t.left, t.element, e, cmp);
    DeleteMissChangesNothing(t, e, cmp);
  }

  lemma {:induction false} DeleteBelowAgrees<E(!new)>(p: Tree<E>, e: E, cmp: (E, E) -> int)
    requires IsTotalOrder(cmp) && p.Node? && Ordered(p, cmp) && cmp(e, p.element) < 0
    requires OnLeftSpine(p.left, e, cmp) && !RelinkDefect(p, e, cmp)
    ensures DeleteBelow(p, e, cmp) == DeleteFixed(p, e, cmp)
  {
    var l := p.left;
    if cmp(e, l.element) != 0 {
      OnLeftSpineIsMember(l.left, e, cmp);
      assert cmp(e, l.element) < 0;
      DeleteBelowAgrees(l, e, cmp);
    }
  }

  /** Whenever delete finds `e` and does not take the defective relinking
      branch, it leaves exactly the intended tree. */
  lemma DeleteAgreesOffDefect<E(!new)>(t: Tree<E>, e: E, cmp: (E, E) -> int)
    requires IsTotalOrder(cmp) && Ordered(t, cmp)
    requires OnLeftSpine(t, e, cmp) && !DeleteHitsDefect(t, e, cmp)
    ensures DeleteAsWritten(t, e, cmp) == DeleteFixed(t, e, cmp)
    ensures Ordered(DeleteAsWritten(t, e, cmp), cmp)
    ensures Elements(DeleteAsWritten(t, e, cmp)) == Elements(t) - {e}
    ensures Count(DeleteAsWritten(t, e, cmp)) == Count(t) - 1
  {
    OnLeftSpineIsMember(t, e, cmp);
    if cmp(e, t.element) != 0 {
      OnLeftSpineIsMember(t.left, e, cmp);
      assert cmp(e, t.element) < 0;
      DeleteBelowAgrees(t, e, cmp);
    }
    DeleteFixedCorrect(t, e, cmp);
  }

  lemma {:induction false} RelinkDefectKeeps<E(!new)>(p: Tree<E>, e: E, cmp: (E, E) -> int)
    requires IsTotalOrder(cmp) && p.Node? && RelinkDefect(p, e, cmp)
    ensures e in Elements(DeleteBelow(p, e, cmp))
  {
    var l := p.left;
    if cmp(e, l.element) != 0 {
      RelinkDefectKeeps(l, e, cmp);
    }
  }

  /** On the defective branch the found element stays in the tree although
      delete reports success. */
  lemma DefectKeepsElement<E(!new)>(t: Tree<E>, e: E, cmp: (E, E) -> int)
    requires IsTotalOrder(cmp) && DeleteHitsDefect(t, e, cmp)
    ensures OnLeftSpine(t, e, cmp)
    ensures e in Elements(DeleteAsWritten(t, e, cmp))
  {
    RelinkDefectSpine(t, e, cmp);
    RelinkDefectKeeps(t, e, cmp);
  }

  lemma {:induction false} RelinkDefectSpine<E>(p: Tree<E>, e: E, cmp: (E, E) -> int)
    requires p.Node? && RelinkDefect(p, e, cmp)
    ensures OnLeftSpine(p.left, e, cmp)
  {
    if cmp(e, p.left.element) != 0 {
      RelinkDefectSpine(p.left, e, cmp);
    }
  }

  // ---------------------------------------------------------------------------
  // Rebuilding along a walk
  // ---------------------------------------------------------------------------

  /** One step of a walk from the root, keeping the parts of the parent that
      the walk did not enter. */
  datatype Frame<E> = WentLeft(element: E, right: Tree<E>) | WentRight(left: Tree<E>, element: E)

  function Fill<E>(f: Frame<E>, t: Tree<E>): Tree<E> {
    match f
    case WentLeft(x, r) => Node(t, x, r)
    case WentRight(l, x) => Node(l, x, t)
  }

  /** The whole tree with `t` in place of the subtree the walk `ctx` reached. */
  function Plug<E>(ctx: seq<Frame<E>>, t: Tree<E>): Tree<E>
    decreases |ctx|
  {
    if ctx == [] then t else Plug(ctx[..|ctx| - 1], Fill(ctx[|ctx| - 1], t))
  }

  lemma PlugStep<E>(ctx: seq<Frame<E>>, f: Frame<E>, t: Tree<E>)
    ensures Plug(ctx + [f], t) == Plug(ctx, Fill(f, t))
  {
    assert (ctx + [f])[..|ctx|] == ctx;
  }

  // ---------------------------------------------------------------------------
  // Concrete witnesses of the two delete defects, on integers
  // ---------------------------------------------------------------------------

  function IntCompare(a: int, b: int): int {
    if a < b then -1 else if a > b then 1 else 0
  }

  /** The comparator of the witnesses is a legitimate one. */
  lemma IntCompareIsTotalOrder()
    ensures IsTotalOrder(IntCompare)
  {
  }

  function Leaf(x: int): Tree<int> {
    Node(Nil, x, Nil)
  }

  /** The tree of insert 5, 3, 8: delete(8) reports false and keeps 8,
      where the intended deletion removes it. */
  lemma DeleteMissesRightChild()
    ensures var t := Node(Leaf(3), 5, Leaf(8));
      && IsTotalOrder(IntCompare)
      && Ordered(t, IntCompare) && 8 in Elements(t)
      && !OnLeftSpine(t, 8, IntCompare)
      && DeleteAsWritten(t, 8, IntCompare) == t
      && DeleteFixed(t, 8, IntCompare) == Node(Leaf(3), 5, Nil)
  {
    IntCompareIsTotalOrder();
    var t := Node(Leaf(3), 5, Leaf(8));
    assert Elements(Leaf(3)) == {3} && Elements(Leaf(8)) == {8};
    assert OnLeftSpine(Leaf(3), 8, IntCompare) == false;
  }

  /** The tree of insert 5, 3, 8, 4: delete(3) reports true, keeps 3, drops 8,
      and makes node 4 both the right child of 3 and of 5. */
  lemma DeleteRelinksWrongSide()
    ensures var t := Node(Node(Nil, 3, Leaf(4)), 5, Leaf(8));
      && IsTotalOrder(IntCompare)
      && Ordered(t, IntCompare)
      && DeleteHitsDefect(t, 3, IntCompare)
      && DeleteAsWritten(t, 3, IntCompare) == Node(Node(Nil, 3, Leaf(4)), 5, Leaf(4))
      && 3 in Elements(DeleteAsWritten(t, 3, IntCompare))
      && 8 !in Elements(DeleteAsWritten(t, 3, IntCompare))
      && !Ordered(DeleteAsWritten(t, 3, IntCompare), IntCompare)
      && DeleteFixed(t, 3, IntCompare) == Node(Leaf(4), 5, Leaf(8))
  {
    IntCompareIsTotalOrder();
    var t := Node(Node(Nil, 3, Leaf(4)), 5, Leaf(8));
    assert Elements(Leaf(4)) == {4} && Elements(Leaf(8)) == {8};
    var d := DeleteAsWritten(t, 3, IntCompare);
    assert d == Node(Node(Nil, 3, Leaf(4)), 5, Leaf(4));
    assert 4 in Elements(d.right) && IntCompare(5, 4) > 0;
  }
}
