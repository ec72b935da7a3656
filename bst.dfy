/** The binary search tree object: its `root` link and `size` counter, updated
    in place by search-walk loops, and the in-order iterator over a snapshot. */
module BinarySearchTree {
  import opened BstTree
  import opened Wrappers

  /** `IndexOutOfBoundsException` from the iterator's list. */
  datatype IndexError = IndexOutOfBounds

  /** The tree the array constructor builds: the objects inserted in order. */
  ghost function InsertAll<E>(t: Tree<E>, objects: seq<E>, cmp: (E, E) -> int): Tree<E>
    decreases |objects|
  {
    if objects == [] then t
    else InsertTree(InsertAll(t, objects[..|objects| - 1], cmp), objects[|objects| - 1], cmp)
  }

  /** What the iterator's snapshot list is on a valid tree. */
  lemma InorderOfValid<E(!new)>(root: Tree<E>, size: int, cmp: (E, E) -> int)
    requires IsTotalOrder(cmp) && Ordered(root, cmp) && size == Count(root)
    ensures Ascending(Inorder(root), cmp) && |Inorder(root)| == size
  {
    InorderAscending(root, cmp);
  }

  class BST<E(!new)> {
    /** The node structure hanging off the `root` link. */
    var root: Tree<E>
    var size: int
    /** `compareTo` of the element type. */
    const cmp: (E, E) -> int

    /** The comparator is a total order, the tree is a strict search tree and
        `size` counts its nodes. */
    ghost predicate Valid()
      reads this
    {
      IsTotalOrder(cmp) && Ordered(root, cmp) && size == Count(root)
    }

    ghost function Elems(): set<E>
      reads this
    {
      Elements(root)
    }

    /** The empty tree. */
    constructor(cmp: (E, E) -> int)
      requires IsTotalOrder(cmp)
      ensures this.cmp == cmp && root == Nil && size == 0
      ensures Valid()
    {
      this.cmp := cmp;
      root := Nil;
      size := 0;
    }

    /** The tree holding `objects`, inserted from first to last. */
    constructor FromSeq(cmp: (E, E) -> int, objects: seq<E>)
      requires IsTotalOrder(cmp)
      ensures this.cmp == cmp
      ensures Valid()
      ensures root == InsertAll(Nil, objects, cmp)
      ensures Elems() == set x | x in objects
    {
      this.cmp := cmp;
      root := Nil;
      size := 0;
      new;
      for i := 0 to |objects|
        invariant Valid()
        invariant root == InsertAll(Nil, objects[..i], cmp)
        invariant Elems() == set x | x in objects[..i]
      {
        assert objects[..i + 1][..i] == objects[..i];
        assert forall x :: x in objects[..i + 1] <==> x in objects[..i] || x == objects[i];
        var _ := Insert(objects[i]);
      }
      assert objects[..|objects|] == objects;
    }

    /** The search walk: left on less, right on greater, true on an equal
        element. On a valid tree it answers membership. */
    method Search(e: E) returns (found: bool)
      ensures found == Contains(root, e, cmp)
      ensures Valid() ==> (found <==> e in Elems())
    {
      if Valid() { ContainsIffMember(root, e, cmp); }
      var current := root;
      while current.Node?
        invariant Contains(current, e, cmp) == Contains(root, e, cmp)
        decreases current
      {
        if cmp(e, current.element) < 0 {
          current := current.left;
        } else if cmp(e, current.element) > 0 {
          current := current.right;
        } else {
          return true;
        }
      }
      return false;
    }

    /** Inserts `e` unless the walk meets an equal element. */
    method Insert(e: E) returns (inserted: bool)
      modifies this
      ensures inserted == !Contains(old(root), e, cmp)
      ensures root == InsertTree(old(root), e, cmp)
      ensures size == old(size) + (if inserted then 1 else 0)
      ensures !inserted ==> root == old(root)
      ensures old(Valid()) ==> Valid() && Elems() == old(Elems()) + {e}
    {
      InsertTreeShape(root, e, cmp);
      if Valid() {
        InsertTreeOrdered(root, e, cmp);
      }
      if root.Nil? {
        root := Node(Nil, e, Nil);
      } else {
        var ctx: seq<Frame<E>> := [];
        var current := root;
        while current.Node?
          invariant unchanged(this)
          invariant Plug(ctx, current) == root
          invariant Plug(ctx, InsertTree(current, e, cmp)) == InsertTree(root, e, cmp)
          invariant Contains(current, e, cmp) == Contains(root, e, cmp)
          decreases current
        {
          var f;
          if cmp(e, current.element) < 0 {
            f := WentLeft(current.element, current.right);
            PlugStep(ctx, f, current.left);
            PlugStep(ctx, f, InsertTree(current.left, e, cmp));
            current := current.left;
          } else if cmp(e, current.element) > 0 {
            f := WentRight(current.left, current.element);
            PlugStep(ctx, f, current.right);
            PlugStep(ctx, f, InsertTree(current.right, e, cmp));
            current := current.right;
          } else {
            return false;
          }
          ctx := ctx + [f];
        }
        // the new leaf attached below the last node visited
        root := Plug(ctx, Node(Nil, e, Nil));
      }
      size := size + 1;
      return true;
    }

    /** The nodes the search walk visits, root first: it ends at the node equal
        to `e`, or at the last node before a null child. */
    method Path(e: E) returns (list: seq<Tree<E>>)
      ensures |list| == 0 <==> root.Nil?
      ensures |list| > 0 ==> list[0] == root
      ensures forall i :: 0 <= i < |list| ==> list[i].Node?
      ensures forall i :: 0 <= i < |list| - 1 ==>
        cmp(e, list[i].element) != 0 && list[i + 1] == Child(list[i], e, cmp)
      ensures |list| > 0 ==>
        cmp(e, list[|list| - 1].element) == 0 || Child(list[|list| - 1], e, cmp).Nil?
      ensures |list| > 0 && cmp(e, list[|list| - 1].element) == 0 <==> Contains(root, e, cmp)
      ensures Valid() ==> (|list| > 0 && cmp(e, list[|list| - 1].element) == 0 <==> e in Elems())
    {
      if Valid() { ContainsIffMember(root, e, cmp); }
      list := [];
      var current := root;
      while current.Node?
        invariant |list| == 0 ==> current == root
        invariant |list| > 0 ==> list[0] == root
        invariant forall i :: 0 <= i < |list| ==> list[i].Node?
        invariant forall i :: 0 <= i < |list| - 1 ==>
          cmp(e, list[i].element) != 0 && list[i + 1] == Child(list[i], e, cmp)
        invariant |list| > 0 ==>
          cmp(e, list[|list| - 1].element) != 0 && current == Child(list[|list| - 1], e, cmp)
        invariant Contains(current, e, cmp) == Contains(root, e, cmp)
        decreases current
      {
        list := list + [current];
        if cmp(e, current.element) < 0 {
          current := current.left;
        } else if cmp(e, current.element) > 0 {
          current := current.right;
        } else {
          break;
        }
      }
    }

    /** Delete as the source is written: the locating loop steps left on both
        "less" and "greater", and a found node without left child is relinked
        into the parent's right link. */
    method Delete(e: E) returns (deleted: bool)
      modifies this
      ensures deleted == OnLeftSpine(old(root), e, cmp)
      ensures root == DeleteAsWritten(old(root), e, cmp)
      ensures size == old(size) - (if deleted then 1 else 0)
      ensures !deleted ==> root == old(root)
      ensures old(Valid()) && deleted && !DeleteHitsDefect(old(root), e, cmp) ==>
        Valid() && Elems() == old(Elems()) - {e}
    {
      if Valid() && OnLeftSpine(root, e, cmp) && !DeleteHitsDefect(root, e, cmp) {
        DeleteAgreesOffDefect(root, e, cmp);
      }
      // the frames from the root down to `parent`, all steps to the left
      var ctx: seq<Frame<E>> := [];
      var current := root;
      while current.Node?
        invariant unchanged(this)
        invariant Plug(ctx, current) == root
        invariant forall i :: 0 <= i < |ctx| ==> ctx[i].WentLeft?
        invariant OnLeftSpine(root, e, cmp) == OnLeftSpine(current, e, cmp)
        invariant DeleteAsWritten(root, e, cmp) ==
          if ctx == [] then DeleteAsWritten(current, e, cmp)
          else Plug(ctx[..|ctx| - 1], DeleteBelow(Fill(ctx[|ctx| - 1], current), e, cmp))
        decreases current
      {
        if cmp(e, current.element) == 0 {
          break;
        }
        // both the "less" and the "greater" branch move to the left child
        var f := WentLeft(current.element, current.right);
        PlugStep(ctx, f, current.left);
        if ctx != [] {
          var pre, g := ctx[..|ctx| - 1], ctx[|ctx| - 1];
          assert ctx == pre + [g];
          PlugStep(pre, g, DeleteBelow(current, e, cmp));
        }
        ctx := ctx + [f];
        current := current.left;
      }
      if current.Nil? {
        DeleteMissChangesNothing(root, e, cmp);
        return false;
      }
      var pre: seq<Frame<E>> := if ctx == [] then [] else ctx[..|ctx| - 1];
      if current.left.Nil? {
        // Case 1: no left child
        if ctx == [] {
          root := current.right;
        } else {
          var parent := ctx[|ctx| - 1];
          var asLeft := Plug(pre, Node(current.right, parent.element, parent.right));
          var asRight := Plug(pre, Node(current, parent.element, current.right));
          var relinked;
          if cmp(e, current.element) < 0 {
            relinked := asLeft;
          } else {
            relinked := asRight;
          }
          root := relinked;
        }
      } else {
        // Case 2: splice out the rightmost node of the left subtree
        var ctx2: seq<Frame<E>> := [];
        var rightMost := current.left;
        while rightMost.right.Node?
          invariant unchanged(this)
          invariant rightMost.Node?
          invariant RemoveMax(current.left) ==
            (Plug(ctx2, RemoveMax(rightMost).0), RemoveMax(rightMost).1)
          decreases rightMost
        {
          var f := WentRight(rightMost.left, rightMost.element);
          PlugStep(ctx2, f, RemoveMax(rightMost.right).0);
          ctx2 := ctx2 + [f];
          rightMost := rightMost.right;
        }
        var promoted := Node(Plug(ctx2, rightMost.left), rightMost.element, current.right);
        assert promoted == Promote(current);
        if ctx != [] {
          assert ctx == pre + [ctx[|ctx| - 1]];
          PlugStep(pre, ctx[|ctx| - 1], promoted);
        }
        root := Plug(ctx, promoted);
      }
      size := size - 1;
      return true;
    }

    method GetSize() returns (s: int)
      ensures s == size
      ensures Valid() ==> s == |Elems()|
    {
      if Valid() { OrderedCountIsCardinality(root, cmp); }
      return size;
    }

    method Clear()
      modifies this
      ensures root == Nil && size == 0
      ensures old(Valid()) ==> Valid() && Elems() == {}
    {
      root := Nil;
      size := 0;
    }
  }

  /** The iterator's snapshot of the in-order list and its cursor. */
  class InorderIterator<E(!new)> {
    const tree: BST<E>
    var list: seq<E>
    var current: nat

    constructor(tree: BST<E>)
      ensures this.tree == tree && current == 0
      ensures list == Inorder(tree.root)
      ensures tree.Valid() ==> Ascending(list, tree.cmp) && |list| == tree.size
    {
      this.tree := tree;
      list := Inorder(tree.root);
      current := 0;
      new;
      if tree.Valid() {
        InorderOfValid(tree.root, tree.size, tree.cmp);
      }
    }

    method HasNext() returns (more: bool)
      ensures more <==> current < |list|
    {
      return current < |list|;
    }

    /** `list.get(current++)`: the cursor moves on even when the read past
        the end throws. */
    method Next() returns (r: Result<E, IndexError>)
      modifies this
      ensures list == old(list) && current == old(current) + 1
      ensures old(current) < |list| ==> r == Ok(list[old(current)])
      ensures old(current) >= |list| ==> r == Err(IndexOutOfBounds)
    {
      if current < |list| {
        r := Ok(list[current]);
      } else {
        r := Err(IndexOutOfBounds);
      }
      current := current + 1;
    }

    /** Deletes the element under the cursor and rebuilds the snapshot; with
        the cursor at the end, reading the element throws before anything
        changes. */
    method Remove() returns (r: Result<(), IndexError>)
      modifies this, tree
      ensures old(current) >= |old(list)| ==> r == Err(IndexOutOfBounds) && unchanged(this, tree)
      ensures old(current) < |old(list)| ==>
        && r == Ok(())
        && tree.root == DeleteAsWritten(old(tree.root), old(list[current]), tree.cmp)
        && list == Inorder(tree.root) && current == old(current)
        && tree.size ==
          old(tree.size) - (if OnLeftSpine(old(tree.root), old(list[current]), tree.cmp) then 1 else 0)
      ensures
        && old(current) < |old(list)|
        && old(tree.Valid())
        && OnLeftSpine(old(tree.root), old(list[current]), tree.cmp)
        && !DeleteHitsDefect(old(tree.root), old(list[current]), tree.cmp)
        ==> tree.Valid() && tree.Elems() == old(tree.Elems()) - {old(list[current])}
    {
      if current >= |list| {
        return Err(IndexOutOfBounds);
      }
      var _ := tree.Delete(list[current]);
      list := Inorder(tree.root);
      r := Ok(());
    }
  }
}
