/** graph-05-LCA-BinaryTree.cpp and graph-06-LCA-BST.cpp: the lowest common
    ancestor of two nodes, found by recursive search in a binary tree and by
    descent in a binary search tree.

    A `TreeNode *` is a subtree value here: `Nil` is `nullptr`, and a node
    carries an `id` standing for its address (the binary-tree search compares
    pointers) besides its `val` (the search-tree descent compares values). */
module CommonAncestor {

  datatype Tree = Nil | Node(id: int, val: int, left: Tree, right: Tree)

  /** The node addresses in t. */
  function Ids(t: Tree): set<int> {
    if t.Nil? then {} else {t.id} + Ids(t.left) + Ids(t.right)
  }

  /** The values in t. */
  function Vals(t: Tree): set<int> {
    if t.Nil? then {} else {t.val} + Vals(t.left) + Vals(t.right)
  }

  /** No address occurs twice: what pointers guarantee. */
  predicate Unique(t: Tree) {
    t.Nil? ||
    (&& Unique(t.left) && Unique(t.right)
     && t.id !in Ids(t.left) && t.id !in Ids(t.right)
     && Ids(t.left) !! Ids(t.right))
  }

  /** r is t or lies below it. */
  predicate Subtree(r: Tree, t: Tree) {
    r == t || (t.Node? && (Subtree(r, t.left) || Subtree(r, t.right)))
  }

  /** The node of t with address x, or `Nil`. */
  function Find(t: Tree, x: int): (r: Tree)
    ensures r == Nil || (Subtree(r, t) && r.id == x)
    ensures r != Nil <==> x in Ids(t)
  {
    if t.Nil? then Nil
    else if t.id == x then t
    else if x in Ids(t.left) then Find(t.left, x)
    else Find(t.right, x)
  }

  /** r is the lowest common ancestor of p and q in t: a node of t above
      (or at) both, with neither child subtree holding both. */
  predicate IsLca(t: Tree, r: Tree, p: int, q: int) {
    && r.Node? && Subtree(r, t) && p in Ids(r) && q in Ids(r)
    && !(p in Ids(r.left) && q in Ids(r.left))
    && !(p in Ids(r.right) && q in Ids(r.right))
  }

  // ---------------------------------------------------------------------
  // lowestCommonAncestor

  /** `lowestCommonAncestor(root, p, q)`. The result is `nullptr` exactly
      when neither address occurs in the tree. */
  function Lowest(t: Tree, p: int, q: int): (r: Tree)
    ensures r == Nil || Subtree(r, t)
    ensures r != Nil <==> (p in Ids(t) || q in Ids(t))
    ensures r != Nil ==> (p in Ids(r) || q in Ids(r))
  {
    if t.Nil? || t.id == p || t.id == q then t
    else
      var left := Lowest(t.left, p, q);
      var right := Lowest(t.right, p, q);
      if left != Nil && right != Nil then t
      else if left != Nil then left
      else right
  }

  /** The search does not depend on the order of its two targets. */
  lemma {:induction false} LowestSymmetric(t: Tree, p: int, q: int)
    ensures Lowest(t, p, q) == Lowest(t, q, p)
  {
    if t.Node? && t.id != p && t.id != q {
      LowestSymmetric(t.left, p, q);
      LowestSymmetric(t.right, p, q);
    }
  }

  /** With both addresses in the tree, the search returns their lowest
      common ancestor. */
  lemma {:induction false} LowestIsLca(t: Tree, p: int, q: int)
    requires Unique(t) && p in Ids(t) && q in Ids(t)
    ensures IsLca(t, Lowest(t, p, q), p, q)
  {
    if t.id != p && t.id != q {
      var inLeft := p in Ids(t.left) && q in Ids(t.left);
      var inRight := p in Ids(t.right) && q in Ids(t.right);
      if inLeft {
        LowestIsLca(t.left, p, q);
        assert p !in Ids(t.right) && q !in Ids(t.right);
      } else if inRight {
        LowestIsLca(t.right, p, q);
        assert p !in Ids(t.left) && q !in Ids(t.left);
      }
    }
  }

  /** With only p in the tree, the search returns p's node. */
  lemma {:induction false} LowestOfOne(t: Tree, p: int, q: int)
    requires Unique(t) && p in Ids(t) && q !in Ids(t)
    ensures Lowest(t, p, q) == Find(t, p)
  {
    if t.id != p {
      if p in Ids(t.left) {
        LowestOfOne(t.left, p, q);
        assert p !in Ids(t.right);
      } else {
        LowestOfOne(t.right, p, q);
      }
    }
  }

  /** The lowest common ancestor is unique, so the search returns r exactly
      when r is it. */
  lemma LowestIffLca(t: Tree, r: Tree, p: int, q: int)
    requires Unique(t) && p in Ids(t) && q in Ids(t)
    ensures Lowest(t, p, q) == r <==> IsLca(t, r, p, q)
  {
    LowestIsLca(t, p, q);
    if IsLca(t, r, p, q) {
      LcaUnique(t, Lowest(t, p, q), r, p, q);
    }
  }

  lemma LcaUnique(t: Tree, a: Tree, b: Tree, p: int, q: int)
    requires Unique(t) && IsLca(t, a, p, q) && IsLca(t, b, p, q)
    ensures a == b
  {
    Nested(t, a, b, p);
    if a != b {
      if Subtree(a, b) {
        Below(a, b);
      } else {
        Below(b, a);
      }
    }
  }

  /** A proper subtree of b lies in one of b's child subtrees, and so do its
      addresses. */
  lemma Below(a: Tree, b: Tree)
    requires Subtree(a, b) && a != b
    ensures b.Node?
    ensures (Subtree(a, b.left) && Ids(a) <= Ids(b.left)) || (Subtree(a, b.right) && Ids(a) <= Ids(b.right))
  {
    if Subtree(a, b.left) {
      SubtreeIds(a, b.left);
    } else {
      SubtreeIds(a, b.right);
    }
  }

  /** A node's children are subtrees of whatever it is a subtree of. */
  lemma {:induction false} Children(a: Tree, t: Tree)
    requires Subtree(a, t) && a.Node?
    ensures Subtree(a.left, t) && Subtree(a.right, t)
  {
    if a != t {
      if Subtree(a, t.left) {
        Children(a, t.left);
      } else {
        Children(a, t.right);
      }
    }
  }

  lemma {:induction false} SubtreeVals(a: Tree, b: Tree)
    requires Subtree(a, b)
    ensures Vals(a) <= Vals(b)
  {
    if a != b {
      if Subtree(a, b.left) {
        SubtreeVals(a, b.left);
      } else {
        SubtreeVals(a, b.right);
      }
    }
  }

  lemma {:induction false} SubtreeIds(a: Tree, b: Tree)
    requires Subtree(a, b)
    ensures Ids(a) <= Ids(b)
  {
    if a != b {
      if Subtree(a, b.left) {
        SubtreeIds(a, b.left);
      } else {
        SubtreeIds(a, b.right);
      }
    }
  }

  /** In a tree without repeated addresses, two subtrees sharing an address
      are nested. */
  lemma {:induction false} Nested(t: Tree, a: Tree, b: Tree, x: int)
    requires Unique(t) && Subtree(a, t) && Subtree(b, t) && x in Ids(a) && x in Ids(b)
    ensures Subtree(a, b) || Subtree(b, a)
  {
    if a != t && b != t {
      var aLeft := Subtree(a, t.left);
      var bLeft := Subtree(b, t.left);
      if aLeft {
        SubtreeIds(a, t.left);
      } else {
        SubtreeIds(a, t.right);
      }
      if bLeft {
        SubtreeIds(b, t.left);
      } else {
        SubtreeIds(b, t.right);
      }
      if aLeft == bLeft {
        Nested(if aLeft then t.left else t.right, a, b, x);
      }
    }
  }

  // ---------------------------------------------------------------------
  // lowestCommonAncestorBST

  /** Every value in the left subtree is below the node's, every value in
      the right subtree above it. */
  predicate Bst(t: Tree) {
    t.Nil? ||
    (&& Bst(t.left) && Bst(t.right)
     && (forall v :: v in Vals(t.left) ==> v < t.val)
     && (forall v :: v in Vals(t.right) ==> v > t.val))
  }

  /** Each node is known by its value, as the search-tree descent assumes. */
  predicate Labelled(t: Tree) {
    t.Nil? || (t.id == t.val && Labelled(t.left) && Labelled(t.right))
  }

  /** `min(p, q) <= v <= max(p, q)`. */
  predicate Between(p: int, q: int, v: int) {
    (p <= v <= q) || (q <= v <= p)
  }

  /** `lowestCommonAncestorBST(root, p, q)` on the values p and q: descend
      left while both are smaller, right while both are larger, and stop at
      the first node between them. */
  method LowestInBst(t: Tree, p: int, q: int) returns (r: Tree)
    ensures r == Nil || Subtree(r, t)
    ensures r != Nil ==> Between(p, q, r.val)
    ensures Bst(t) ==> (r == Nil <==> forall v :: v in Vals(t) ==> !Between(p, q, v))
    ensures Bst(t) && Labelled(t) && p in Vals(t) && q in Vals(t) ==> r == Lowest(t, p, q)
  {
    var root := t;
    while root != Nil
      invariant Subtree(root, t)
      invariant Bst(t) ==> Bst(root)
      invariant Bst(t) ==> forall v :: v in Vals(t) && Between(p, q, v) ==> v in Vals(root)
      invariant Bst(t) && Labelled(t) && p in Vals(t) && q in Vals(t) ==>
                  Labelled(root) && p in Vals(root) && q in Vals(root) && Lowest(root, p, q) == Lowest(t, p, q)
      decreases root
    {
      Children(root, t);
      if p < root.val && q < root.val {
        if Bst(t) {
          DescendLeft(root, p, q);
        }
        root := root.left;
      } else if p > root.val && q > root.val {
        if Bst(t) {
          DescendRight(root, p, q);
        }
        root := root.right;
      } else {
        if Bst(t) && Labelled(t) && p in Vals(t) && q in Vals(t) {
          SplitHere(root, p, q);
        }
        SubtreeVals(root, t);
        return root;
      }
    }
    return Nil;
  }

  /** Both targets below the node's value: everything between them, and the
      binary-tree search's answer, is in the left subtree. */
  lemma DescendLeft(t: Tree, p: int, q: int)
    requires t.Node? && Bst(t) && p < t.val && q < t.val
    ensures forall v :: v in Vals(t) && Between(p, q, v) ==> v in Vals(t.left)
    ensures Labelled(t) && p in Vals(t) && q in Vals(t) ==>
              p in Vals(t.left) && q in Vals(t.left) && Lowest(t, p, q) == Lowest(t.left, p, q)
  {
    if Labelled(t) && p in Vals(t) && q in Vals(t) {
      LabelledIds(t.right);
      assert p !in Ids(t.right) && q !in Ids(t.right);
    }
  }

  lemma DescendRight(t: Tree, p: int, q: int)
    requires t.Node? && Bst(t) && p > t.val && q > t.val
    ensures forall v :: v in Vals(t) && Between(p, q, v) ==> v in Vals(t.right)
    ensures Labelled(t) && p in Vals(t) && q in Vals(t) ==>
              p in Vals(t.right) && q in Vals(t.right) && Lowest(t, p, q) == Lowest(t.right, p, q)
  {
    if Labelled(t) && p in Vals(t) && q in Vals(t) {
      LabelledIds(t.left);
      assert p !in Ids(t.left) && q !in Ids(t.left);
    }
  }

  /** The node's value lies between the targets: the binary-tree search
      stops here too. */
  lemma SplitHere(t: Tree, p: int, q: int)
    requires t.Node? && Bst(t) && Labelled(t) && p in Vals(t) && q in Vals(t)
    requires Between(p, q, t.val)
    ensures Lowest(t, p, q) == t
  {
    LabelledIds(t.left);
    LabelledIds(t.right);
    if t.id != p && t.id != q {
      if p < t.val {
        assert p in Ids(t.left) && q in Ids(t.right);
      } else {
        assert q in Ids(t.left) && p in Ids(t.right);
      }
    }
  }

  lemma {:induction false} LabelledIds(t: Tree)
    requires Labelled(t)
    ensures Ids(t) == Vals(t)
  {
    if t.Node? {
      LabelledIds(t.left);
      LabelledIds(t.right);
    }
  }

  /** In a search tree known by its values, no address repeats. */
  lemma {:induction false} BstUnique(t: Tree)
    requires Bst(t) && Labelled(t)
    ensures Unique(t)
  {
    if t.Node? {
      BstUnique(t.left);
      BstUnique(t.right);
      LabelledIds(t.left);
      LabelledIds(t.right);
      forall v | v in Ids(t.left)
        ensures v !in Ids(t.right)
      {
        assert v < t.val;
      }
    }
  }

  /** So on such a tree with both values present the descent returns their
      lowest common ancestor. */
  lemma BstLca(t: Tree, p: int, q: int, r: Tree)
    requires Bst(t) && Labelled(t) && p in Vals(t) && q in Vals(t) && r == Lowest(t, p, q)
    ensures IsLca(t, r, p, q)
  {
    BstUnique(t);
    LabelledIds(t);
    LowestIsLca(t, p, q);
  }
}
