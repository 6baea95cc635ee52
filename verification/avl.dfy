/** The AVL tree of NavigateX.cpp (`AVLNode` / `AVLTree`, lines 613-835):
    a string-keyed map kept as a height-balanced binary search tree.

    The C++ tree is mutated through raw pointers; here a tree is an immutable
    value and every helper returns the new subtree root, exactly the value the
    C++ helper returns. `height` is the cached height the C++ node stores. */
module Avl {
  import opened Common
  import opened Text

  datatype Tree = Leaf | Node(key: string, value: int, left: Tree, right: Tree, height: nat)

  /** `getHeight`: the cached height, 0 for the empty tree. */
  function Height(t: Tree): nat
  {
    if t.Leaf? then 0 else t.height
  }

  /** `getBalance`: left height minus right height, 0 for the empty tree. */
  function BalanceOf(t: Tree): int
  {
    if t.Leaf? then 0 else Height(t.left) - Height(t.right)
  }

  // ---------------------------------------------------------------------
  // Abstraction and invariants
  // ---------------------------------------------------------------------

  /** The key/value association a tree stores (in-order, later entries win). */
  ghost function Contents(t: Tree): map<string, int>
  {
    match t
    case Leaf => map[]
    case Node(key, value, l, r, _) => Contents(l) + map[key := value] + Contents(r)
  }

  /** Strict binary-search-tree ordering under `std::string` comparison. */
  ghost predicate Ordered(t: Tree)
  {
    match t
    case Leaf => true
    case Node(key, _, l, r, _) =>
      && Ordered(l) && Ordered(r)
      && (forall x :: x in Contents(l) ==> Less(x, key))
      && (forall x :: x in Contents(r) ==> Less(key, x))
  }

  /** Every cached height is 1 + the larger cached height of the children. */
  ghost predicate HeightsCached(t: Tree)
  {
    match t
    case Leaf => true
    case Node(_, _, l, r, h) => HeightsCached(l) && HeightsCached(r) && h == 1 + Max(Height(l), Height(r))
  }

  /** Every balance factor lies in [-1, 1]. */
  ghost predicate Balanced(t: Tree)
  {
    match t
    case Leaf => true
    case Node(_, _, l, r, _) => Balanced(l) && Balanced(r) && -1 <= Height(l) - Height(r) <= 1
  }

  /** The class invariant of `AVLTree`. */
  ghost predicate IsAvl(t: Tree)
  {
    Ordered(t) && HeightsCached(t) && Balanced(t)
  }

  /** The tree with every value replaced by 0: keys, links and cached heights only. */
  function Shape(t: Tree): (s: Tree)
    ensures Height(s) == Height(t)
  {
    match t
    case Leaf => Leaf
    case Node(key, _, l, r, h) => Node(key, 0, Shape(l), Shape(r), h)
  }

  // ---------------------------------------------------------------------
  // Rotations (NavigateX.cpp:635-659)
  // ---------------------------------------------------------------------

  /** `rightRotate(y)`: the left child becomes the root; only the two moved
      nodes get their heights recomputed. */
  function RotateRight(y: Tree): (x: Tree)
    requires y.Node? && y.left.Node?
    ensures x.Node?
    ensures Inorder(x) == Inorder(y)
    ensures Contents(x) == Contents(y)
  {
    var x := y.left;
    var y' := Node(y.key, y.value, x.right, y.right, 1 + Max(Height(x.right), Height(y.right)));
    Node(x.key, x.value, x.left, y', 1 + Max(Height(x.left), Height(y')))
  }

  /** `leftRotate(x)`: the right child becomes the root. */
  function RotateLeft(x: Tree): (y: Tree)
    requires x.Node? && x.right.Node?
    ensures y.Node?
    ensures Inorder(y) == Inorder(x)
    ensures Contents(y) == Contents(x)
  {
    var y := x.right;
    var x' := Node(x.key, x.value, x.left, y.left, 1 + Max(Height(x.left), Height(y.left)));
    Node(y.key, y.value, x', y.right, 1 + Max(Height(x'), Height(y.right)))
  }

  lemma RotateRightOrdered(y: Tree)
    requires y.Node? && y.left.Node? && Ordered(y)
    ensures Ordered(RotateRight(y))
  {
    var x := y.left;
    assert x.key in Contents(x);
    forall c | c in Contents(y.right)
      ensures Less(x.key, c)
    {
      LessTransitive(x.key, y.key, c);
    }
  }

  lemma RotateLeftOrdered(x: Tree)
    requires x.Node? && x.right.Node? && Ordered(x)
    ensures Ordered(RotateLeft(x))
  {
    var y := x.right;
    assert y.key in Contents(y);
    forall a | a in Contents(x.left)
      ensures Less(a, y.key)
    {
      LessTransitive(a, x.key, y.key);
    }
  }

  /** Replacing a child by an ordered subtree with the same contents keeps the
      tree ordered; this is what the double rotations rely on. */
  lemma ReplaceChildOrdered(n: Tree, l: Tree, r: Tree)
    requires n.Node? && Ordered(n) && Ordered(l) && Ordered(r)
    requires Contents(l) == Contents(n.left) && Contents(r) == Contents(n.right)
    ensures Ordered(n.(left := l, right := r))
  {
  }

  /** A single right rotation repairs a node whose left side is two levels
      taller when the left child does not lean right. */
  lemma RotateRightRepairs(n: Tree)
    requires n.Node? && n.left.Node?
    requires HeightsCached(n) && Balanced(n.left) && Balanced(n.right)
    requires Height(n.left) == Height(n.right) + 2 && BalanceOf(n.left) >= 0
    ensures HeightsCached(RotateRight(n)) && Balanced(RotateRight(n))
    ensures Height(RotateRight(n)) == Height(n.right) + (if BalanceOf(n.left) == 0 then 3 else 2)
  {
  }

  /** A left-right double rotation repairs a node whose left side is two
      levels taller when the left child leans right. */
  lemma DoubleRightRepairs(n: Tree)
    requires n.Node? && n.left.Node?
    requires HeightsCached(n) && Balanced(n.left) && Balanced(n.right)
    requires Height(n.left) == Height(n.right) + 2 && BalanceOf(n.left) < 0
    ensures n.left.right.Node?
    ensures HeightsCached(RotateRight(n.(left := RotateLeft(n.left))))
    ensures Balanced(RotateRight(n.(left := RotateLeft(n.left))))
    ensures Height(RotateRight(n.(left := RotateLeft(n.left)))) == Height(n.right) + 2
  {
    var h := Height(n.right);
    var x := n.left;
    var z := x.right;
    assert HeightsCached(x) && Balanced(x);
    assert HeightsCached(z) && Balanced(z);
    assert Height(x.left) == h && Height(z) == h + 1;
    assert h - 1 <= Height(z.left) <= h && h - 1 <= Height(z.right) <= h;
    var a := Node(x.key, x.value, x.left, z.left, 1 + Max(Height(x.left), Height(z.left)));
    var b := Node(n.key, n.value, z.right, n.right, 1 + Max(Height(z.right), Height(n.right)));
    assert RotateLeft(x) == Node(z.key, z.value, a, z.right, 1 + Max(Height(a), Height(z.right)));
    assert RotateRight(n.(left := RotateLeft(x))) == Node(z.key, z.value, a, b, 1 + Max(Height(a), Height(b)));
    assert HeightsCached(a) && Balanced(a) && Height(a) == h + 1;
    assert HeightsCached(b) && Balanced(b) && Height(b) == h + 1;
  }

  lemma RotateLeftRepairs(n: Tree)
    requires n.Node? && n.right.Node?
    requires HeightsCached(n) && Balanced(n.left) && Balanced(n.right)
    requires Height(n.right) == Height(n.left) + 2 && BalanceOf(n.right) <= 0
    ensures HeightsCached(RotateLeft(n)) && Balanced(RotateLeft(n))
    ensures Height(RotateLeft(n)) == Height(n.left) + (if BalanceOf(n.right) == 0 then 3 else 2)
  {
  }

  lemma DoubleLeftRepairs(n: Tree)
    requires n.Node? && n.right.Node?
    requires HeightsCached(n) && Balanced(n.left) && Balanced(n.right)
    requires Height(n.right) == Height(n.left) + 2 && BalanceOf(n.right) > 0
    ensures n.right.left.Node?
    ensures HeightsCached(RotateLeft(n.(right := RotateRight(n.right))))
    ensures Balanced(RotateLeft(n.(right := RotateRight(n.right))))
    ensures Height(RotateLeft(n.(right := RotateRight(n.right)))) == Height(n.left) + 2
  {
    var h := Height(n.left);
    var y := n.right;
    var z := y.left;
    assert HeightsCached(y) && Balanced(y);
    assert HeightsCached(z) && Balanced(z);
    assert Height(y.right) == h && Height(z) == h + 1;
    assert h - 1 <= Height(z.left) <= h && h - 1 <= Height(z.right) <= h;
    var a := Node(n.key, n.value, n.left, z.left, 1 + Max(Height(n.left), Height(z.left)));
    var b := Node(y.key, y.value, z.right, y.right, 1 + Max(Height(z.right), Height(y.right)));
    assert RotateRight(y) == Node(z.key, z.value, z.left, b, 1 + Max(Height(z.left), Height(b)));
    assert RotateLeft(n.(right := RotateRight(y))) == Node(z.key, z.value, a, b, 1 + Max(Height(a), Height(b)));
    assert HeightsCached(a) && Balanced(a) && Height(a) == h + 1;
    assert HeightsCached(b) && Balanced(b) && Height(b) == h + 1;
  }

  // ---------------------------------------------------------------------
  // Insertion (NavigateX.cpp:661-697)
  // ---------------------------------------------------------------------

  /** The grandchild a double rotation dereferences exists. */
  ghost predicate InsertRotatable(n: Tree, k: string)
    requires n.Node?
  {
    && (BalanceOf(n) > 1 && Less(n.left.key, k) ==> n.left.right.Node?)
    && (BalanceOf(n) < -1 && Less(k, n.right.key) ==> n.right.left.Node?)
  }

  /** Rebalancing step of `insertHelper` (lines 678-696): the rotation case is
      chosen by comparing the inserted key with the child's key. */
  function RebalanceAfterInsert(n: Tree, k: string): (r: Tree)
    requires n.Node? && InsertRotatable(n, k)
    ensures r.Node?
    ensures Inorder(r) == Inorder(n) && Contents(r) == Contents(n)
  {
    var balance := BalanceOf(n);
    if balance > 1 && Less(k, n.left.key) then
      RotateRight(n)
    else if balance < -1 && Less(n.right.key, k) then
      RotateLeft(n)
    else if balance > 1 && Less(n.left.key, k) then
      RotateRight(n.(left := RotateLeft(n.left)))
    else if balance < -1 && Less(k, n.right.key) then
      RotateLeft(n.(right := RotateRight(n.right)))
    else
      n
  }

  /** After an insertion that made the tree one level taller, the new key
      lies on the taller side of the root. */
  ghost predicate GrewToward(t: Tree, r: Tree, k: string)
  {
    Height(r) == Height(t) + 1 && Height(r) > 1 ==>
      (Less(k, r.key) && BalanceOf(r) == 1) || (Less(r.key, k) && BalanceOf(r) == -1)
  }

  ghost predicate InsertPost(t: Tree, k: string, v: int, r: Tree)
  {
    && IsAvl(r)
    && Contents(r) == Contents(t)[k := v]
    && Height(t) <= Height(r) <= Height(t) + 1
    && GrewToward(t, r, k)
  }

  /** `insertHelper`: the AVL invariant is kept, the map gains or overwrites
      `k`, and the height grows by at most one. */
  function InsertHelper(t: Tree, k: string, v: int): (r: Tree)
    requires IsAvl(t)
    ensures IsAvl(r)
    ensures Contents(r) == Contents(t)[k := v]
    ensures Height(t) <= Height(r) <= Height(t) + 1
    ensures GrewToward(t, r, k)
    decreases t, 1
  {
    match t
    case Leaf =>
      InsertedIntoLeaf(k, v);
      Node(k, v, Leaf, Leaf, 1)
    case Node(key, value, l, rt, h) =>
      if Less(k, key) then
        InsertLeft(t, k, v)
      else if Less(key, k) then
        InsertRight(t, k, v)
      else
        LessTotal(k, key);
        UpdatedInPlace(t, v);
        Node(key, v, l, rt, h)
  }

  /** Lines 666-667 and 675-696: insert into the left subtree, recompute the
      node's height, rebalance. */
  function InsertLeft(t: Tree, k: string, v: int): (r: Tree)
    requires IsAvl(t) && t.Node? && Less(k, t.key)
    ensures InsertPost(t, k, v, r)
    decreases t, 0
  {
    var l' := InsertHelper(t.left, k, v);
    InsertedLeft(t, k, v, l');
    RebalanceAfterInsert(Node(t.key, t.value, l', t.right, 1 + Max(Height(l'), Height(t.right))), k)
  }

  /** Lines 668-669 and 675-696: the mirror image for the right subtree. */
  function InsertRight(t: Tree, k: string, v: int): (r: Tree)
    requires IsAvl(t) && t.Node? && Less(t.key, k)
    ensures InsertPost(t, k, v, r)
    decreases t, 0
  {
    var rt' := InsertHelper(t.right, k, v);
    InsertedRight(t, k, v, rt');
    RebalanceAfterInsert(Node(t.key, t.value, t.left, rt', 1 + Max(Height(t.left), Height(rt'))), k)
  }

  /** Lines 662-664: an empty subtree becomes a single leaf of height 1. */
  lemma InsertedIntoLeaf(k: string, v: int)
    ensures InsertPost(Leaf, k, v, Node(k, v, Leaf, Leaf, 1))
  {
    assert Contents(Node(k, v, Leaf, Leaf, 1)) == map[k := v];
  }

  /** Lines 670-672: an existing key gets the new value and nothing else changes. */
  lemma UpdatedInPlace(t: Tree, v: int)
    requires IsAvl(t) && t.Node?
    ensures InsertPost(t, t.key, v, t.(value := v))
  {
    var r := t.(value := v);
    LessIrreflexive(t.key);
    assert t.key !in Contents(t.right);
    assert Contents(r) == Contents(t.left) + map[t.key := v] + Contents(t.right);
    ReplaceMiddle(Contents(t.left), t.key, t.value, v, Contents(t.right));
    assert Ordered(r);
  }

  lemma InsertedLeft(t: Tree, k: string, v: int, l': Tree)
    requires IsAvl(t) && t.Node? && Less(k, t.key)
    requires InsertPost(t.left, k, v, l')
    ensures var n := Node(t.key, t.value, l', t.right, 1 + Max(Height(l'), Height(t.right)));
            InsertRotatable(n, k) && InsertPost(t, k, v, RebalanceAfterInsert(n, k))
  {
    var n := Node(t.key, t.value, l', t.right, 1 + Max(Height(l'), Height(t.right)));
    LessAsymmetric(k, t.key);
    assert k !in Contents(t.right);
    UpdateBeforeUnion(Contents(t.left), map[t.key := t.value], Contents(t.right), k, v);
    assert Ordered(n);
    if BalanceOf(n) > 1 {
      InsertLeftHeavy(n, k);
    } else {
      InsertBalanced(n, k);
    }
  }

  lemma InsertedRight(t: Tree, k: string, v: int, rt': Tree)
    requires IsAvl(t) && t.Node? && Less(t.key, k)
    requires InsertPost(t.right, k, v, rt')
    ensures var n := Node(t.key, t.value, t.left, rt', 1 + Max(Height(t.left), Height(rt')));
            InsertRotatable(n, k) && InsertPost(t, k, v, RebalanceAfterInsert(n, k))
  {
    var n := Node(t.key, t.value, t.left, rt', 1 + Max(Height(t.left), Height(rt')));
    LessAsymmetric(t.key, k);
    assert k !in Contents(t.left);
    UpdateAfterUnion(Contents(t.left), map[t.key := t.value], Contents(t.right), k, v);
    assert Ordered(n);
    if BalanceOf(n) < -1 {
      InsertRightHeavy(n, k);
    } else {
      InsertBalanced(n, k);
    }
  }

  /** No rotation happens at a node whose balance factor is in [-1, 1]. */
  lemma InsertBalanced(n: Tree, k: string)
    requires n.Node? && -1 <= BalanceOf(n) <= 1
    ensures InsertRotatable(n, k) && RebalanceAfterInsert(n, k) == n
  {
  }

  /** An insertion made the left side two levels taller, and the new key sits
      on the taller side of the left child: one of the two left rotations
      applies and restores the height the node had before the insertion. */
  lemma InsertLeftHeavy(n: Tree, k: string)
    requires n.Node? && n.left.Node?
    requires Ordered(n) && HeightsCached(n) && Balanced(n.left) && Balanced(n.right)
    requires Height(n.left) == Height(n.right) + 2
    requires (Less(k, n.left.key) && BalanceOf(n.left) == 1) || (Less(n.left.key, k) && BalanceOf(n.left) == -1)
    ensures InsertRotatable(n, k)
    ensures IsAvl(RebalanceAfterInsert(n, k)) && Height(RebalanceAfterInsert(n, k)) == Height(n.right) + 2
  {
    if Less(k, n.left.key) {
      LessAsymmetric(k, n.left.key);
      RotateRightRepairs(n);
      RotateRightOrdered(n);
      assert RebalanceAfterInsert(n, k) == RotateRight(n);
    } else {
      LessAsymmetric(n.left.key, k);
      DoubleRightRepairs(n);
      RotateLeftOrdered(n.left);
      ReplaceChildOrdered(n, RotateLeft(n.left), n.right);
      RotateRightOrdered(n.(left := RotateLeft(n.left)));
      assert RebalanceAfterInsert(n, k) == RotateRight(n.(left := RotateLeft(n.left)));
    }
  }

  lemma InsertRightHeavy(n: Tree, k: string)
    requires n.Node? && n.right.Node?
    requires Ordered(n) && HeightsCached(n) && Balanced(n.left) && Balanced(n.right)
    requires Height(n.right) == Height(n.left) + 2
    requires (Less(n.right.key, k) && BalanceOf(n.right) == -1) || (Less(k, n.right.key) && BalanceOf(n.right) == 1)
    ensures InsertRotatable(n, k)
    ensures IsAvl(RebalanceAfterInsert(n, k)) && Height(RebalanceAfterInsert(n, k)) == Height(n.left) + 2
  {
    if Less(n.right.key, k) {
      LessAsymmetric(n.right.key, k);
      RotateLeftRepairs(n);
      RotateLeftOrdered(n);
      assert RebalanceAfterInsert(n, k) == RotateLeft(n);
    } else {
      LessAsymmetric(k, n.right.key);
      DoubleLeftRepairs(n);
      RotateRightOrdered(n.right);
      ReplaceChildOrdered(n, n.left, RotateRight(n.right));
      RotateLeftOrdered(n.(right := RotateRight(n.right)));
      assert RebalanceAfterInsert(n, k) == RotateLeft(n.(right := RotateRight(n.right)));
    }
  }

  /** Re-inserting a key that is already present changes only its value: no
      node moves and no cached height changes (lines 670-672). */
  lemma {:induction false} InsertExistingKeepsShape(t: Tree, k: string, v: int)
    requires IsAvl(t) && k in Contents(t)
    ensures Shape(InsertHelper(t, k, v)) == Shape(t)
  {
    match t
    case Node(key, value, l, rt, h) =>
      if Less(k, key) {
        LessAsymmetric(k, key);
        InsertExistingKeepsShape(l, k, v);
      } else if Less(key, k) {
        LessAsymmetric(key, k);
        InsertExistingKeepsShape(rt, k, v);
      }
  }

  // ---------------------------------------------------------------------
  // Deletion (NavigateX.cpp:699-757)
  // ---------------------------------------------------------------------

  /** `minValueNode` (lines 699-705): the leftmost entry, which is the entry
      with the smallest key when the tree is ordered. */
  function MinEntry(t: Tree): (e: (string, int))
    requires t.Node?
    ensures e.0 in Contents(t)
    ensures Ordered(t) ==> Contents(t)[e.0] == e.1
    ensures Ordered(t) ==> forall x :: x in Contents(t) ==> x == e.0 || Less(e.0, x)
    decreases t
  {
    if t.left.Leaf? then
      LessIrreflexive(t.key);
      (t.key, t.value)
    else
      var e := MinEntry(t.left);
      MinEntryBelowRoot(t, e.0);
      e
  }

  lemma MinEntryBelowRoot(t: Tree, m: string)
    requires t.Node? && m in Contents(t.left)
    requires Ordered(t) ==> forall x :: x in Contents(t.left) ==> x == m || Less(m, x)
    ensures Ordered(t) ==> m != t.key && m !in Contents(t.right)
    ensures Ordered(t) ==> forall x :: x in Contents(t) ==> x == m || Less(m, x)
  {
    if Ordered(t) {
      LessAsymmetric(m, t.key);
      forall x | x in Contents(t.right)
        ensures Less(m, x)
      {
        LessTransitive(m, t.key, x);
      }
    }
  }

  /** Rebalancing step of `deleteHelper` (lines 738-756): the rotation case is
      chosen by the balance factor of the taller child. */
  function RebalanceAfterDelete(n: Tree): (r: Tree)
    requires n.Node?
    ensures r.Node?
    ensures Inorder(r) == Inorder(n) && Contents(r) == Contents(n)
  {
    var balance := BalanceOf(n);
    if balance > 1 && BalanceOf(n.left) >= 0 then
      RotateRight(n)
    else if balance > 1 && BalanceOf(n.left) < 0 then
      RotateRight(n.(left := RotateLeft(n.left)))
    else if balance < -1 && BalanceOf(n.right) <= 0 then
      RotateLeft(n)
    else if balance < -1 && BalanceOf(n.right) > 0 then
      RotateLeft(n.(right := RotateRight(n.right)))
    else
      n
  }

  /** Lines 733-756: an emptied subtree is returned as is; otherwise the
      node's height is recomputed and the node is rebalanced. */
  function FixUp(n: Tree): (r: Tree)
    ensures n.Leaf? <==> r.Leaf?
    ensures Contents(r) == Contents(n)
  {
    if n.Leaf? then Leaf
    else RebalanceAfterDelete(n.(height := 1 + Max(Height(n.left), Height(n.right))))
  }

  ghost predicate DeletePost(t: Tree, k: string, r: Tree)
  {
    && IsAvl(r)
    && Contents(r) == Contents(t) - {k}
    && Height(t) - 1 <= Height(r) <= Height(t)
  }

  /** `deleteHelper`: the AVL invariant is kept, `k` leaves the map, and the
      height shrinks by at most one. */
  function DeleteHelper(t: Tree, k: string): (r: Tree)
    requires IsAvl(t)
    ensures IsAvl(r)
    ensures Contents(r) == Contents(t) - {k}
    ensures Height(t) - 1 <= Height(r) <= Height(t)
    decreases t, 1
  {
    match t
    case Leaf => Leaf
    case Node(key, value, l, rt, h) =>
      if Less(k, key) then
        DeleteLeft(t, k)
      else if Less(key, k) then
        DeleteRight(t, k)
      else
        LessTotal(k, key);
        DeleteRoot(t)
  }

  /** Lines 710-711 and 733-756: delete from the left subtree, then fix up. */
  function DeleteLeft(t: Tree, k: string): (r: Tree)
    requires IsAvl(t) && t.Node? && Less(k, t.key)
    ensures DeletePost(t, k, r)
    decreases t, 0
  {
    var l' := DeleteHelper(t.left, k);
    DeletedLeft(t, k, l');
    FixUp(Node(t.key, t.value, l', t.right, t.height))
  }

  /** Lines 712-713 and 733-756: delete from the right subtree, then fix up. */
  function DeleteRight(t: Tree, k: string): (r: Tree)
    requires IsAvl(t) && t.Node? && Less(t.key, k)
    ensures DeletePost(t, k, r)
    decreases t, 0
  {
    var rt' := DeleteHelper(t.right, k);
    DeletedRight(t, k, rt');
    FixUp(Node(t.key, t.value, t.left, rt', t.height))
  }

  /** Lines 714-756: the node holding the key goes. With at most one child the
      node is replaced by that child; with two children it takes the key and
      value of its in-order successor, which is then deleted from the right
      subtree. */
  function DeleteRoot(t: Tree): (r: Tree)
    requires IsAvl(t) && t.Node?
    ensures DeletePost(t, t.key, r)
    decreases t, 0
  {
    if t.left.Leaf? || t.right.Leaf? then
      var child := if t.left.Node? then t.left else t.right;
      DeletedSingle(t, child);
      FixUp(child)
    else
      var m := MinEntry(t.right);
      var rt' := DeleteHelper(t.right, m.0);
      DeletedBySuccessor(t, m, rt');
      FixUp(Node(m.0, m.1, t.left, rt', t.height))
  }

  /** The right subtree is two levels taller than the left one after a
      deletion on the left; `FixUp` restores balance. */
  lemma FixUpRightHeavy(n: Tree)
    requires n.Node? && HeightsCached(n) && Ordered(n)
    requires Balanced(n.left) && Balanced(n.right)
    requires Height(n.right) == Height(n.left) + 2
    ensures IsAvl(FixUp(n))
    ensures Height(n.left) + 2 <= Height(FixUp(n)) <= Height(n.left) + 3
  {
    assert n.(height := 1 + Max(Height(n.left), Height(n.right))) == n;
    if BalanceOf(n.right) <= 0 {
      RotateLeftRepairs(n);
      RotateLeftOrdered(n);
    } else {
      DoubleLeftRepairs(n);
      RotateRightOrdered(n.right);
      ReplaceChildOrdered(n, n.left, RotateRight(n.right));
      RotateLeftOrdered(n.(right := RotateRight(n.right)));
    }
  }

  lemma FixUpLeftHeavy(n: Tree)
    requires n.Node? && HeightsCached(n) && Ordered(n)
    requires Balanced(n.left) && Balanced(n.right)
    requires Height(n.left) == Height(n.right) + 2
    ensures IsAvl(FixUp(n))
    ensures Height(n.right) + 2 <= Height(FixUp(n)) <= Height(n.right) + 3
  {
    assert n.(height := 1 + Max(Height(n.left), Height(n.right))) == n;
    if BalanceOf(n.left) >= 0 {
      RotateRightRepairs(n);
      RotateRightOrdered(n);
    } else {
      DoubleRightRepairs(n);
      RotateLeftOrdered(n.left);
      ReplaceChildOrdered(n, RotateLeft(n.left), n.right);
      RotateRightOrdered(n.(left := RotateLeft(n.left)));
    }
  }

  /** A tree that already satisfies the invariant is left as it is. */
  lemma FixUpValid(n: Tree)
    requires IsAvl(n)
    ensures FixUp(n) == n
  {
  }

  lemma DeletedLeft(t: Tree, k: string, l': Tree)
    requires IsAvl(t) && t.Node? && Less(k, t.key)
    requires DeletePost(t.left, k, l')
    ensures DeletePost(t, k, FixUp(Node(t.key, t.value, l', t.right, t.height)))
  {
    var n := Node(t.key, t.value, l', t.right, 1 + Max(Height(l'), Height(t.right)));
    LessAsymmetric(k, t.key);
    assert k !in Contents(t.right);
    RemoveBeforeUnion(Contents(t.left), map[t.key := t.value], Contents(t.right), k);
    assert Ordered(n);
    assert FixUp(Node(t.key, t.value, l', t.right, t.height)) == FixUp(n);
    if Height(t.right) == Height(l') + 2 {
      FixUpRightHeavy(n);
    } else {
      FixUpValid(n);
    }
  }

  lemma DeletedRight(t: Tree, k: string, rt': Tree)
    requires IsAvl(t) && t.Node? && Less(t.key, k)
    requires DeletePost(t.right, k, rt')
    ensures DeletePost(t, k, FixUp(Node(t.key, t.value, t.left, rt', t.height)))
  {
    var n := Node(t.key, t.value, t.left, rt', 1 + Max(Height(t.left), Height(rt')));
    LessAsymmetric(t.key, k);
    assert k !in Contents(t.left);
    RemoveAfterUnion(Contents(t.left), map[t.key := t.value], Contents(t.right), k);
    assert Ordered(n);
    assert FixUp(Node(t.key, t.value, t.left, rt', t.height)) == FixUp(n);
    if Height(t.left) == Height(rt') + 2 {
      FixUpLeftHeavy(n);
    } else {
      FixUpValid(n);
    }
  }

  /** Lines 715-724: a node with at most one child is replaced by that child. */
  lemma DeletedSingle(t: Tree, child: Tree)
    requires IsAvl(t) && t.Node? && (t.left.Leaf? || t.right.Leaf?)
    requires child == if t.left.Node? then t.left else t.right
    ensures DeletePost(t, t.key, FixUp(child))
  {
    LessIrreflexive(t.key);
    assert t.key !in Contents(child);
    assert Contents(child) == Contents(t) - {t.key};
    FixUpValid(child);
  }

  /** Lines 725-730: a node with two children takes its successor's entry. */
  lemma DeletedBySuccessor(t: Tree, m: (string, int), rt': Tree)
    requires IsAvl(t) && t.Node? && t.left.Node? && t.right.Node?
    requires m == MinEntry(t.right)
    requires DeletePost(t.right, m.0, rt')
    ensures DeletePost(t, t.key, FixUp(Node(m.0, m.1, t.left, rt', t.height)))
  {
    var n := Node(m.0, m.1, t.left, rt', 1 + Max(Height(t.left), Height(rt')));
    SuccessorNode(t, m, rt');
    assert FixUp(Node(m.0, m.1, t.left, rt', t.height)) == FixUp(n);
    if Height(t.left) == Height(rt') + 2 {
      FixUpLeftHeavy(n);
    } else {
      FixUpValid(n);
    }
  }

  /** The node rebuilt around the successor's entry is ordered and stores the
      old association minus the deleted key. */
  lemma SuccessorNode(t: Tree, m: (string, int), rt': Tree)
    requires IsAvl(t) && t.Node? && t.left.Node? && t.right.Node?
    requires m == MinEntry(t.right)
    requires Ordered(rt') && Contents(rt') == Contents(t.right) - {m.0}
    ensures var n := Node(m.0, m.1, t.left, rt', 1 + Max(Height(t.left), Height(rt')));
            Ordered(n) && Contents(n) == Contents(t) - {t.key}
  {
    LessIrreflexive(t.key);
    assert Less(t.key, m.0);
    forall x | x in Contents(t.left)
      ensures Less(x, m.0)
    {
      LessTransitive(x, t.key, m.0);
    }
    LessAsymmetric(t.key, m.0);
    assert m.0 !in Contents(t.left);
    assert t.key !in Contents(t.left) && t.key !in Contents(t.right);
    SuccessorCopy(Contents(t.left), t.key, t.value, m.0, m.1, Contents(t.right));
  }

  // ---------------------------------------------------------------------
  // Search and traversal (NavigateX.cpp:759-777)
  // ---------------------------------------------------------------------

  /** `searchHelper`: descends by key comparison; on an ordered tree it finds
      exactly the stored value of `k`. */
  function Search(t: Tree, k: string): (r: Option<int>)
    ensures Ordered(t) ==> (r.Some? <==> k in Contents(t))
    ensures Ordered(t) && r.Some? ==> Contents(t)[k] == r.value
  {
    match t
    case Leaf => None
    case Node(key, value, l, rt, _) =>
      if key == k then
        LessIrreflexive(k);
        Some(value)
      else if Less(k, key) then
        LessAsymmetric(k, key);
        Search(l, k)
      else
        LessTotal(k, key);
        LessAsymmetric(key, k);
        Search(rt, k)
  }

  /** `inorderHelper`: left subtree, node, right subtree. */
  function Inorder(t: Tree): seq<(string, int)>
  {
    match t
    case Leaf => []
    case Node(key, value, l, r, _) => Inorder(l) + [(key, value)] + Inorder(r)
  }

  function KeysOf(s: seq<(string, int)>): (ks: seq<string>)
    ensures |ks| == |s| && forall i :: 0 <= i < |s| ==> ks[i] == s[i].0
  {
    seq(|s|, i requires 0 <= i < |s| => s[i].0)
  }

  /** `inorderTraversal` lists exactly the stored pairs, in strictly
      ascending key order. */
  lemma InorderListsContents(t: Tree)
    requires Ordered(t)
    ensures StrictlySorted(KeysOf(Inorder(t)))
    ensures forall i :: 0 <= i < |Inorder(t)| ==>
              Inorder(t)[i].0 in Contents(t) && Contents(t)[Inorder(t)[i].0] == Inorder(t)[i].1
    ensures forall x :: x in Contents(t) ==> x in KeysOf(Inorder(t))
  {
    InorderKeys(t);
    InorderValues(t);
    InorderSorted(t);
  }

  lemma {:induction false} InorderKeys(t: Tree)
    ensures forall x :: x in KeysOf(Inorder(t)) <==> x in Contents(t)
  {
    match t
    case Leaf =>
    case Node(key, value, l, r, _) =>
      InorderKeys(l);
      InorderKeys(r);
      assert KeysOf(Inorder(t)) == KeysOf(Inorder(l)) + [key] + KeysOf(Inorder(r));
  }

  lemma {:induction false} InorderValues(t: Tree)
    requires Ordered(t)
    ensures forall i :: 0 <= i < |Inorder(t)| ==>
              Inorder(t)[i].0 in Contents(t) && Contents(t)[Inorder(t)[i].0] == Inorder(t)[i].1
  {
    match t
    case Leaf =>
    case Node(key, value, l, r, _) =>
      InorderValues(l);
      InorderValues(r);
      var sl, sr, s := Inorder(l), Inorder(r), Inorder(t);
      LessIrreflexive(key);
      forall i | 0 <= i < |s|
        ensures s[i].0 in Contents(t) && Contents(t)[s[i].0] == s[i].1
      {
        if i < |sl| {
          assert s[i] == sl[i];
          LessAsymmetric(sl[i].0, key);
        } else if i > |sl| {
          assert s[i] == sr[i - |sl| - 1];
        }
      }
  }

  lemma {:induction false} InorderSorted(t: Tree)
    requires Ordered(t)
    ensures StrictlySorted(KeysOf(Inorder(t)))
  {
    match t
    case Leaf =>
    case Node(key, value, l, r, _) =>
      InorderSorted(l);
      InorderSorted(r);
      InorderKeys(l);
      InorderKeys(r);
      assert KeysOf(Inorder(t)) == KeysOf(Inorder(l)) + [key] + KeysOf(Inorder(r));
      SortedJoin(KeysOf(Inorder(l)), key, KeysOf(Inorder(r)));
  }

  /** Joining two sorted runs around a separating key keeps them sorted. */
  lemma SortedJoin(a: seq<string>, m: string, b: seq<string>)
    requires StrictlySorted(a) && StrictlySorted(b)
    requires forall x :: x in a ==> Less(x, m)
    requires forall y :: y in b ==> Less(m, y)
    ensures StrictlySorted(a + [m] + b)
  {
    var s := a + [m] + b;
    forall i, j | 0 <= i < j < |s|
      ensures Less(s[i], s[j])
    {
      if i < |a| && j > |a| {
        assert s[i] in a && s[j] in b;
        LessTransitive(s[i], m, s[j]);
      } else if i < |a| && j == |a| {
        assert s[i] in a;
      } else if i == |a| {
        assert s[j] in b;
      } else if j < |a| {
        assert s[i] == a[i] && s[j] == a[j];
      } else {
        assert s[i] == b[i - |a| - 1] && s[j] == b[j - |a| - 1];
      }
    }
  }

  // ---------------------------------------------------------------------
  // The public operations of `AVLTree` (NavigateX.cpp:803-822)
  // ---------------------------------------------------------------------

  /** `insert`: the root becomes the result of `insertHelper`. */
  function Insert(root: Tree, k: string, v: int): (r: Tree)
    requires IsAvl(root)
    ensures IsAvl(r)
    ensures Search(r, k) == Some(v)
    ensures forall j :: j != k ==> Search(r, j) == Search(root, j)
  {
    InsertHelper(root, k, v)
  }

  /** `remove`: false and no change when the key is absent; otherwise the key
      is deleted and true is returned. */
  function Remove(root: Tree, k: string): (res: (bool, Tree))
    requires IsAvl(root)
    ensures IsAvl(res.1)
    ensures res.0 <==> Search(root, k).Some?
    ensures !res.0 ==> res.1 == root
    ensures Search(res.1, k) == None
    ensures forall j :: j != k ==> Search(res.1, j) == Search(root, j)
  {
    if Search(root, k).None? then (false, root)
    else (true, DeleteHelper(root, k))
  }
}
