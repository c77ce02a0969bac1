/** The shapes a splay tree's operations produce, as tree values: the subtree
    a node heads, read as a binary tree of items. A tree here is what the
    links of the nodes reachable from one node spell out; nodes reachable
    along two paths appear twice. Nothing here assumes the items are in
    search order. */
module SplayShapes {

  datatype Tree = Leaf | Node(left: Tree, item: int, right: Tree)

  /** The items of a tree, with multiplicity. */
  function Items(t: Tree): (r: multiset<int>)
  {
    if t.Leaf? then multiset{} else Items(t.left) + multiset{t.item} + Items(t.right)
  }

  /** The items of a tree from left to right. */
  function InOrder(t: Tree): (r: seq<int>)
  {
    if t.Leaf? then [] else InOrder(t.left) + [t.item] + InOrder(t.right)
  }

  /** The left-to-right order lists every item once per occurrence. */
  lemma {:induction false} InOrderItems(t: Tree)
    ensures multiset(InOrder(t)) == Items(t)
  {
    if t.Node? {
      InOrderItems(t.left);
      InOrderItems(t.right);
    }
  }

  /** Whether every item is larger than those of its left subtree and smaller
      than those of its right subtree. */
  ghost predicate IsSearchTree(t: Tree)
  {
    t.Node? ==>
      && IsSearchTree(t.left) && IsSearchTree(t.right)
      && (forall y :: y in Items(t.left) ==> y < t.item)
      && (forall y :: y in Items(t.right) ==> t.item < y)
  }

  /** The items `Access` pushes while looking for `x`: from the root, going
      left for a smaller `x` and right for a larger one, up to and including
      the node holding `x` or the last node before a missing child. The last
      element is the top of the stack. */
  function SearchPath(t: Tree, x: int): (path: seq<int>)
    ensures |path| == 0 <==> t.Leaf?
    ensures t.Node? ==> path[0] == t.item
  {
    if t.Leaf? then []
    else if x == t.item then [t.item]
    else if x < t.item then [t.item] + SearchPath(t.left, x)
    else [t.item] + SearchPath(t.right, x)
  }

  /** The top of the stack `Access` returns, for a tree with a root. */
  function Top(t: Tree, x: int): (r: int)
    requires t.Node?
  {
    var path := SearchPath(t, x); path[|path| - 1]
  }

  /** What `Contains` answers: the search path is non-empty and ends at `x`. */
  function Found(t: Tree, x: int): (r: bool)
  {
    t.Node? && Top(t, x) == x
  }

  /** Every item on the search path is an item of the tree. */
  lemma {:induction false} PathItems(t: Tree, x: int)
    ensures forall i :: 0 <= i < |SearchPath(t, x)| ==> SearchPath(t, x)[i] in Items(t)
  {
    if t.Node? && x != t.item {
      var sub := if x < t.item then t.left else t.right;
      PathItems(sub, x);
      assert SearchPath(t, x) == [t.item] + SearchPath(sub, x);
    }
  }

  /** Finding `x` means that `x` is in the tree. */
  lemma FoundIsMember(t: Tree, x: int)
    requires Found(t, x)
    ensures x in Items(t)
  {
    PathItems(t, x);
  }

  /** Below a root not holding `x`, the search goes on in one subtree and
      ends where the search in that subtree ends. */
  lemma TopBelow(t: Tree, x: int)
    requires t.Node? && x != t.item
    requires (if x < t.item then t.left else t.right).Node?
    ensures Top(t, x) == Top(if x < t.item then t.left else t.right, x)
  {
    var sub := if x < t.item then t.left else t.right;
    assert SearchPath(t, x) == [t.item] + SearchPath(sub, x);
  }

  /** In search order, an item other than the root's is on the side the
      comparison with the root picks. */
  lemma SearchSide(t: Tree, x: int)
    requires IsSearchTree(t) && x in Items(t) && x != t.item
    ensures x in Items(if x < t.item then t.left else t.right)
  {
    if x < t.item {
      assert x !in Items(t.right);
    } else {
      assert x !in Items(t.left);
    }
  }

  /** In a tree whose items are in search order, every item is found. */
  lemma {:induction false} MemberIsFound(t: Tree, x: int)
    requires IsSearchTree(t) && x in Items(t)
    ensures Found(t, x)
  {
    if x != t.item {
      var sub := if x < t.item then t.left else t.right;
      SearchSide(t, x);
      MemberIsFound(sub, x);
      TopBelow(t, x);
    }
  }

  /** Without search order an item can be missed: 1 sits right of 2. */
  lemma MemberNotFound()
    ensures var t := Node(Leaf, 2, Node(Leaf, 1, Leaf));
      1 in Items(t) && !Found(t, 1)
  {
    var t := Node(Leaf, 2, Node(Leaf, 1, Leaf));
    assert SearchPath(t, 1) == [2];
  }

  /** The tree `Insert` builds under its new node holding `x`: against the top
      `y` of the search path, a smaller `x` takes the root's left subtree and
      gets the root, without that subtree, as its right child; otherwise `x`
      takes the root's right subtree and gets the root, without it, as its
      left child. */
  function InsertAtRoot(t: Tree, x: int): (r: Tree)
    requires t.Node?
    ensures r.Node? && r.item == x
  {
    if x < Top(t, x) then Node(t.left, x, Node(Leaf, t.item, t.right))
    else Node(Node(t.left, t.item, Leaf), x, t.right)
  }

  /** What is left under the old root after `Insert`: the link it handed to
      the new node is cleared. */
  function Detached(t: Tree, x: int): (r: Tree)
    requires t.Node?
    ensures r.Node? && r.item == t.item
    ensures if x < Top(t, x) then r.left == Leaf && r.right == t.right
            else r.left == t.left && r.right == Leaf
  {
    if x < Top(t, x) then Node(Leaf, t.item, t.right) else Node(t.left, t.item, Leaf)
  }

  /** `Insert` puts `x` right before or right after the old root's item in
      the left-to-right order and changes nothing else. */
  lemma InsertInOrder(t: Tree, x: int)
    requires t.Node?
    ensures InOrder(InsertAtRoot(t, x)) == if x < Top(t, x)
                                           then InOrder(t.left) + [x, t.item] + InOrder(t.right)
                                           else InOrder(t.left) + [t.item, x] + InOrder(t.right)
  {
    var a, b := InOrder(t.left), InOrder(t.right);
    var r := InsertAtRoot(t, x);
    if x < Top(t, x) {
      assert InOrder(r.right) == [t.item] + b;
      assert a + [x] + ([t.item] + b) == a + [x, t.item] + b;
    } else {
      assert InOrder(r.left) == a + [t.item];
      assert a + [t.item] + [x] + b == a + [t.item, x] + b;
    }
  }

  /** `Insert` keeps every item and adds `x`. */
  lemma InsertKeepsItems(t: Tree, x: int)
    requires t.Node?
    ensures Items(InsertAtRoot(t, x)) == Items(t) + multiset{x}
  {
    var r := InsertAtRoot(t, x);
    if x < Top(t, x) {
      assert Items(r.right) == multiset{t.item} + Items(t.right);
    } else {
      assert Items(r.left) == Items(t.left) + multiset{t.item};
    }
  }

  /** Undoing an `Insert` gives back the old root's tree exactly when the link
      `Insert` cleared was already empty. */
  lemma DetachedLosesSubtree(t: Tree, x: int)
    requires t.Node?
    ensures Detached(t, x) == t <==> (if x < Top(t, x) then t.left == Leaf else t.right == Leaf)
    ensures Items(Detached(t, x)) + (if x < Top(t, x) then Items(t.left) else Items(t.right)) == Items(t)
  {
  }

  /** `Insert` compares with the top of the search path but splits at the
      root, so search order is not kept: inserting 3 under 5 whose left child
      is 1 puts 5 left of 3. */
  lemma InsertBreaksSearchOrder()
    ensures var t := Node(Node(Leaf, 1, Leaf), 5, Leaf);
      IsSearchTree(t) && !IsSearchTree(InsertAtRoot(t, 3))
  {
    var t := Node(Node(Leaf, 1, Leaf), 5, Leaf);
    assert SearchPath(t, 3) == [5, 1];
    var r := InsertAtRoot(t, 3);
    assert r == Node(Node(Node(Leaf, 1, Leaf), 5, Leaf), 3, Leaf);
    assert 5 in Items(r.left);
  }

  /** The tree `Remove` leaves when the search path ends at the item: the root
      node goes; with no left child its right subtree takes its place,
      otherwise its left child does, with the root's right subtree as the
      left child's new right subtree. */
  function RemoveRoot(t: Tree): (r: Tree)
    requires t.Node?
    ensures t.left.Leaf? ==> r == t.right
    ensures t.left.Node? ==> r.Node? && r.item == t.left.item && r.left == t.left.left && r.right == t.right
  {
    if t.left.Leaf? then t.right else Node(t.left.left, t.left.item, t.right)
  }

  /** `Remove` drops the root's item and, when the root has a left child, the
      left child's old right subtree. */
  lemma RemoveRootItems(t: Tree)
    requires t.Node?
    ensures Items(RemoveRoot(t)) + multiset{t.item} + (if t.left.Node? then Items(t.left.right) else multiset{})
         == Items(t)
  {
  }

  /** The root `Remove` deletes need not hold the item searched for: in a
      tree whose root 2 has right child 5, removing 5 takes 2 out. */
  lemma RemoveTakesRoot()
    ensures var t := Node(Leaf, 2, Node(Leaf, 5, Leaf));
      Found(t, 5) && RemoveRoot(t) == Node(Leaf, 5, Leaf) && 2 !in Items(RemoveRoot(t))
  {
    var t := Node(Leaf, 2, Node(Leaf, 5, Leaf));
    assert SearchPath(t, 5) == [2, 5];
  }

  /** One step of `Splay` when the item is smaller: the left child rises. */
  function RotateRight(t: Tree): (r: Tree)
    requires t.Node? && t.left.Node?
    ensures InOrder(r) == InOrder(t)
  {
    Node(t.left.left, t.left.item, Node(t.left.right, t.item, t.right))
  }

  /** One step of `Splay` when the item is larger: the right child rises. */
  function RotateLeft(t: Tree): (r: Tree)
    requires t.Node? && t.right.Node?
    ensures InOrder(r) == InOrder(t)
  {
    Node(Node(t.left, t.item, t.right.left), t.right.item, t.right.right)
  }

  /** One rotation of `Splay` for a popped item `x` other than the top's: a
      smaller one rotates the left child up, a larger one the right child,
      and without that child nothing changes. */
  function SplayStep(t: Tree, x: int): (r: Tree)
    requires t.Node? && x != t.item
    ensures r.Node? && InOrder(r) == InOrder(t)
  {
    if x < t.item then (if t.left.Node? then RotateRight(t) else t)
    else (if t.right.Node? then RotateLeft(t) else t)
  }

  /** The tree `Splay` leaves: the items of the stack `s` are popped from its
      end; popping the item at the top node stops, any other item takes one
      `SplayStep`. */
  function SplayLoop(t: Tree, s: seq<int>): (r: Tree)
    requires t.Node?
    ensures r.Node?
    ensures s == [] || s[|s| - 1] == t.item ==> r == t
    decreases |s|
  {
    if s == [] then t
    else
      var x, rest := s[|s| - 1], s[..|s| - 1];
      if x == t.item then t else SplayLoop(SplayStep(t, x), rest)
  }

  /** `Splay` keeps the items in the same left-to-right order. */
  lemma {:induction false} SplayKeepsInOrder(t: Tree, s: seq<int>)
    requires t.Node?
    ensures InOrder(SplayLoop(t, s)) == InOrder(t)
    decreases |s|
  {
    if s != [] {
      var x, rest := s[|s| - 1], s[..|s| - 1];
      if x != t.item {
        SplayKeepsInOrder(SplayStep(t, x), rest);
      }
    }
  }
}
