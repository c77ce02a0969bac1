/** The `SplayTree<T>` of COIS2020A3/COIS2020A3/Program.cs, on heap-allocated
    nodes. The tree's items are integers (the program instantiates
    `SplayTree<int>`), so `default(T)` is 0 and `CompareTo` is the integer
    order. Besides `root`, the tree keeps `previousRoot` for `Undo`; both
    point into one graph of nodes that may share subtrees. */
module SplayTrees {
  import opened SplayShapes
  import opened SplayGraph

  /** How an operation ends: normally, or with the
      `InvalidOperationException` the source throws. */
  datatype Outcome = Done | InvalidOperation

  class SplayTree {
    var root: Node?
    var previousRoot: Node?
    /** The nodes reachable from `root` or `previousRoot`. */
    ghost var Repr: set<Node>
    /** A rank for every node, dropping along every link: the links have no
        cycle. */
    ghost var rank: map<Node, nat>

    /** The links of the tree's nodes. */
    ghost var links: Graph

    /** `links` records the nodes' links as they are in the heap. */
    ghost predicate Coupled()
      reads this, Repr
    {
      links.Keys == Repr && Mirrors(links)
    }

    /** The links are acyclic and both roots are tree nodes. */
    ghost predicate Shaped()
      reads this
    {
      && Ranked(links, rank)
      && (root != null ==> root in links)
      && (previousRoot != null ==> previousRoot in links)
    }

    /** `Shaped` and `Coupled`: what walking down from the root needs. */
    ghost predicate Linked()
      reads this, Repr
    {
      Shaped() && Coupled()
    }

    /** The tree invariant: `Repr` is exactly what the two roots reach, and a
        node that is a left child has no other link into it. */
    ghost predicate Valid()
      reads this, Repr
    {
      && Linked()
      && Repr == Reach(links, rank, root) + Reach(links, rank, previousRoot)
      && LeftChildrenUnshared(links)
    }

    /** The tree the links from `root` spell out. */
    ghost function Tree(): (r: Tree)
      reads this
      requires Shaped()
    {
      TreeAt(links, rank, root)
    }

    /** The tree `Undo` would bring back. */
    ghost function PrevTree(): (r: Tree)
      reads this
      requires Shaped()
    {
      TreeAt(links, rank, previousRoot)
    }

    /** A new tree holds one node with `default(T)` and nothing to undo. */
    constructor ()
      ensures Valid() && fresh(Repr)
      ensures root != null && Tree() == Node(Leaf, 0, Leaf)
      ensures previousRoot == null && Unshared(links)
    {
      root := new Node(0);
      previousRoot := null;
      new;
      Plant();
    }

    /** The items on the search path for `item`, from the root down; the last
        one is the top of the stack the source returns. */
    method Access(item: int) returns (path: seq<int>)
      requires Linked()
      ensures path == SearchPath(Tree(), item)
    {
      path := [];
      var current := root;
      while current != null
        invariant current != null ==> current in links
        invariant path + SearchPath(TreeAt(links, rank, current), item) == SearchPath(Tree(), item)
        decreases Height(links, rank, current)
      {
        path := path + [current.item];
        if item == current.item {
          break;
        } else if item < current.item {
          current := current.left;
        } else {
          current := current.right;
        }
      }
    }

    /** Whether the search path ends at `item`. That implies `item` is in the
        tree; the converse holds only while the items are in search order. */
    method Contains(item: int) returns (b: bool)
      requires Linked()
      ensures b <==> root != null && Top(Tree(), item) == item
      ensures b ==> item in Items(Tree())
      ensures IsSearchTree(Tree()) ==> (b <==> item in Items(Tree()))
    {
      var path := Access(item);
      b := |path| > 0 && path[|path| - 1] == item;
      if b {
        FoundIsMember(Tree(), item);
      } else if IsSearchTree(Tree()) && item in Items(Tree()) {
        MemberIsFound(Tree(), item);
      }
    }

    /** Puts `item` in a new node at the root. On an empty tree that node is
        the whole tree and nothing is left to undo. Otherwise the old root is
        saved for `Undo`, and against the top of the search path a smaller
        `item` takes the old root's left subtree and gets the old root as
        right child (the old root's left link is cleared), and a larger or
        equal one does the same on the other side. */
    method Insert(item: int)
      requires Valid()
      modifies this, Repr
      ensures Valid() && fresh(Repr - old(Repr))
      ensures old(root) == null ==> previousRoot == null && Tree() == Node(Leaf, item, Leaf)
      ensures old(root) != null ==>
        && previousRoot == old(root)
        && Tree() == InsertAtRoot(old(Tree()), item)
        && PrevTree() == Detached(old(Tree()), item)
    {
      if root == null {
        root := new Node(item);
        previousRoot := null;
        Plant();
      } else {
        InsertAbove(item);
      }
    }

    /** `Insert` into a tree that has a root. */
    method InsertAbove(item: int)
      requires Valid() && root != null
      modifies this, Repr
      ensures Valid() && fresh(Repr - old(Repr))
      ensures previousRoot == old(root)
      ensures Tree() == InsertAtRoot(old(Tree()), item)
      ensures PrevTree() == Detached(old(Tree()), item)
    {
      ghost var g, rk, t := links, rank, Tree();
      var path := Access(item);
      var toLeft := item < path[|path| - 1];
      assert toLeft == (item < Top(t, item));
      var newNode := Graft(root, item, toLeft, g);
      previousRoot, root := root, newNode;
      Regraft(g, rk, t, item, toLeft);
    }

    /** Sets up the ghost state of a tree that is a single node. */
    ghost method Plant()
      requires root != null && root.left == null && root.right == null && previousRoot == null
      modifies this
      ensures Valid() && Unshared(links) && Repr == {root}
      ensures root == old(root) && previousRoot == null
      ensures Tree() == Node(Leaf, root.item, Leaf)
    {
      Repr, rank, links := {root}, map[root := 0], map[root := Links(null, null)];
      assert TreeAt(links, rank, root) == Node(TreeAt(links, rank, null), root.item, TreeAt(links, rank, null));
      assert SoleLeftParent(links, root, root) && SoleRightParent(links, root, root);
    }

    /** A new node holding `item`, made the parent of `r` as `Hang` says. */
    static method Graft(r: Node, item: int, toLeft: bool, ghost g: Graph) returns (nn: Node)
      requires Mirrors(g) && r in g
      modifies r
      ensures fresh(nn) && nn.item == item && Mirrors(InsertedLinks(g, r, nn, toLeft))
    {
      nn := new Node(item);
      Hang(nn, r, toLeft, g);
    }

    /** Makes `nn` the parent of `r`: with `toLeft`, `nn` takes `r`'s left
        subtree and `r` becomes its right child; otherwise the mirror image.
        The nodes' links then are those `InsertedLinks` describes. */
    static method Hang(nn: Node, r: Node, toLeft: bool, ghost g: Graph)
      requires Mirrors(g) && r in g && nn !in g
      modifies nn, r
      ensures Mirrors(InsertedLinks(g, r, nn, toLeft))
    {
      if toLeft {
        nn.left := r.left;
        nn.right := r;
        r.left := null;
      } else {
        nn.right := r.right;
        nn.left := r;
        r.right := null;
      }
      var g1 := InsertedLinks(g, r, nn, toLeft);
      forall n | n in g1
        ensures g1[n] == Links(n.left, n.right)
      {
        if n != nn && n != r {
          assert n in g;
        }
      }
    }

    /** Re-establishes the ghost state once `root` is a new node linked, as
        `InsertedLinks` says, to the old root `previousRoot` of graph `g`. */
    ghost method Regraft(g: Graph, rk: map<Node, nat>, t: Tree, item: int, toLeft: bool)
      requires Ranked(g, rk) && LeftChildrenUnshared(g)
      requires root != null && previousRoot != null
      requires previousRoot in g && root !in g
      requires t == TreeAt(g, rk, previousRoot) && root.item == item
      requires toLeft == (item < Top(t, item))
      requires Mirrors(InsertedLinks(g, previousRoot, root, toLeft))
      modifies this
      ensures Valid() && Repr <= g.Keys + {root}
      ensures root == old(root) && previousRoot == old(previousRoot)
      ensures Tree() == InsertAtRoot(t, item) && PrevTree() == Detached(t, item)
    {
      var h, r1 := InsertState(g, rk, previousRoot, root, toLeft);
      assert Mirrors(h);
      Repr := h.Keys;
      links := h;
      rank := r1;
    }

    /** Takes out the root when the search path for `item` ends at `item`;
        the item need not be at the root, and the root's item is what goes.
        Peeking at the empty search path of an empty tree throws. With no
        left child the root's right subtree becomes the tree; otherwise the
        left child becomes the root and its right link is overwritten with
        the old root's right subtree. The saved root for `Undo` stays. */
    method Remove(item: int) returns (r: Outcome)
      requires Valid()
      modifies this, Repr
      ensures Valid() && Repr <= old(Repr)
      ensures previousRoot == old(previousRoot)
      ensures old(root) == null ==> r == InvalidOperation && root == null
      ensures old(root) != null ==> r == Done
      ensures old(root) != null && !Found(old(Tree()), item) ==> root == old(root) && Tree() == old(Tree())
      ensures old(root) != null && Found(old(Tree()), item) ==> Tree() == RemoveRoot(old(Tree()))
      ensures old(root) == null || !Found(old(Tree()), item) ==> PrevTree() == old(PrevTree())
    {
      var path := Access(item);
      if |path| == 0 {
        return InvalidOperation;
      }
      if item != path[|path| - 1] {
        return Done;
      }
      RemoveTop(item);
      return Done;
    }

    /** `Remove` once the search path has been found to end at the item. */
    method RemoveTop(item: int)
      requires Valid() && root != null
      modifies this, Repr
      ensures Valid() && Repr <= old(Repr)
      ensures previousRoot == old(previousRoot)
      ensures Tree() == RemoveRoot(old(Tree()))
    {
      ghost var g, t, top := links, Tree(), root;
      assert t == Node(TreeAt(g, rank, root.left), root.item, TreeAt(g, rank, root.right));
      var leftSubtree := root.left;
      var rightSubtree := root.right;
      if leftSubtree != null {
        root := leftSubtree;
        var _ := Access(item);
        Attach(leftSubtree, rightSubtree, g, top);
        Rejoin(g, top, t);
      } else {
        root := rightSubtree;
        Prune();
      }
    }

    /** Sets `l`'s right link to `r`, where `l` and `r` are the children of
        `top` in graph `g`; the nodes' links then are those `RemovedLinks`
        describes. */
    static method Attach(l: Node, r: Node?, ghost g: Graph, ghost top: Node)
      requires Mirrors(g) && top in g && g[top] == Links(l, r) && l in g
      modifies l
      ensures Mirrors(RemovedLinks(g, top))
    {
      l.right := r;
      var g1 := RemovedLinks(g, top);
      forall n | n in g1
        ensures g1[n] == Links(n.left, n.right)
      {
        if n != l {
          assert n in g;
        }
      }
    }

    /** Re-establishes the ghost state once `root`, the left child of `top`
        in graph `g`, has taken over `top`'s right subtree. */
    ghost method Rejoin(g: Graph, top: Node, t: Tree)
      requires Ranked(g, rank) && LeftChildrenUnshared(g)
      requires top in g && g[top].left == root && root != null
      requires previousRoot != null ==> previousRoot in g
      requires t == TreeAt(g, rank, top)
      requires Mirrors(RemovedLinks(g, top))
      modifies this
      ensures Valid() && Repr <= g.Keys
      ensures root == old(root) && previousRoot == old(previousRoot)
      ensures Tree() == RemoveRoot(t)
    {
      var r1 := RemoveGraph(g, rank, top);
      links, rank := RemovedLinks(g, top), r1;
      Prune();
    }

    /** Pops items off `stack` (its last element is the top) while the
        current node `p` exists: an item equal to `p`'s stops; a smaller one
        rotates `p`'s left child up over `p` when there is one, a larger one
        the right child; then `p` becomes the root. Rotating a node with two
        links into it could close a cycle, so the tree must be a forest with
        nothing saved for undo, and `p` its root. */
    method Splay(p: Node?, stack: seq<int>)
      requires Valid() && Unshared(links) && previousRoot == null && p == root
      modifies this, Repr
      ensures Valid() && Unshared(links) && Repr <= old(Repr) && previousRoot == null
      ensures old(root) == null ==> root == null
      ensures old(root) != null ==> root != null && Tree() == SplayLoop(old(Tree()), stack)
    {
      var p, s := p, stack;
      ghost var g, rk, t := links, rank, Tree();
      if p != null {
        TopUnlinked(g, rk, p);
      }
      while |s| > 0 && p != null
        invariant Ranked(g, rk) && Mirrors(g) && Unshared(g) && g.Keys == Repr
        invariant (p == null) == (old(root) == null)
        invariant p != null ==> p in g && Unlinked(g, p) && SplayLoop(TreeAt(g, rk, p), s) == SplayLoop(t, stack)
        modifies Repr
        decreases |s|
      {
        var x := s[|s| - 1];
        s := s[..|s| - 1];
        if x == p.item {
          break;
        }
        p, g, rk := Rotate(p, x, g, rk);
      }
      root := p;
      links, rank := g, rk;
      Prune();
    }

    /** One pass of `Splay`'s loop for a popped item `x` other than `p`'s:
        rotates `p`'s left child up over `p` when `x` is smaller and there is
        one, the right child when `x` is larger and there is one, and returns
        the node now on top. */
    static method Rotate(p: Node, x: int, ghost g: Graph, ghost rk: map<Node, nat>) returns (q: Node, ghost g1: Graph, ghost r1: map<Node, nat>)
      requires Ranked(g, rk) && Mirrors(g) && Unshared(g) && p in g && Unlinked(g, p) && x != p.item
      modifies g.Keys
      ensures Ranked(g1, r1) && Mirrors(g1) && Unshared(g1) && g1.Keys == g.Keys && q in g1 && Unlinked(g1, q)
      ensures TreeAt(g1, r1, q) == SplayStep(TreeAt(g, rk, p), x)
    {
      if x < p.item && p.left != null {
        r1 := RotateRightGraph(g, rk, p);
        g1 := RotatedRight(g, p);
        q := LiftLeft(p, g);
      } else if x > p.item && p.right != null {
        r1 := RotateLeftGraph(g, rk, p);
        g1 := RotatedLeft(g, p);
        q := LiftRight(p, g);
      } else {
        q, g1, r1 := p, g, rk;
      }
    }

    /** Rotates `p`'s left child `q` up: `p` takes `q`'s right subtree as its
        left one and becomes `q`'s right child. */
    static method LiftLeft(p: Node, ghost g: Graph) returns (q: Node)
      requires Mirrors(g) && p in g && p.left != null && p.left in g && p.left != p
      modifies p, p.left
      ensures q == old(p.left) && Mirrors(RotatedRight(g, p))
    {
      q := p.left;
      p.left := q.right;
      q.right := p;
    }

    /** Rotates `p`'s right child `q` up: `p` takes `q`'s left subtree as its
        right one and becomes `q`'s left child. */
    static method LiftRight(p: Node, ghost g: Graph) returns (q: Node)
      requires Mirrors(g) && p in g && p.right != null && p.right in g && p.right != p
      modifies p, p.right
      ensures q == old(p.right) && Mirrors(RotatedLeft(g, p))
    {
      q := p.right;
      p.right := q.left;
      q.left := p;
    }

    /** Brings back the root saved by the last `Insert`; without one it throws.
        Either way nothing is left to undo. */
    method Undo() returns (r: Outcome)
      requires Valid()
      modifies this
      ensures Valid() && Repr <= old(Repr)
      ensures old(previousRoot) == null ==> r == InvalidOperation && unchanged(this)
      ensures old(previousRoot) != null ==>
        && r == Done && root == old(previousRoot) && previousRoot == null
        && Tree() == old(PrevTree())
    {
      if previousRoot == null {
        return InvalidOperation;
      }
      root, previousRoot := previousRoot, null;
      Prune();
      return Done;
    }

    /** Drops from the ghost state the nodes that neither root reaches any
        more, leaving the trees at both roots as they are. */
    ghost method Prune()
      requires Ranked(links, rank) && Mirrors(links) && LeftChildrenUnshared(links)
      requires root != null ==> root in links
      requires previousRoot != null ==> previousRoot in links
      modifies this
      ensures Valid() && Repr <= old(links.Keys)
      ensures root == old(root) && previousRoot == old(previousRoot)
      ensures Tree() == old(Tree()) && PrevTree() == old(PrevTree())
      ensures Unshared(old(links)) ==> Unshared(links)
    {
      var h := Retarget(links, rank, root, previousRoot);
      assert Mirrors(h);
      Repr, links := h.Keys, h;
    }

    /** A copy of the tree at `root` on new nodes, with nothing to undo. An
        empty tree is copied as the single default-valued node a new tree
        starts with, since the copy's root is only replaced when there is a
        node to copy. */
    method Clone() returns (c: SplayTree)
      requires Linked()
      ensures fresh(c) && c.Valid() && Unshared(c.links) && c.Repr !! Repr
      ensures c.previousRoot == null
      ensures root == null ==> c.Tree() == Node(Leaf, 0, Leaf)
      ensures root != null ==> c.Tree() == Tree()
    {
      c := CloneOf(root, links, rank, Repr);
    }

    /** The body of `Clone` for the tree at `original` in the graph `src`,
        whose nodes are all in `used`: a new tree whose root is replaced by
        a copy of that tree when there is one. */
    static method CloneOf(original: Node?, ghost src: Graph, ghost srank: map<Node, nat>, ghost used: set<Node>)
      returns (c: SplayTree)
      requires Ranked(src, srank) && Mirrors(src) && (original != null ==> original in src)
      ensures fresh(c) && c.Valid() && Unshared(c.links) && c.Repr !! used
      ensures c.previousRoot == null
      ensures original == null ==> c.Tree() == Node(Leaf, 0, Leaf)
      ensures original != null ==> c.Tree() == TreeAt(src, srank, original)
    {
      c := new SplayTree();
      assert c.Repr !! used;
      var copy, g, rk := CloneHelper(original, c.root, src, srank, used);
      if original != null {
        c.root := copy;
        c.Adopt(g, rk);
      }
    }

    /** Copies the tree at `original` in the graph `src` onto new nodes,
        none of them in `used`, and returns the copy's top; with no node to
        copy it returns `cloned` as it was. The ghost results are the copy's
        links and ranks. */
    static method CloneHelper(original: Node?, cloned: Node?, ghost src: Graph, ghost srank: map<Node, nat>, ghost used: set<Node>)
      returns (result: Node?, ghost g: Graph, ghost rk: map<Node, nat>)
      requires Ranked(src, srank) && Mirrors(src) && (original != null ==> original in src)
      ensures original == null ==> result == cloned && g == map[]
      ensures original != null ==> result != null
      ensures g.Keys !! used && Mirrors(g)
      ensures CopyOf(g, rk, if original == null then null else result, TreeAt(src, srank, original))
      decreases Height(src, srank, original), 1
    {
      if original == null {
        return cloned, map[], map[];
      }
      var n := new Node(original.item);
      var a, gl, rl := CloneHelper(original.left, n.left, src, srank, used + {n});
      n.left := a;
      result, g, rk := CloneRight(n, original, a, gl, rl, src, srank, used);
    }

    /** The rest of `CloneHelper` once the left subtree is copied under the
        new node `n`: copies the right subtree under `n` and returns `n`. */
    static method CloneRight(n: Node, original: Node, a: Node?, ghost gl: Graph, ghost rl: map<Node, nat>,
                             ghost src: Graph, ghost srank: map<Node, nat>, ghost used: set<Node>)
      returns (result: Node, ghost g: Graph, ghost rk: map<Node, nat>)
      requires Ranked(src, srank) && Mirrors(src) && original in src && n !in src
      requires n.item == original.item && n.left == a && n.right == null && n !in gl && n !in used && gl.Keys !! used
      requires Mirrors(gl) && CopyOf(gl, rl, a, TreeAt(src, srank, original.left))
      modifies n
      ensures result == n && g.Keys !! used && Mirrors(g)
      ensures CopyOf(g, rk, result, TreeAt(src, srank, original))
      decreases Height(src, srank, original), 0
    {
      ghost var tl, tr := TreeAt(src, srank, original.left), TreeAt(src, srank, original.right);
      assert TreeAt(src, srank, original) == Node(tl, original.item, tr);
      var b, gr, rr := CloneHelper(original.right, n.right, src, srank, used + {n} + gl.Keys);
      n.right := b;
      JoinMirrors(gl, gr, n);
      Join(gl, rl, a, tl, gr, rr, b, tr, n);
      result, g, rk := n, Joined(gl, gr, n, a, b), JoinedRank(rl, rr, n, a, b);
    }

    /** Whether `other` is a tree of the same shape holding the same items
        at the same places. Any object that is not a splay tree, `null`
        included, is unequal. */
    function Equals(other: SplayTree?): (b: bool)
      reads this, Repr, other, if other == null then {} else other.Repr
      requires Linked() && (other != null ==> other.Linked())
      ensures b <==> other != null && Tree() == other.Tree()
    {
      other != null && EqualsHelper(root, other.root, links, rank, other.links, other.rank)
    }

    /** Whether the trees at `node1` in `g1` and at `node2` in `g2` are the
        same: both empty, or equal items at the top and equal subtrees on
        each side. */
    static function EqualsHelper(node1: Node?, node2: Node?, ghost g1: Graph, ghost r1: map<Node, nat>, ghost g2: Graph, ghost r2: map<Node, nat>): (b: bool)
      reads g1.Keys, g2.Keys
      requires Ranked(g1, r1) && Mirrors(g1) && (node1 != null ==> node1 in g1)
      requires Ranked(g2, r2) && Mirrors(g2) && (node2 != null ==> node2 in g2)
      ensures b <==> TreeAt(g1, r1, node1) == TreeAt(g2, r2, node2)
      decreases Height(g1, r1, node1)
    {
      if node1 == null && node2 == null then
        true
      else if node1 == null || node2 == null then
        false
      else
        node1.item == node2.item
        && EqualsHelper(node1.left, node2.left, g1, r1, g2, r2)
        && EqualsHelper(node1.right, node2.right, g1, r1, g2, r2)
    }

    /** Takes a copied tree as this tree's ghost state. */
    ghost method Adopt(g: Graph, rk: map<Node, nat>)
      requires root != null && previousRoot == null && Mirrors(g) && Copied(g, rk, root)
      modifies this
      ensures Valid() && Unshared(links) && Repr == g.Keys
      ensures root == old(root) && previousRoot == null
      ensures Tree() == TreeAt(g, rk, root)
    {
      Repr, links, rank := g.Keys, g, rk;
    }
  }

  /** A new tree holds `default(T)`, so it contains 0, and it has nothing
      to undo. */
  method NewTreeFacts() returns (found: bool, undone: Outcome)
    ensures found && undone == InvalidOperation
  {
    var t := new SplayTree();
    found := t.Contains(0);
    undone := t.Undo();
  }

  /** `Undo` leaves nothing to undo: a second `Undo` right after throws. */
  method UndoTwice(t: SplayTree) returns (second: Outcome)
    requires t.Valid()
    modifies t
    ensures second == InvalidOperation
  {
    var _ := t.Undo();
    second := t.Undo();
  }

  /** The clone of a tree with a root is `Equals` to it. */
  method CloneEquals(t: SplayTree) returns (same: bool)
    requires t.Linked() && t.root != null
    ensures same
  {
    var c := t.Clone();
    same := t.Equals(c);
  }

  /** `Equals` is reflexive. */
  lemma EqualsReflexive(t: SplayTree)
    requires t.Linked()
    ensures t.Equals(t)
  {
  }
}
