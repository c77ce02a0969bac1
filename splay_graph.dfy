/** The nodes of a splay tree and the graph their links form. The links of a
    set of nodes are recorded as a map value, so that what an operation does
    to them can be stated and proved without the heap. A rank that drops
    along every link shows the graph has no cycle; nodes may be shared,
    which the tree operations do produce. */
module SplayGraph {
  import opened SplayShapes

  /** A node; its item is fixed when it is made. */
  class Node {
    const item: int
    var left: Node?
    var right: Node?

    constructor (item: int)
      ensures this.item == item && left == null && right == null
    {
      this.item := item;
      left := null;
      right := null;
    }
  }

  datatype Links = Links(left: Node?, right: Node?)

  type Graph = map<Node, Links>

  /** `g` records the links of its nodes as they are in the heap now. */
  ghost predicate Mirrors(g: Graph)
    reads g.Keys
  {
    forall n :: n in g ==> g[n] == Links(n.left, n.right)
  }

  /** A link of `n` that is null or leads into `g`, to a lower rank. */
  ghost predicate Below(g: Graph, rank: map<Node, nat>, n: Node, c: Node?)
    requires n in rank
  {
    c != null ==> c in g && c in rank && rank[c] < rank[n]
  }

  /** Every link of `g` stays inside `g` and drops in rank: `g` is acyclic. */
  ghost predicate Ranked(g: Graph, rank: map<Node, nat>)
  {
    forall n {:trigger g[n]} :: n in g ==> n in rank && Below(g, rank, n, g[n].left) && Below(g, rank, n, g[n].right)
  }

  /** The rank measure for recursion from `n`. */
  ghost function Height(g: Graph, rank: map<Node, nat>, n: Node?): (r: nat)
    requires Ranked(g, rank) && (n != null ==> n in g)
  {
    if n == null then 0 else rank[n] + 1
  }

  /** The nodes reachable from `n`, `n` included. */
  ghost function Reach(g: Graph, rank: map<Node, nat>, n: Node?): (r: set<Node>)
    requires Ranked(g, rank) && (n != null ==> n in g)
    ensures r <= g.Keys
    ensures n == null ==> r == {}
    ensures n != null ==> n in r && forall m :: m in r && m != n ==> rank[m] < rank[n]
    decreases Height(g, rank, n)
  {
    if n == null then {} else {n} + Reach(g, rank, g[n].left) + Reach(g, rank, g[n].right)
  }

  /** The tree the links from `n` spell out. */
  ghost function TreeAt(g: Graph, rank: map<Node, nat>, n: Node?): (r: Tree)
    requires Ranked(g, rank) && (n != null ==> n in g)
    decreases Height(g, rank, n)
  {
    if n == null then Leaf else Node(TreeAt(g, rank, g[n].left), n.item, TreeAt(g, rank, g[n].right))
  }

  /** Whether every link from a node of `s` leads into `s`. */
  ghost predicate Closed(g: Graph, s: set<Node>)
    requires s <= g.Keys
  {
    forall m {:trigger g[m]} :: m in s ==> (g[m].left != null ==> g[m].left in s) && (g[m].right != null ==> g[m].right in s)
  }

  /** The reachable nodes are closed under links. */
  lemma {:induction false} ReachClosed(g: Graph, rank: map<Node, nat>, n: Node?)
    requires Ranked(g, rank) && (n != null ==> n in g)
    ensures Closed(g, Reach(g, rank, n))
    decreases Height(g, rank, n)
  {
    if n != null {
      ReachClosed(g, rank, g[n].left);
      ReachClosed(g, rank, g[n].right);
    }
  }

  /** The links of `g` at the nodes of `s` only. */
  function Restrict(g: Graph, s: set<Node>): (h: Graph)
    ensures h.Keys == s * g.Keys
    ensures forall n :: n in h ==> h[n] == g[n]
  {
    map n | n in s && n in g :: g[n]
  }

  /** A graph agreeing with `g1` on everything reachable from `n` reaches the
      same nodes from `n` and spells out the same tree, whatever its ranks. */
  lemma {:induction false} Agree(g1: Graph, r1: map<Node, nat>, g2: Graph, r2: map<Node, nat>, n: Node?)
    requires Ranked(g1, r1) && Ranked(g2, r2) && (n != null ==> n in g1)
    requires forall m :: m in Reach(g1, r1, n) ==> m in g2 && g2[m] == g1[m]
    ensures n != null ==> n in g2
    ensures Reach(g2, r2, n) == Reach(g1, r1, n) && TreeAt(g2, r2, n) == TreeAt(g1, r1, n)
    decreases Height(g1, r1, n)
  {
    if n != null {
      Agree(g1, r1, g2, r2, g1[n].left);
      Agree(g1, r1, g2, r2, g1[n].right);
    }
  }

  /** Keeping only a closed part of a ranked graph keeps it ranked. */
  lemma RestrictRanked(g: Graph, rank: map<Node, nat>, s: set<Node>)
    requires Ranked(g, rank) && s <= g.Keys && Closed(g, s)
    ensures Ranked(Restrict(g, s), rank)
  {
  }

  /** If `p`'s left child is also linked from `q`, then `q` is `p` and that
      is `p`'s only link to it. */
  ghost predicate SoleLeftParent(g: Graph, p: Node, q: Node)
    requires p in g && q in g
  {
    g[p].left != null && (g[q].left == g[p].left || g[q].right == g[p].left) ==>
      q == p && g[p].right != g[p].left
  }

  /** If `p`'s right child is also linked from `q`, then `q` is `p`. */
  ghost predicate SoleRightParent(g: Graph, p: Node, q: Node)
    requires p in g && q in g
  {
    g[p].right != null && (g[q].left == g[p].right || g[q].right == g[p].right) ==>
      q == p
  }

  /** A node that is some node's left child has no other link into it, and
      that node's two links differ. */
  ghost predicate LeftChildrenUnshared(g: Graph)
  {
    forall p, q {:trigger SoleLeftParent(g, p, q)} :: p in g && q in g ==> SoleLeftParent(g, p, q)
  }

  /** No node has two links into it, and no node has both links to the same
      node: the graph is a forest. */
  ghost predicate Unshared(g: Graph)
  {
    && LeftChildrenUnshared(g)
    && forall p, q {:trigger SoleRightParent(g, p, q)} :: p in g && q in g ==> SoleRightParent(g, p, q)
  }

  /** Whether no node of `g` links to `n`. */
  ghost predicate Unlinked(g: Graph, n: Node)
  {
    forall p :: p in g ==> g[p].left != n && g[p].right != n
  }

  /** A restriction has fewer links, so a left child stays unshared. */
  lemma RestrictUnshared(g: Graph, s: set<Node>)
    ensures LeftChildrenUnshared(g) ==> LeftChildrenUnshared(Restrict(g, s))
    ensures Unshared(g) ==> Unshared(Restrict(g, s))
  {
    var h := Restrict(g, s);
    forall p, q
      ensures p in h && q in h && LeftChildrenUnshared(g) ==> SoleLeftParent(h, p, q)
      ensures p in h && q in h && Unshared(g) ==> SoleRightParent(h, p, q)
    {
      if p in h && q in h {
        assert LeftChildrenUnshared(g) ==> SoleLeftParent(g, p, q);
        assert Unshared(g) ==> SoleRightParent(g, p, q);
      }
    }
  }

  /** The nodes reachable from `x` or `y`, with their links, form a graph
      that is ranked, reaches the same nodes and spells out the same trees. */
  lemma Retarget(g: Graph, rank: map<Node, nat>, x: Node?, y: Node?) returns (h: Graph)
    requires Ranked(g, rank) && (x != null ==> x in g) && (y != null ==> y in g)
    ensures h == Restrict(g, Reach(g, rank, x) + Reach(g, rank, y))
    ensures h.Keys <= g.Keys && forall n :: n in h ==> h[n] == g[n]
    ensures Ranked(h, rank) && (x != null ==> x in h) && (y != null ==> y in h)
    ensures h.Keys == Reach(h, rank, x) + Reach(h, rank, y)
    ensures TreeAt(h, rank, x) == TreeAt(g, rank, x) && TreeAt(h, rank, y) == TreeAt(g, rank, y)
    ensures LeftChildrenUnshared(g) ==> LeftChildrenUnshared(h)
    ensures Unshared(g) ==> Unshared(h)
  {
    var s := Reach(g, rank, x) + Reach(g, rank, y);
    ReachClosed(g, rank, x);
    ReachClosed(g, rank, y);
    RestrictRanked(g, rank, s);
    h := Restrict(g, s);
    Agree(g, rank, h, rank, x);
    Agree(g, rank, h, rank, y);
    RestrictUnshared(g, s);
  }

  /** When every link into `c` comes from `a`, a node ranked below `a` other
      than `c` does not reach `c`. */
  lemma {:induction false} OnlyThrough(g: Graph, rank: map<Node, nat>, n: Node?, c: Node, a: Node)
    requires Ranked(g, rank) && a in g && (n != null ==> n in g)
    requires forall p :: p in g && (g[p].left == c || g[p].right == c) ==> p == a
    requires n != c && (n != null ==> rank[n] < rank[a])
    ensures c !in Reach(g, rank, n)
    decreases Height(g, rank, n)
  {
    if n != null {
      OnlyThrough(g, rank, g[n].left, c, a);
      OnlyThrough(g, rank, g[n].right, c, a);
    }
  }

  /** The links after `Insert` puts `nn` above `root`: with `toLeft`, `nn`
      takes root's left subtree and has root as its right child, and root's
      left link is cleared; otherwise the same on the other side. */
  ghost function InsertedLinks(g: Graph, root: Node, nn: Node, toLeft: bool): (r: Graph)
    requires root in g
  {
    var l := g[root];
    if toLeft then g[root := Links(null, l.right)][nn := Links(l.left, root)]
    else g[root := Links(l.left, null)][nn := Links(root, l.right)]
  }

  /** A node reachable from `n` is ranked no higher than `n`. */
  lemma ReachBelow(g: Graph, rank: map<Node, nat>, n: Node?, m: Node)
    requires Ranked(g, rank) && (n != null ==> n in g)
    requires m in Reach(g, rank, n)
    ensures n != null && rank[m] <= rank[n]
  {
  }

  /** Inserting a new node `nn` above `root` keeps the links acyclic (with `nn`
      ranked just above root), spells out the expected trees at `nn` and at
      root, and, on what `nn` and root reach, keeps left children unshared. */
  lemma InsertGraph(g: Graph, rank: map<Node, nat>, root: Node, nn: Node, toLeft: bool)
    requires Ranked(g, rank) && LeftChildrenUnshared(g) && root in g && nn !in g
    ensures var g1 := InsertedLinks(g, root, nn, toLeft);
      var r1 := rank[nn := rank[root] + 1];
      var t := TreeAt(g, rank, root);
      && Ranked(g1, r1)
      && TreeAt(g1, r1, nn) == (if toLeft then Node(t.left, nn.item, Node(Leaf, t.item, t.right))
                                else Node(Node(t.left, t.item, Leaf), nn.item, t.right))
      && TreeAt(g1, r1, root) == (if toLeft then Node(Leaf, t.item, t.right) else Node(t.left, t.item, Leaf))
      && LeftChildrenUnshared(Restrict(g1, Reach(g1, r1, nn) + Reach(g1, r1, root)))
  {
    var g1 := InsertedLinks(g, root, nn, toLeft);
    var r1 := rank[nn := rank[root] + 1];
    var a, b := g[root].left, g[root].right;
    assert Ranked(g1, r1) by {
      forall n | n in g1
        ensures n in r1 && Below(g1, r1, n, g1[n].left) && Below(g1, r1, n, g1[n].right)
      {
        if n != nn && n != root {
          assert g1[n] == g[n];
        }
      }
    }
    InsertSubtrees(g, rank, g1, r1, root, nn, a);
    InsertSubtrees(g, rank, g1, r1, root, nn, b);
    var t := TreeAt(g, rank, root);
    assert t.left == TreeAt(g, rank, a) && t.right == TreeAt(g, rank, b);
    var tr := TreeAt(g1, r1, root);
    assert tr == Node(TreeAt(g1, r1, g1[root].left), root.item, TreeAt(g1, r1, g1[root].right));
    assert TreeAt(g1, r1, nn) == Node(TreeAt(g1, r1, g1[nn].left), nn.item, TreeAt(g1, r1, g1[nn].right));
    InsertUnshared(g, rank, root, nn, toLeft);
  }

  /** A subtree below `root` is the same before and after the insertion. */
  lemma InsertSubtrees(g: Graph, rank: map<Node, nat>, g1: Graph, r1: map<Node, nat>, root: Node, nn: Node, c: Node?)
    requires Ranked(g, rank) && Ranked(g1, r1) && root in g && nn !in g
    requires c != null ==> c in g && rank[c] < rank[root]
    requires forall n :: n in g && n != root ==> n in g1 && g1[n] == g[n]
    ensures TreeAt(g1, r1, c) == TreeAt(g, rank, c)
  {
    forall m | m in Reach(g, rank, c)
      ensures m in g1 && g1[m] == g[m]
    {
      ReachBelow(g, rank, c, m);
    }
    Agree(g, rank, g1, r1, c);
  }

  /** Every node that the inserted node or the old root reaches, other than
      the inserted node, was already there, ranked no higher than the root. */
  lemma InsertedBelow(g: Graph, rank: map<Node, nat>, root: Node, nn: Node, toLeft: bool, m: Node)
    requires Ranked(g, rank) && root in g && nn !in g
    requires Ranked(InsertedLinks(g, root, nn, toLeft), rank[nn := rank[root] + 1])
    requires var g1 := InsertedLinks(g, root, nn, toLeft);
      var r1 := rank[nn := rank[root] + 1];
      m in Reach(g1, r1, nn) + Reach(g1, r1, root) && m != nn
    ensures m in g && rank[m] <= rank[root]
  {
    var g1 := InsertedLinks(g, root, nn, toLeft);
    var r1 := rank[nn := rank[root] + 1];
    if m in Reach(g1, r1, nn) {
      ReachBelow(g1, r1, nn, m);
    } else {
      ReachBelow(g1, r1, root, m);
    }
  }

  lemma InsertUnshared(g: Graph, rank: map<Node, nat>, root: Node, nn: Node, toLeft: bool)
    requires Ranked(g, rank) && LeftChildrenUnshared(g) && root in g && nn !in g
    requires Ranked(InsertedLinks(g, root, nn, toLeft), rank[nn := rank[root] + 1])
    ensures var g1 := InsertedLinks(g, root, nn, toLeft);
      var r1 := rank[nn := rank[root] + 1];
      LeftChildrenUnshared(Restrict(g1, Reach(g1, r1, nn) + Reach(g1, r1, root)))
  {
    var g1 := InsertedLinks(g, root, nn, toLeft);
    var r1 := rank[nn := rank[root] + 1];
    var h := Restrict(g1, Reach(g1, r1, nn) + Reach(g1, r1, root));
    forall p, q
      ensures p in h && q in h ==> SoleLeftParent(h, p, q)
    {
      if p in h && q in h {
        assert h[p] == g1[p] && h[q] == g1[q];
        if p != nn {
          InsertedBelow(g, rank, root, nn, toLeft, p);
        }
        if q != nn {
          InsertedBelow(g, rank, root, nn, toLeft, q);
        }
        assert p != nn && p != root ==> g1[p] == g[p];
        assert q != nn && q != root ==> g1[q] == g[q];
        assert q in g ==> SoleLeftParent(g, root, q);
        assert p in g ==> SoleLeftParent(g, p, root);
        assert p in g && q in g ==> SoleLeftParent(g, p, q);
        assert SoleLeftParent(g, root, root);
      }
    }
  }

  /** What `Insert` leaves, on the nodes `nn` and `root` reach: the links form
      a ranked graph whose trees at `nn` and at `root` are those of
      `InsertAtRoot` and `Detached`, and left children stay unshared. */
  lemma InsertState(g: Graph, rank: map<Node, nat>, root: Node, nn: Node, toLeft: bool)
      returns (h: Graph, r1: map<Node, nat>)
    requires Ranked(g, rank) && LeftChildrenUnshared(g) && root in g && nn !in g
    requires toLeft == (nn.item < Top(TreeAt(g, rank, root), nn.item))
    ensures Ranked(h, r1) && LeftChildrenUnshared(h) && nn in h && root in h
    ensures h.Keys <= g.Keys + {nn}
    ensures forall n :: n in h ==> h[n] == InsertedLinks(g, root, nn, toLeft)[n]
    ensures h.Keys == Reach(h, r1, nn) + Reach(h, r1, root)
    ensures TreeAt(h, r1, nn) == InsertAtRoot(TreeAt(g, rank, root), nn.item)
    ensures TreeAt(h, r1, root) == Detached(TreeAt(g, rank, root), nn.item)
  {
    var g1 := InsertedLinks(g, root, nn, toLeft);
    r1 := rank[nn := rank[root] + 1];
    InsertGraph(g, rank, root, nn, toLeft);
    h := Retarget(g1, r1, nn, root);
  }

  /** The links after `Remove` takes out `top`, whose left child `l` is not
      null: `l` keeps its left link and takes over `top`'s right one. */
  ghost function RemovedLinks(g: Graph, top: Node): (r: Graph)
    requires top in g && g[top].left != null && g[top].left in g
  {
    var l := g[top].left;
    g[l := Links(g[l].left, g[top].right)]
  }

  /** Every rank doubled, so that a node can be ranked between two others. */
  ghost function Doubled(rank: map<Node, nat>): (r: map<Node, nat>)
    ensures r.Keys == rank.Keys && forall n :: n in r ==> r[n] == 2 * rank[n]
  {
    map n | n in rank :: 2 * rank[n]
  }

  /** Only `top` links to its left child `l`, so `l`'s right subtree and
      `top`'s right subtree never reach `l`. */
  lemma LeftChildOnlyFromTop(g: Graph, rank: map<Node, nat>, top: Node)
    requires Ranked(g, rank) && LeftChildrenUnshared(g) && top in g && g[top].left != null
    ensures var l := g[top].left;
      l !in Reach(g, rank, g[top].right) && l !in Reach(g, rank, g[l].left)
      && (g[top].right != g[l].left || g[top].right == null)
  {
    var l := g[top].left;
    forall p | p in g && (g[p].left == l || g[p].right == l)
      ensures p == top
    {
      assert SoleLeftParent(g, top, p);
    }
    assert SoleLeftParent(g, top, top);
    OnlyThrough(g, rank, g[top].right, l, top);
    OnlyThrough(g, rank, g[l].left, l, top);
    assert SoleLeftParent(g, l, top);
  }

  /** Taking out `top` by hanging its right subtree under its left child
      keeps the links acyclic (with ranks doubled and the left child raised
      above the right subtree) and keeps left children unshared; from the
      left child the links spell out `RemoveRoot` of the tree at `top`. */
  lemma RemoveGraph(g: Graph, rank: map<Node, nat>, top: Node) returns (r1: map<Node, nat>)
    requires Ranked(g, rank) && LeftChildrenUnshared(g) && top in g && g[top].left != null
    ensures Ranked(RemovedLinks(g, top), r1) && LeftChildrenUnshared(RemovedLinks(g, top))
    ensures TreeAt(RemovedLinks(g, top), r1, g[top].left) == RemoveRoot(TreeAt(g, rank, top))
  {
    var l, b := g[top].left, g[top].right;
    var a := g[l].left;
    var g1 := RemovedLinks(g, top);
    var d := Doubled(rank);
    r1 := d[l := if b == null then d[l] else Max(d[l], d[b] + 1)];
    assert Ranked(g1, r1) by {
      forall n | n in g1
        ensures n in r1 && Below(g1, r1, n, g1[n].left) && Below(g1, r1, n, g1[n].right)
      {
        if n != l {
          assert g1[n] == g[n] && r1[n] == 2 * rank[n];
          assert g[n].left == l || g[n].right == l ==> n == top by {
            assert SoleLeftParent(g, top, n);
          }
        } else {
          assert SoleLeftParent(g, top, top);
          assert g1[l] == Links(a, b) && r1[l] >= 2 * rank[l];
          assert b != null ==> b in g && b != l && r1[b] == 2 * rank[b] < r1[l];
          assert a != null ==> a in g && a != l && r1[a] == 2 * rank[a] < r1[l];
        }
      }
    }
    LeftChildOnlyFromTop(g, rank, top);
    RemovedSubtree(g, rank, g1, r1, l, a);
    RemovedSubtree(g, rank, g1, r1, l, b);
    assert TreeAt(g1, r1, l) == Node(TreeAt(g1, r1, a), l.item, TreeAt(g1, r1, b));
    assert TreeAt(g, rank, top).left == TreeAt(g, rank, l) == Node(TreeAt(g, rank, a), l.item, TreeAt(g, rank, g[l].right));
    RemovedUnshared(g, rank, top);
  }

  /** Hanging `top`'s right subtree under its left child leaves no left
      child shared. */
  lemma RemovedUnshared(g: Graph, rank: map<Node, nat>, top: Node)
    requires Ranked(g, rank) && LeftChildrenUnshared(g) && top in g && g[top].left != null
    ensures LeftChildrenUnshared(RemovedLinks(g, top))
  {
    var l, b := g[top].left, g[top].right;
    var g1 := RemovedLinks(g, top);
    forall p, q | p in g1 && q in g1
      ensures SoleLeftParent(g1, p, q)
    {
      assert SoleLeftParent(g, p, q) && SoleLeftParent(g, p, top) && SoleLeftParent(g, top, top);
      assert b != null ==> SoleLeftParent(g, p, top) && SoleLeftParent(g, l, top);
    }
  }

  function Max(x: int, y: int): (r: int)
  {
    if x < y then y else x
  }

  /** A subtree that does not reach `l` is the same after `l`'s right link
      changes. */
  lemma RemovedSubtree(g: Graph, rank: map<Node, nat>, g1: Graph, r1: map<Node, nat>, l: Node, c: Node?)
    requires Ranked(g, rank) && Ranked(g1, r1) && (c != null ==> c in g)
    requires l !in Reach(g, rank, c)
    requires forall n :: n in g && n != l ==> n in g1 && g1[n] == g[n]
    ensures TreeAt(g1, r1, c) == TreeAt(g, rank, c)
  {
    Agree(g, rank, g1, r1, c);
  }

  /** The links of two disjoint graphs side by side, with node `n` on top
      linking to `a` on the left and `b` on the right. */
  ghost function Joined(gl: Graph, gr: Graph, n: Node, a: Node?, b: Node?): (r: Graph)
  {
    (gl + gr)[n := Links(a, b)]
  }

  /** The ranks of two disjoint graphs side by side, with `n` above both. */
  ghost function JoinedRank(rl: map<Node, nat>, rr: map<Node, nat>, n: Node, a: Node?, b: Node?): (r: map<Node, nat>)
    requires a != null ==> a in rl
    requires b != null ==> b in rr
  {
    var ha := if a == null then 0 else rl[a] + 1;
    var hb := if b == null then 0 else rr[b] + 1;
    (rl + rr)[n := Max(ha, hb)]
  }

  /** What a tree of fresh nodes built by copying looks like: ranked by
      `rank` on exactly its nodes, every node reachable from the top `n`,
      nothing linking to `n`, and no node with two links into it. */
  ghost predicate Copied(g: Graph, rank: map<Node, nat>, n: Node?)
  {
    Spans(g, rank, n) && Unshared(g) && (n != null ==> Unlinked(g, n))
  }

  /** `g` is ranked by `rank` on exactly its nodes, and is empty or made of
      what `n` reaches. */
  ghost predicate Spans(g: Graph, rank: map<Node, nat>, n: Node?)
  {
    && rank.Keys == g.Keys && Ranked(g, rank)
    && (n == null ==> g == map[])
    && (n != null ==> n in g && g.Keys == Reach(g, rank, n))
  }

  /** A copied tree at `n` that spells out `t`. */
  ghost predicate CopyOf(g: Graph, rank: map<Node, nat>, n: Node?, t: Tree)
  {
    Copied(g, rank, n) && TreeAt(g, rank, n) == t
  }

  /** Two copied trees on disjoint nodes joined under a new node `n` form a
      copied tree whose shape is the two trees under `n`'s item. */
  lemma Join(gl: Graph, rl: map<Node, nat>, a: Node?, tl: Tree, gr: Graph, rr: map<Node, nat>, b: Node?, tr: Tree, n: Node)
    requires CopyOf(gl, rl, a, tl) && CopyOf(gr, rr, b, tr)
    requires gl.Keys !! gr.Keys && n !in gl && n !in gr
    ensures Joined(gl, gr, n, a, b).Keys == gl.Keys + gr.Keys + {n}
    ensures CopyOf(Joined(gl, gr, n, a, b), JoinedRank(rl, rr, n, a, b), n, Node(tl, n.item, tr))
  {
    JoinReach(gl, rl, a, tl, gr, rr, b, tr, n);
    JoinUnshared(gl, rl, a, gr, rr, b, n);
  }

  /** The joined graph reaches all its nodes from `n` and spells out the two
      trees under `n`. */
  lemma JoinReach(gl: Graph, rl: map<Node, nat>, a: Node?, tl: Tree, gr: Graph, rr: map<Node, nat>, b: Node?, tr: Tree, n: Node)
    requires Spans(gl, rl, a) && Spans(gr, rr, b) && TreeAt(gl, rl, a) == tl && TreeAt(gr, rr, b) == tr
    requires gl.Keys !! gr.Keys && n !in gl && n !in gr
    ensures Ranked(Joined(gl, gr, n, a, b), JoinedRank(rl, rr, n, a, b))
    ensures JoinedRank(rl, rr, n, a, b).Keys == Joined(gl, gr, n, a, b).Keys == gl.Keys + gr.Keys + {n}
    ensures Joined(gl, gr, n, a, b).Keys == Reach(Joined(gl, gr, n, a, b), JoinedRank(rl, rr, n, a, b), n)
    ensures TreeAt(Joined(gl, gr, n, a, b), JoinedRank(rl, rr, n, a, b), n) == Node(tl, n.item, tr)
  {
    var g, rk := Joined(gl, gr, n, a, b), JoinedRank(rl, rr, n, a, b);
    JoinRanked(gl, rl, a, gr, rr, b, n);
    JoinedKeeps(gl, gr, n, a, b);
    JoinSide(gl, rl, a, g, rk);
    JoinSide(gr, rr, b, g, rk);
    JoinTop(g, rk, n, gl.Keys, gr.Keys, tl, tr);
  }

  /** Both sides keep their links in the joined graph. */
  lemma JoinedKeeps(gl: Graph, gr: Graph, n: Node, a: Node?, b: Node?)
    requires gl.Keys !! gr.Keys && n !in gl && n !in gr
    ensures Joined(gl, gr, n, a, b).Keys == gl.Keys + gr.Keys + {n}
    ensures forall m :: m in gl ==> m in Joined(gl, gr, n, a, b) && Joined(gl, gr, n, a, b)[m] == gl[m]
    ensures forall m :: m in gr ==> m in Joined(gl, gr, n, a, b) && Joined(gl, gr, n, a, b)[m] == gr[m]
  {
  }

  /** A node whose two sides reach `sl` and `sr` and spell out `tl` and `tr`
      reaches everything of a graph made of it and the two sides. */
  lemma JoinTop(g: Graph, rank: map<Node, nat>, n: Node, sl: set<Node>, sr: set<Node>, tl: Tree, tr: Tree)
    requires Ranked(g, rank) && n in g && g.Keys == sl + sr + {n}
    requires Reach(g, rank, g[n].left) == sl && Reach(g, rank, g[n].right) == sr
    requires TreeAt(g, rank, g[n].left) == tl && TreeAt(g, rank, g[n].right) == tr
    ensures g.Keys == Reach(g, rank, n) && TreeAt(g, rank, n) == Node(tl, n.item, tr)
  {
  }

  /** No node of the joined graph has two links into it, and none links to
      the new top. */
  lemma JoinUnshared(gl: Graph, rl: map<Node, nat>, a: Node?, gr: Graph, rr: map<Node, nat>, b: Node?, n: Node)
    requires Copied(gl, rl, a) && Copied(gr, rr, b)
    requires gl.Keys !! gr.Keys && n !in gl && n !in gr
    ensures Unshared(Joined(gl, gr, n, a, b)) && Unlinked(Joined(gl, gr, n, a, b), n)
  {
    var g := Joined(gl, gr, n, a, b);
    forall p, q | p in g && q in g
      ensures SoleLeftParent(g, p, q) && SoleRightParent(g, p, q)
    {
      JoinParents(gl, rl, a, gr, rr, b, n, p, q);
    }
    forall p | p in g
      ensures g[p].left != n && g[p].right != n
    {
      if p in gl {
        assert g[p] == gl[p];
      } else if p in gr {
        assert g[p] == gr[p];
      }
    }
  }

  /** The joined graph is ranked by the joined ranks. */
  lemma JoinRanked(gl: Graph, rl: map<Node, nat>, a: Node?, gr: Graph, rr: map<Node, nat>, b: Node?, n: Node)
    requires Spans(gl, rl, a) && Spans(gr, rr, b)
    requires gl.Keys !! gr.Keys && n !in gl && n !in gr
    ensures JoinedRank(rl, rr, n, a, b).Keys == Joined(gl, gr, n, a, b).Keys
    ensures Ranked(Joined(gl, gr, n, a, b), JoinedRank(rl, rr, n, a, b))
  {
    var g, rk := Joined(gl, gr, n, a, b), JoinedRank(rl, rr, n, a, b);
    JoinedKeeps(gl, gr, n, a, b);
    JoinedRankKeeps(rl, rr, n, a, b);
    forall m | m in g
      ensures m in rk && Below(g, rk, m, g[m].left) && Below(g, rk, m, g[m].right)
    {
      if m in gl {
        SideBelow(gl, rl, g, rk, m);
      } else if m in gr {
        SideBelow(gr, rr, g, rk, m);
      }
    }
  }

  /** Both sides keep their ranks in the joined ranks. */
  lemma JoinedRankKeeps(rl: map<Node, nat>, rr: map<Node, nat>, n: Node, a: Node?, b: Node?)
    requires rl.Keys !! rr.Keys && n !in rl && n !in rr
    requires (a != null ==> a in rl) && (b != null ==> b in rr)
    ensures JoinedRank(rl, rr, n, a, b).Keys == rl.Keys + rr.Keys + {n}
    ensures forall m :: m in rl ==> JoinedRank(rl, rr, n, a, b)[m] == rl[m]
    ensures forall m :: m in rr ==> JoinedRank(rl, rr, n, a, b)[m] == rr[m]
  {
  }

  /** A link of one side drops in rank in a graph that keeps that side's
      links and ranks. */
  lemma SideBelow(gs: Graph, rs: map<Node, nat>, g: Graph, rk: map<Node, nat>, m: Node)
    requires Ranked(gs, rs) && m in gs
    requires forall x :: x in gs ==> x in g && g[x] == gs[x]
    requires forall x :: x in rs ==> x in rk && rk[x] == rs[x]
    ensures m in g && m in rk && Below(g, rk, m, g[m].left) && Below(g, rk, m, g[m].right)
  {
  }

  /** One side of a join reaches and spells out the same as on its own. */
  lemma JoinSide(gs: Graph, rs: map<Node, nat>, c: Node?, g: Graph, rk: map<Node, nat>)
    requires Spans(gs, rs, c) && Ranked(g, rk)
    requires forall m :: m in gs ==> m in g && g[m] == gs[m]
    ensures c != null ==> c in g
    ensures Reach(g, rk, c) == gs.Keys && TreeAt(g, rk, c) == TreeAt(gs, rs, c)
  {
    Agree(gs, rs, g, rk, c);
  }

  /** Joining graphs that record the heap under a node whose fields hold
      the new links gives a graph that records the heap. */
  lemma JoinMirrors(gl: Graph, gr: Graph, n: Node)
    requires Mirrors(gl) && Mirrors(gr)
    ensures Mirrors(Joined(gl, gr, n, n.left, n.right))
  {
  }

  /** The pairwise part of `Join`: no node of the joined graph has two links
      into it. */
  lemma JoinParents(gl: Graph, rl: map<Node, nat>, a: Node?, gr: Graph, rr: map<Node, nat>, b: Node?, n: Node, p: Node, q: Node)
    requires Copied(gl, rl, a) && Copied(gr, rr, b)
    requires gl.Keys !! gr.Keys && n !in gl && n !in gr
    requires p in Joined(gl, gr, n, a, b) && q in Joined(gl, gr, n, a, b)
    ensures SoleLeftParent(Joined(gl, gr, n, a, b), p, q) && SoleRightParent(Joined(gl, gr, n, a, b), p, q)
  {
    var g := Joined(gl, gr, n, a, b);
    assert p in gl && q in gl ==> SoleLeftParent(gl, p, q) && SoleRightParent(gl, p, q);
    assert p in gr && q in gr ==> SoleLeftParent(gr, p, q) && SoleRightParent(gr, p, q);
    assert p != n ==> g[p] == if p in gl then gl[p] else gr[p];
    assert q != n ==> g[q] == if q in gl then gl[q] else gr[q];
  }

  /** A node of a graph whose nodes are all reachable from `r` has no link
      into `r`. */
  lemma TopUnlinked(g: Graph, rank: map<Node, nat>, r: Node)
    requires Ranked(g, rank) && r in g && g.Keys == Reach(g, rank, r)
    ensures Unlinked(g, r)
  {
    forall m | m in g
      ensures g[m].left != r && g[m].right != r
    {
      assert m in Reach(g, rank, r);
    }
  }

  /** The links after `Splay` rotates `p`'s left child `q` up: `p` takes
      `q`'s right subtree as its left one and becomes `q`'s right child. */
  ghost function RotatedRight(g: Graph, p: Node): (r: Graph)
    requires p in g && g[p].left != null && g[p].left in g
  {
    var q := g[p].left;
    g[p := Links(g[q].right, g[p].right)][q := Links(g[q].left, p)]
  }

  /** The links after `Splay` rotates `p`'s right child `q` up: `p` takes
      `q`'s left subtree as its right one and becomes `q`'s left child. */
  ghost function RotatedLeft(g: Graph, p: Node): (r: Graph)
    requires p in g && g[p].right != null && g[p].right in g
  {
    var q := g[p].right;
    g[p := Links(g[p].left, g[q].left)][q := Links(p, g[q].right)]
  }

  /** A subtree that reaches neither of the two rotated nodes is the same
      after the rotation. */
  lemma RotatedSubtree(g: Graph, rank: map<Node, nat>, g1: Graph, r1: map<Node, nat>, p: Node, q: Node, x: Node?)
    requires Ranked(g, rank) && Ranked(g1, r1) && (x != null ==> x in g)
    requires p !in Reach(g, rank, x) && q !in Reach(g, rank, x)
    requires forall n :: n in g && n != p && n != q ==> n in g1 && g1[n] == g[n]
    ensures TreeAt(g1, r1, x) == TreeAt(g, rank, x)
  {
    Agree(g, rank, g1, r1, x);
  }

  /** Rotating the left child `q` of the top `p` of a forest up keeps the
      links acyclic (with `q` ranked just above `p`), leaves `q` the top of a
      forest on the same nodes, and spells out the rotated tree at `q`. */
  lemma RotateRightGraph(g: Graph, rank: map<Node, nat>, p: Node) returns (r1: map<Node, nat>)
    requires Ranked(g, rank) && Unshared(g) && p in g && Unlinked(g, p) && g[p].left != null
    ensures g[p].left in g && RotatedRight(g, p).Keys == g.Keys
    ensures Ranked(RotatedRight(g, p), r1) && Unshared(RotatedRight(g, p)) && Unlinked(RotatedRight(g, p), g[p].left)
    ensures TreeAt(g, rank, p).left.Node?
    ensures TreeAt(RotatedRight(g, p), r1, g[p].left) == RotateRight(TreeAt(g, rank, p))
  {
    r1 := rank[g[p].left := rank[p] + 1];
    RotateRightRanked(g, rank, p);
    RotateRightTree(g, rank, p);
    RotateRightUnshared(g, rank, p);
  }

  /** `RotateRightGraph`'s ranks. */
  lemma RotateRightRanked(g: Graph, rank: map<Node, nat>, p: Node)
    requires Ranked(g, rank) && Unshared(g) && p in g && Unlinked(g, p) && g[p].left != null
    ensures g[p].left in g && RotatedRight(g, p).Keys == g.Keys
    ensures Ranked(RotatedRight(g, p), rank[g[p].left := rank[p] + 1])
  {
    var q := g[p].left;
    var g1, r1 := RotatedRight(g, p), rank[q := rank[p] + 1];
    assert SoleLeftParent(g, p, p);
    forall m | m in g1
      ensures m in r1 && Below(g1, r1, m, g1[m].left) && Below(g1, r1, m, g1[m].right)
    {
      assert SoleLeftParent(g, p, m);
    }
  }

  /** `RotateRightGraph`'s tree. */
  lemma RotateRightTree(g: Graph, rank: map<Node, nat>, p: Node)
    requires Ranked(g, rank) && Unshared(g) && p in g && Unlinked(g, p) && g[p].left != null
    requires Ranked(RotatedRight(g, p), rank[g[p].left := rank[p] + 1])
    ensures TreeAt(g, rank, p).left.Node?
    ensures TreeAt(RotatedRight(g, p), rank[g[p].left := rank[p] + 1], g[p].left) == RotateRight(TreeAt(g, rank, p))
  {
    var q := g[p].left;
    var a, b, c := g[q].left, g[q].right, g[p].right;
    var g1, r1 := RotatedRight(g, p), rank[q := rank[p] + 1];
    assert SoleLeftParent(g, p, p);
    RotatedSubtree(g, rank, g1, r1, p, q, a);
    RotatedSubtree(g, rank, g1, r1, p, q, b);
    OnlyThrough(g, rank, c, q, p) by {
      forall m | m in g && (g[m].left == q || g[m].right == q)
        ensures m == p
      {
        assert SoleLeftParent(g, p, m);
      }
    }
    RotatedSubtree(g, rank, g1, r1, p, q, c);
    assert TreeAt(g, rank, p) == Node(Node(TreeAt(g, rank, a), q.item, TreeAt(g, rank, b)), p.item, TreeAt(g, rank, c));
    assert TreeAt(g1, r1, q) == Node(TreeAt(g1, r1, a), q.item, Node(TreeAt(g1, r1, b), p.item, TreeAt(g1, r1, c)));
  }

  /** `RotateRightGraph`'s forest shape. */
  lemma RotateRightUnshared(g: Graph, rank: map<Node, nat>, p: Node)
    requires Ranked(g, rank) && Unshared(g) && p in g && Unlinked(g, p) && g[p].left != null
    ensures g[p].left in g
    ensures Unshared(RotatedRight(g, p)) && Unlinked(RotatedRight(g, p), g[p].left)
  {
    var q := g[p].left;
    var g1 := RotatedRight(g, p);
    forall m1, m2 | m1 in g1 && m2 in g1
      ensures SoleLeftParent(g1, m1, m2) && SoleRightParent(g1, m1, m2)
    {
      RotateRightParents(g, rank, p, m1, m2);
    }
    forall m | m in g1
      ensures g1[m].left != q && g1[m].right != q
    {
      assert SoleLeftParent(g, p, m);
    }
  }

  /** The pairwise part of `RotateRightGraph`. */
  lemma RotateRightParents(g: Graph, rank: map<Node, nat>, p: Node, m1: Node, m2: Node)
    requires Ranked(g, rank) && Unshared(g) && p in g && Unlinked(g, p) && g[p].left != null
    requires g[p].left in g && m1 in g && m2 in g
    ensures SoleLeftParent(RotatedRight(g, p), m1, m2) && SoleRightParent(RotatedRight(g, p), m1, m2)
  {
    var q := g[p].left;
    assert q != p && g[q].left != p && g[q].right != p;
    assert SoleLeftParent(g, q, p) && SoleLeftParent(g, q, m1) && SoleLeftParent(g, q, m2) && SoleLeftParent(g, q, q);
    assert SoleLeftParent(g, p, p) && SoleLeftParent(g, p, m1) && SoleLeftParent(g, p, m2);
    assert SoleRightParent(g, q, p) && SoleRightParent(g, q, m1) && SoleRightParent(g, q, m2);
    assert SoleLeftParent(g, m1, m2) && SoleRightParent(g, m1, m2);
    assert SoleLeftParent(g, m1, p) && SoleRightParent(g, m1, p);
    assert SoleLeftParent(g, m1, q) && SoleRightParent(g, m1, q);
    assert SoleRightParent(g, p, q) && SoleRightParent(g, p, m2);
  }

  /** Rotating the right child `q` of the top `p` of a forest up keeps the
      links acyclic (with `q` ranked just above `p`), leaves `q` the top of a
      forest on the same nodes, and spells out the rotated tree at `q`. */
  lemma RotateLeftGraph(g: Graph, rank: map<Node, nat>, p: Node) returns (r1: map<Node, nat>)
    requires Ranked(g, rank) && Unshared(g) && p in g && Unlinked(g, p) && g[p].right != null
    ensures g[p].right in g && RotatedLeft(g, p).Keys == g.Keys
    ensures Ranked(RotatedLeft(g, p), r1) && Unshared(RotatedLeft(g, p)) && Unlinked(RotatedLeft(g, p), g[p].right)
    ensures TreeAt(g, rank, p).right.Node?
    ensures TreeAt(RotatedLeft(g, p), r1, g[p].right) == RotateLeft(TreeAt(g, rank, p))
  {
    r1 := rank[g[p].right := rank[p] + 1];
    RotateLeftRanked(g, rank, p);
    RotateLeftTree(g, rank, p);
    RotateLeftUnshared(g, rank, p);
  }

  /** `RotateLeftGraph`'s ranks. */
  lemma RotateLeftRanked(g: Graph, rank: map<Node, nat>, p: Node)
    requires Ranked(g, rank) && Unshared(g) && p in g && Unlinked(g, p) && g[p].right != null
    ensures g[p].right in g && RotatedLeft(g, p).Keys == g.Keys
    ensures Ranked(RotatedLeft(g, p), rank[g[p].right := rank[p] + 1])
  {
    var q := g[p].right;
    var g1, r1 := RotatedLeft(g, p), rank[q := rank[p] + 1];
    assert SoleLeftParent(g, p, p);
    forall m | m in g1
      ensures m in r1 && Below(g1, r1, m, g1[m].left) && Below(g1, r1, m, g1[m].right)
    {
      assert SoleRightParent(g, p, m);
    }
  }

  /** `RotateLeftGraph`'s tree. */
  lemma RotateLeftTree(g: Graph, rank: map<Node, nat>, p: Node)
    requires Ranked(g, rank) && Unshared(g) && p in g && Unlinked(g, p) && g[p].right != null
    requires Ranked(RotatedLeft(g, p), rank[g[p].right := rank[p] + 1])
    ensures TreeAt(g, rank, p).right.Node?
    ensures TreeAt(RotatedLeft(g, p), rank[g[p].right := rank[p] + 1], g[p].right) == RotateLeft(TreeAt(g, rank, p))
  {
    var q := g[p].right;
    var a, b, c := g[q].left, g[q].right, g[p].left;
    var g1, r1 := RotatedLeft(g, p), rank[q := rank[p] + 1];
    assert SoleLeftParent(g, p, p);
    RotatedSubtree(g, rank, g1, r1, p, q, a);
    RotatedSubtree(g, rank, g1, r1, p, q, b);
    OnlyThrough(g, rank, c, q, p) by {
      forall m | m in g && (g[m].left == q || g[m].right == q)
        ensures m == p
      {
        assert SoleRightParent(g, p, m);
      }
    }
    RotatedSubtree(g, rank, g1, r1, p, q, c);
    assert TreeAt(g, rank, p) == Node(TreeAt(g, rank, c), p.item, Node(TreeAt(g, rank, a), q.item, TreeAt(g, rank, b)));
    assert TreeAt(g1, r1, q) == Node(Node(TreeAt(g1, r1, c), p.item, TreeAt(g1, r1, a)), q.item, TreeAt(g1, r1, b));
  }

  /** `RotateLeftGraph`'s forest shape. */
  lemma RotateLeftUnshared(g: Graph, rank: map<Node, nat>, p: Node)
    requires Ranked(g, rank) && Unshared(g) && p in g && Unlinked(g, p) && g[p].right != null
    ensures g[p].right in g
    ensures Unshared(RotatedLeft(g, p)) && Unlinked(RotatedLeft(g, p), g[p].right)
  {
    var q := g[p].right;
    var g1 := RotatedLeft(g, p);
    forall m1, m2 | m1 in g1 && m2 in g1
      ensures SoleLeftParent(g1, m1, m2) && SoleRightParent(g1, m1, m2)
    {
      RotateLeftParents(g, rank, p, m1, m2);
    }
    assert SoleLeftParent(g, p, p);
    forall m | m in g1
      ensures g1[m].left != q && g1[m].right != q
    {
      assert SoleRightParent(g, p, m);
    }
  }

  /** The pairwise part of `RotateLeftGraph`. */
  lemma RotateLeftParents(g: Graph, rank: map<Node, nat>, p: Node, m1: Node, m2: Node)
    requires Ranked(g, rank) && Unshared(g) && p in g && Unlinked(g, p) && g[p].right != null
    requires g[p].right in g && m1 in g && m2 in g
    ensures SoleLeftParent(RotatedLeft(g, p), m1, m2) && SoleRightParent(RotatedLeft(g, p), m1, m2)
  {
    var q := g[p].right;
    assert q != p && g[q].left != p && g[q].right != p;
    assert SoleLeftParent(g, q, p) && SoleLeftParent(g, q, m1) && SoleLeftParent(g, q, m2) && SoleLeftParent(g, q, q);
    assert SoleRightParent(g, q, p) && SoleRightParent(g, q, m1) && SoleRightParent(g, q, m2);
    assert SoleLeftParent(g, p, p) && SoleLeftParent(g, p, m1) && SoleLeftParent(g, p, m2);
    assert SoleRightParent(g, p, p) && SoleRightParent(g, p, m1) && SoleRightParent(g, p, m2);
    assert SoleLeftParent(g, m1, m2) && SoleRightParent(g, m1, m2);
    assert SoleLeftParent(g, m1, p) && SoleRightParent(g, m1, p);
    assert SoleLeftParent(g, m1, q) && SoleRightParent(g, m1, q);
  }
}
