/** The binary min-heap `PriorityQueue<T>` of COIS2020A2/Program.cs.
    The heap is 0-based: the parent of index i > 0 is (i - 1) / 2. The source
    orders elements with `CompareTo`; here the order is given by a key, so
    `a.CompareTo(b) < 0` reads `key(a) < key(b)`. */
module PriorityQueues {
  import opened Wrappers

  function Parent(i: nat): (r: nat)
    requires i > 0
  {
    (i - 1) / 2
  }

  /** Every element is at least its parent. */
  ghost predicate HeapOrdered<T>(s: seq<T>, key: T -> real)
  {
    forall i :: 0 < i < |s| ==> key(s[Parent(i)]) <= key(s[i])
  }

  /** Heap order during sift-up: it holds everywhere except between k and its
      parent, and k's parent is no larger than k's children. */
  ghost predicate HeapExceptUp<T>(s: seq<T>, key: T -> real, k: nat)
  {
    && (forall i :: 0 < i < |s| && i != k ==> key(s[Parent(i)]) <= key(s[i]))
    && (0 < k < |s| ==> forall i :: 0 < i < |s| && Parent(i) == k ==> key(s[Parent(k)]) <= key(s[i]))
  }

  /** Heap order during sift-down: it holds everywhere except between k and its
      children, and k's parent is no larger than k's children. */
  ghost predicate HeapExceptDown<T>(s: seq<T>, key: T -> real, k: nat)
  {
    && (forall i :: 0 < i < |s| && Parent(i) != k ==> key(s[Parent(i)]) <= key(s[i]))
    && (0 < k < |s| ==> forall i :: 0 < i < |s| && Parent(i) == k ==> key(s[Parent(k)]) <= key(s[i]))
  }

  /** In a heap, the element at index 0 is no larger than any element. */
  lemma {:induction false} RootIsMinimum<T>(s: seq<T>, key: T -> real, i: nat)
    requires HeapOrdered(s, key)
    requires i < |s|
    ensures key(s[0]) <= key(s[i])
    decreases i
  {
    if i > 0 {
      RootIsMinimum(s, key, Parent(i));
    }
  }

  /** The same fact stated over the contents. */
  lemma RootBelowAll<T>(s: seq<T>, key: T -> real)
    requires HeapOrdered(s, key)
    requires |s| > 0
    ensures forall e :: e in s ==> key(s[0]) <= key(e)
  {
    forall e | e in s
      ensures key(s[0]) <= key(e)
    {
      var i :| 0 <= i < |s| && s[i] == e;
      RootIsMinimum(s, key, i);
    }
  }

  /** Moving the last element to the front and dropping the last slot removes
      exactly one occurrence of the old front element. */
  lemma {:induction false} MoveLastToFront<T>(s: seq<T>)
    requires |s| > 0
    ensures multiset(s[0 := s[|s| - 1]][..|s| - 1]) == multiset(s) - multiset{s[0]}
  {
    var li := |s| - 1;
    if li > 0 {
      assert s == [s[0]] + s[1..li] + [s[li]];
      assert s[0 := s[li]][..li] == [s[li]] + s[1..li];
    }
  }

  /** An item appended to a heap may break heap order only with its parent. */
  lemma StartSiftUp<T>(s: seq<T>, key: T -> real, item: T)
    requires HeapOrdered(s, key)
    ensures HeapExceptUp(s + [item], key, |s|)
  {
  }

  /** Swapping `k` with its larger parent moves the break up to the parent. */
  lemma SiftUpStep<T>(s: seq<T>, key: T -> real, k: nat)
    requires 0 < k < |s| && HeapExceptUp(s, key, k)
    requires key(s[k]) < key(s[Parent(k)])
    ensures HeapExceptUp(s[k := s[Parent(k)]][Parent(k) := s[k]], key, Parent(k))
  {
  }

  /** Sift-up stops at the root, or where the child is no smaller than its
      parent. */
  lemma SiftUpDone<T>(s: seq<T>, key: T -> real, k: nat)
    requires k < |s| && HeapExceptUp(s, key, k)
    requires k == 0 || key(s[k]) >= key(s[Parent(k)])
    ensures HeapOrdered(s, key)
  {
  }

  /** Replacing the root of a heap (and dropping the last slot) leaves heap order
      broken at most below the root. */
  lemma StartSiftDown<T>(s: seq<T>, key: T -> real)
    requires HeapOrdered(s, key)
    requires |s| > 0
    ensures HeapExceptDown(s[0 := s[|s| - 1]][..|s| - 1], key, 0)
  {
  }

  /** The children of k are 2k + 1 and 2k + 2. */
  lemma ChildrenOf(i: nat, k: nat)
    requires i > 0
    ensures Parent(i) == k <==> i == 2 * k + 1 || i == 2 * k + 2
  {
  }

  /** One sift-down step: swapping k with its smaller child c, which is smaller
      than k, moves the hole down to c. */
  lemma SiftDownStep<T>(s: seq<T>, key: T -> real, k: nat, c: nat)
    requires HeapExceptDown(s, key, k)
    requires c < |s| && (c == 2 * k + 1 || c == 2 * k + 2)
    requires 2 * k + 1 < |s| ==> key(s[c]) <= key(s[2 * k + 1])
    requires 2 * k + 2 < |s| ==> key(s[c]) <= key(s[2 * k + 2])
    requires key(s[c]) < key(s[k])
    ensures HeapExceptDown(s[k := s[c]][c := s[k]], key, c)
  {
    SiftDownStepAbove(s, key, k, c);
    SiftDownStepBelow(s, key, k, c);
  }

  lemma SiftDownStepAbove<T>(s: seq<T>, key: T -> real, k: nat, c: nat)
    requires HeapExceptDown(s, key, k)
    requires c < |s| && (c == 2 * k + 1 || c == 2 * k + 2)
    requires 2 * k + 1 < |s| ==> key(s[c]) <= key(s[2 * k + 1])
    requires 2 * k + 2 < |s| ==> key(s[c]) <= key(s[2 * k + 2])
    requires key(s[c]) < key(s[k])
    ensures var t := s[k := s[c]][c := s[k]];
      forall i :: 0 < i < |t| && Parent(i) != c ==> key(t[Parent(i)]) <= key(t[i])
  {
    var t := s[k := s[c]][c := s[k]];
    forall i | 0 < i < |t| && Parent(i) != c
      ensures key(t[Parent(i)]) <= key(t[i])
    {
      ChildrenOf(i, k);
      if i == c {
      } else if Parent(i) == k {
        assert t[i] == s[i];
      } else if i == k {
        assert t[Parent(i)] == s[Parent(k)];
      } else {
        assert t[i] == s[i] && t[Parent(i)] == s[Parent(i)];
      }
    }
  }

  lemma SiftDownStepBelow<T>(s: seq<T>, key: T -> real, k: nat, c: nat)
    requires HeapExceptDown(s, key, k)
    requires c < |s| && (c == 2 * k + 1 || c == 2 * k + 2)
    requires key(s[c]) < key(s[k])
    ensures var t := s[k := s[c]][c := s[k]];
      0 < c ==> forall i :: 0 < i < |t| && Parent(i) == c ==> key(t[Parent(c)]) <= key(t[i])
  {
    var t := s[k := s[c]][c := s[k]];
    forall i | 0 < i < |t| && Parent(i) == c
      ensures key(t[Parent(c)]) <= key(t[i])
    {
      ChildrenOf(i, c);
      assert t[i] == s[i];
    }
  }

  /** Sift-down stops once k is no larger than its children. */
  lemma SiftDownDone<T>(s: seq<T>, key: T -> real, k: nat)
    requires HeapExceptDown(s, key, k)
    requires 2 * k + 1 < |s| ==> key(s[k]) <= key(s[2 * k + 1])
    requires 2 * k + 2 < |s| ==> key(s[k]) <= key(s[2 * k + 2])
    ensures HeapOrdered(s, key)
  {
    forall i | 0 < i < |s|
      ensures key(s[Parent(i)]) <= key(s[i])
    {
      if Parent(i) == k {
        assert i == 2 * k + 1 || i == 2 * k + 2;
      }
    }
  }

  class PriorityQueue<T> {
    /** The ordering of the elements (for events: their time). */
    const key: T -> real
    /** The backing `List<T> data`. */
    var data: seq<T>

    ghost predicate Valid()
      reads this
    {
      HeapOrdered(data, key)
    }

    constructor (key: T -> real)
      ensures Valid()
      ensures this.key == key && data == []
    {
      this.key := key;
      data := [];
    }

    /** The number of elements held. */
    function Count(): (n: nat)
      reads this
      ensures n == |multiset(data)|
    {
      |data|
    }

    /** The smallest element, or `None` (the source's `default(T)`) when empty;
        nothing changes. */
    function Peek(): (r: Option<T>)
      reads this
      requires Valid()
      ensures r.None? <==> data == []
      ensures r.Some? ==> r.value in data && forall e :: e in data ==> key(r.value) <= key(e)
    {
      if |data| > 0 then
        RootBelowAll(data, key);
        Some(data[0])
      else
        None
    }

    method Swap(i: nat, j: nat)
      requires i < |data| && j < |data|
      modifies this
      ensures data == old(data)[i := old(data)[j]][j := old(data)[i]]
      ensures multiset(data) == old(multiset(data))
    {
      var tmp := data[i];
      data := data[i := data[j]];
      data := data[j := tmp];
    }

    /** Appends `item` and sifts it up while it is smaller than its parent. */
    method Enqueue(item: T)
      requires Valid()
      modifies this
      ensures Valid()
      ensures |data| == old(|data|) + 1
      ensures multiset(data) == old(multiset(data)) + multiset{item}
    {
      StartSiftUp(data, key, item);
      data := data + [item];
      var ci := |data| - 1;
      while ci > 0
        invariant 0 <= ci < |data|
        invariant |data| == old(|data|) + 1
        invariant multiset(data) == old(multiset(data)) + multiset{item}
        invariant HeapExceptUp(data, key, ci)
      {
        var pi := Parent(ci);
        if key(data[ci]) >= key(data[pi]) {
          break;
        }
        SiftUpStep(data, key, ci);
        Swap(ci, pi);
        ci := pi;
      }
      SiftUpDone(data, key, ci);
    }

    /** The sift-down loop of `Dequeue`, from the root. */
    method SiftDown()
      requires HeapExceptDown(data, key, 0)
      modifies this
      ensures Valid()
      ensures |data| == old(|data|)
      ensures multiset(data) == old(multiset(data))
    {
      var li := |data| - 1;
      var pi := 0;
      while true
        invariant 0 <= pi <= |data|
        invariant li == |data| - 1
        invariant |data| == old(|data|)
        invariant multiset(data) == old(multiset(data))
        invariant HeapExceptDown(data, key, pi)
        decreases |data| - pi
      {
        var ci := pi * 2 + 1;
        if ci > li {
          SiftDownDone(data, key, pi);
          break;
        }
        var rc := ci + 1;
        if rc <= li && key(data[rc]) < key(data[ci]) {
          ci := rc;
        }
        if key(data[pi]) <= key(data[ci]) {
          SiftDownDone(data, key, pi);
          break;
        }
        SiftDownStep(data, key, pi, ci);
        Swap(pi, ci);
        pi := ci;
      }
    }

    /** Removes and returns the front element: the last element moves to the
        root and sifts down towards the smaller child (the right child only when
        strictly smaller). On an empty queue: `None`, nothing changes. */
    method Dequeue() returns (r: Option<T>)
      requires Valid()
      modifies this
      ensures Valid()
      ensures r == old(Peek())
      ensures old(data) == [] ==> data == []
      ensures old(data) != [] ==>
        && r.Some? && r.value in old(data)
        && (forall e :: e in old(data) ==> key(r.value) <= key(e))
        && |data| == old(|data|) - 1
        && multiset(data) == old(multiset(data)) - multiset{r.value}
    {
      var li := |data| - 1;
      if li < 0 {
        return None;
      }
      var frontItem := data[0];
      RootBelowAll(data, key);
      MoveLastToFront(data);
      StartSiftDown(data, key);
      data := data[0 := data[li]][..li];
      SiftDown();
      return Some(frontItem);
    }
  }
}
