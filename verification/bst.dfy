/**
 * The binary search tree of `int`s. The tree is a value: `insert`,
 * `delete_node` and `remove_largest_node`, which rewrite `*root` in place,
 * become functions from the old tree to the new one.
 *
 * `insert` sends a value left when it is strictly smaller than the node and
 * right otherwise, so the trees it builds satisfy `SearchTree` (left below the
 * node, right at or above it). `delete_node` keeps only the looser
 * `WeakSearchTree` (left at or below the node), which is also all that a
 * search needs.
 */
module BinarySearchTree {

  datatype Tree = Nil | Node(left: Tree, data: int, right: Tree)

  /** The values stored in a tree, with repetitions. */
  function Elems(t: Tree): multiset<int> {
    match t
    case Nil => multiset{}
    case Node(l, d, r) => Elems(l) + multiset{d} + Elems(r)
  }

  /** Every value of `t` is strictly below `d`. */
  ghost predicate AllBelow(t: Tree, d: int) {
    forall x :: x in Elems(t) ==> x < d
  }

  /** Every value of `t` is at most `d`. */
  ghost predicate AllAtMost(t: Tree, d: int) {
    forall x :: x in Elems(t) ==> x <= d
  }

  /** Every value of `t` is at least `d`. */
  ghost predicate AllAtLeast(t: Tree, d: int) {
    forall x :: x in Elems(t) ==> d <= x
  }

  /** The order `insert` maintains: left subtree < node <= right subtree. */
  ghost predicate SearchTree(t: Tree) {
    match t
    case Nil => true
    case Node(l, d, r) => SearchTree(l) && SearchTree(r) && AllBelow(l, d) && AllAtLeast(r, d)
  }

  /** The order every operation keeps: left subtree <= node <= right subtree. */
  ghost predicate WeakSearchTree(t: Tree) {
    match t
    case Nil => true
    case Node(l, d, r) => WeakSearchTree(l) && WeakSearchTree(r) && AllAtMost(l, d) && AllAtLeast(r, d)
  }

  lemma {:induction false} StrictIsWeak(t: Tree)
    requires SearchTree(t)
    ensures WeakSearchTree(t)
  {
    if t.Node? {
      StrictIsWeak(t.left);
      StrictIsWeak(t.right);
    }
  }

  /**
   * `insert`: a new leaf at the bottom, reached by going left when `value` is
   * strictly smaller than the node and right otherwise (equal values go
   * right).
   */
  function Insert(t: Tree, value: int): (r: Tree)
    ensures Elems(r) == Elems(t) + multiset{value}
  {
    match t
    case Nil => Node(Nil, value, Nil)
    case Node(l, d, rt) =>
      if value < d then Node(Insert(l, value), d, rt)
      else Node(l, d, Insert(rt, value))
  }

  /** `insert` keeps the strict order: an equal value never lands on the left. */
  lemma {:induction false} InsertOrdered(t: Tree, value: int)
    requires SearchTree(t)
    ensures SearchTree(Insert(t, value))
  {
    if t.Node? {
      if value < t.data {
        InsertOrdered(t.left, value);
        assert AllBelow(Insert(t.left, value), t.data);
      } else {
        InsertOrdered(t.right, value);
        assert AllAtLeast(Insert(t.right, value), t.data);
      }
    }
  }

  /** `insert` keeps the order left <= node <= right. */
  lemma {:induction false} InsertWeaklyOrdered(t: Tree, value: int)
    requires WeakSearchTree(t)
    ensures WeakSearchTree(Insert(t, value))
  {
    if t.Node? {
      if value < t.data {
        InsertWeaklyOrdered(t.left, value);
        assert AllAtMost(Insert(t.left, value), t.data);
      } else {
        InsertWeaklyOrdered(t.right, value);
        assert AllAtLeast(Insert(t.right, value), t.data);
      }
    }
  }

  /**
   * `remove_largest_node` on a non-empty tree: follows right children to the
   * node that has none, returns its value, and puts its left subtree in its
   * place.
   */
  function RemoveLargest(t: Tree): (r: (int, Tree))
    requires t.Node?
    ensures Elems(r.1) + multiset{r.0} == Elems(t)
  {
    if t.right == Nil then (t.data, t.left)
    else
      var (largest, rest) := RemoveLargest(t.right);
      (largest, Node(t.left, t.data, rest))
  }

  /** On an ordered tree the removed value is the largest and the rest stays ordered. */
  lemma {:induction false} RemoveLargestOrdered(t: Tree)
    requires t.Node? && WeakSearchTree(t)
    ensures AllAtMost(t, RemoveLargest(t).0)
    ensures WeakSearchTree(RemoveLargest(t).1)
    ensures SearchTree(t) ==> SearchTree(RemoveLargest(t).1)
  {
    if t.right != Nil {
      RemoveLargestOrdered(t.right);
      var (m, rest) := RemoveLargest(t.right);
      assert m in Elems(t.right);
      assert t.data <= m;
      assert forall x :: x in Elems(rest) ==> x in Elems(t.right);
    }
  }

  /**
   * `delete_node`, with each recursive call's result returned: 0 on an
   * empty subtree; on a match, the node is replaced by nothing, by its only
   * child, or (two children) by the largest node of its left subtree;
   * otherwise the search goes left when the node is greater than `value` and
   * right when it is not.
   */
  function DeleteNode(t: Tree, value: int): (r: (int, Tree))
    ensures r.0 == 0 || r.0 == 1
    ensures r.0 == 0 ==> r.1 == t
  {
    match t
    case Nil => (0, Nil)
    case Node(l, d, rt) =>
      if d == value then
        if l == Nil && rt == Nil then (1, Nil)
        else if l == Nil then (1, rt)
        else if rt == Nil then (1, l)
        else
          var (largest, rest) := RemoveLargest(l);
          (1, Node(rest, largest, rt))
      else if d > value then
        var (found, l') := DeleteNode(l, value);
        (found, Node(l', d, rt))
      else
        var (found, r') := DeleteNode(rt, value);
        (found, Node(l, d, r'))
  }

  /**
   * When `delete_node` reports 1 the value was stored and exactly one copy
   * of it is gone; every other value stays.
   */
  lemma {:induction false} DeleteNodeElems(t: Tree, value: int)
    ensures DeleteNode(t, value).0 == 1 ==> Elems(DeleteNode(t, value).1) + multiset{value} == Elems(t)
  {
    if t.Node? && t.data == value {
      DeleteAtRootElems(t);
    } else if t.Node? {
      if t.data > value {
        DeleteNodeElems(t.left, value);
      } else {
        DeleteNodeElems(t.right, value);
      }
    }
  }

  /** A match at the root removes exactly the root's value. */
  lemma DeleteAtRootElems(t: Tree)
    requires t.Node?
    ensures Elems(DeleteNode(t, t.data).1) + multiset{t.data} == Elems(t)
  {
    var Node(l, d, r) := t;
    if l != Nil && r != Nil {
      PromoteLargestElems(t);
    } else if l == Nil {
      assert DeleteNode(t, d).1 == r;
    } else {
      assert DeleteNode(t, d).1 == l;
    }
  }

  /** Replacing a two-child node by the largest value of its left subtree
      loses exactly the node's own value. */
  lemma PromoteLargestElems(t: Tree)
    requires t.Node? && t.left.Node?
    ensures Elems(Node(RemoveLargest(t.left).1, RemoveLargest(t.left).0, t.right)) + multiset{t.data} == Elems(t)
  {
  }

  /** `delete_node` never adds a value. */
  lemma DeleteNodeKeepsOnly(t: Tree, value: int)
    ensures forall x :: x in Elems(DeleteNode(t, value).1) ==> x in Elems(t)
  {
    DeleteNodeElems(t, value);
  }

  /** Replacing the left subtree by an ordered one holding fewer values keeps the order. */
  lemma NewLeftOrdered(l: Tree, d: int, r: Tree, l': Tree)
    requires WeakSearchTree(Node(l, d, r)) && WeakSearchTree(l')
    requires forall x :: x in Elems(l') ==> x in Elems(l)
    ensures WeakSearchTree(Node(l', d, r))
  {
  }

  /** Replacing the right subtree by an ordered one holding fewer values keeps the order. */
  lemma NewRightOrdered(l: Tree, d: int, r: Tree, r': Tree)
    requires WeakSearchTree(Node(l, d, r)) && WeakSearchTree(r')
    requires forall x :: x in Elems(r') ==> x in Elems(r)
    ensures WeakSearchTree(Node(l, d, r'))
  {
  }

  /** Replacing a two-child node by the largest value of its left subtree keeps the order. */
  lemma PromoteLargestOrdered(t: Tree)
    requires t.Node? && t.left.Node? && WeakSearchTree(t)
    ensures WeakSearchTree(Node(RemoveLargest(t.left).1, RemoveLargest(t.left).0, t.right))
  {
    RemoveLargestOrdered(t.left);
    var (m, rest) := RemoveLargest(t.left);
    assert m in Elems(t.left);
    assert forall x :: x in Elems(rest) ==> x in Elems(t.left);
    assert AllAtMost(rest, m);
    assert AllAtLeast(t.right, m);
  }

  /** `delete_node` keeps the order left <= node <= right. */
  lemma {:induction false} DeleteNodeOrdered(t: Tree, value: int)
    requires WeakSearchTree(t)
    ensures WeakSearchTree(DeleteNode(t, value).1)
  {
    if t.Node? {
      if t.data == value {
        if t.left != Nil && t.right != Nil {
          PromoteLargestOrdered(t);
        }
      } else if t.data > value {
        DeleteNodeOrdered(t.left, value);
        DeleteNodeKeepsOnly(t.left, value);
        NewLeftOrdered(t.left, t.data, t.right, DeleteNode(t.left, value).1);
      } else {
        DeleteNodeOrdered(t.right, value);
        DeleteNodeKeepsOnly(t.right, value);
        NewRightOrdered(t.left, t.data, t.right, DeleteNode(t.right, value).1);
      }
    }
  }

  /**
   * On an ordered tree `delete_node` reports 1 exactly when the value is
   * stored.
   */
  lemma {:induction false} DeleteNodeFound(t: Tree, value: int)
    requires WeakSearchTree(t)
    ensures DeleteNode(t, value).0 == 1 <==> value in Elems(t)
  {
    if t.Node? && t.data != value {
      if t.data > value {
        DeleteNodeFound(t.left, value);
        assert value !in Elems(t.right);
      } else {
        DeleteNodeFound(t.right, value);
        assert value !in Elems(t.left);
      }
    }
  }

  /** So on an ordered tree `delete_node` removes exactly one copy of the value when
      there is one, and changes nothing otherwise. */
  lemma DeleteNodeRemovesOne(t: Tree, value: int)
    requires WeakSearchTree(t)
    ensures Elems(DeleteNode(t, value).1) == Elems(t) - multiset{value}
  {
    DeleteNodeFound(t, value);
    DeleteNodeElems(t, value);
    if value !in Elems(t) {
      assert Elems(t) - multiset{value} == Elems(t);
    }
  }

  /**
   * `insert` builds trees with left < node <= right, but `delete_node` can
   * leave a copy of the new root's value in its left subtree: inserting 5, 3,
   * 3 and 7 and then deleting 5 moves the second 3 up above the first.
   */
  lemma DeleteKeepsOnlyWeakOrder()
    ensures SearchTree(Insert(Insert(Insert(Insert(Nil, 5), 3), 3), 7))
    ensures !SearchTree(DeleteNode(Insert(Insert(Insert(Insert(Nil, 5), 3), 3), 7), 5).1)
  {
    var t := Insert(Insert(Insert(Insert(Nil, 5), 3), 3), 7);
    var threes := Node(Nil, 3, Node(Nil, 3, Nil));
    assert t == Node(threes, 5, Node(Nil, 7, Nil));
    assert RemoveLargest(threes) == (3, Node(Nil, 3, Nil));
    var d := DeleteNode(t, 5).1;
    assert d == Node(Node(Nil, 3, Nil), 3, Node(Nil, 7, Nil));
    assert 3 in Elems(d.left);
  }

  // ---------------------------------------------------------------------
  // lookup
  // ---------------------------------------------------------------------

  /**
   * The search `lookup` evidently intends: 0 on an empty tree, 1 on a match,
   * otherwise left when the node is greater than `value` and right when it
   * is smaller, returning what the subtree search returns.
   */
  function Lookup(t: Tree, value: int): (found: int)
    ensures found == 0 || found == 1
    ensures found == 1 ==> value in Elems(t)
  {
    match t
    case Nil => 0
    case Node(l, d, r) =>
      if d > value then Lookup(l, value)
      else if d < value then Lookup(r, value)
      else 1
  }

  /** On an ordered tree the corrected `lookup` is a membership test. */
  lemma {:induction false} LookupIsMembership(t: Tree, value: int)
    requires WeakSearchTree(t)
    ensures Lookup(t, value) == 1 <==> value in Elems(t)
  {
    if t.Node? && t.data != value {
      if t.data > value {
        LookupIsMembership(t.left, value);
        assert value !in Elems(t.right);
      } else {
        LookupIsMembership(t.right, value);
        assert value !in Elems(t.left);
      }
    }
  }

  /**
   * `lookup`'s comparisons as written, with the subtree results returned:
   * it descends LEFT when the node is smaller than `value` and RIGHT when the
   * node is greater, the opposite of where `insert` put such values.
   */
  function LookupReversed(t: Tree, value: int): (found: int)
    ensures found == 0 || found == 1
    ensures found == 1 ==> value in Elems(t)
  {
    match t
    case Nil => 0
    case Node(l, d, r) =>
      if d < value then LookupReversed(l, value)
      else if d > value then LookupReversed(r, value)
      else 1
  }

  /**
   * On an ordered tree the reversed search finds a value only at the root:
   * every other copy lies on the side it does not visit.
   */
  lemma LookupReversedOnlyAtRoot(t: Tree, value: int)
    requires WeakSearchTree(t)
    ensures LookupReversed(t, value) == 1 <==> t.Node? && t.data == value
  {
    if t.Node? && t.data < value {
      assert value !in Elems(t.left);
    } else if t.Node? && t.data > value {
      assert value !in Elems(t.right);
    }
  }

  /** After inserting 5 and then 3, the reversed search does not find 3. */
  lemma LookupReversedMisses()
    ensures 3 in Elems(Insert(Insert(Nil, 5), 3))
    ensures LookupReversed(Insert(Insert(Nil, 5), 3), 3) == 0
    ensures Lookup(Insert(Insert(Nil, 5), 3), 3) == 1
  {
    assert Insert(Insert(Nil, 5), 3) == Node(Node(Nil, 3, Nil), 5, Nil);
  }

  // ---------------------------------------------------------------------
  // Return values the C code leaves undefined
  // ---------------------------------------------------------------------

  /**
   * How an `int` function ends: with a returned value, or with no defined
   * value when control reaches the closing brace without a `return`; a
   * caller that uses the result then has undefined behaviour (ISO C section
   * 6.9.1, paragraph 12).
   */
  datatype Status = Returned(value: int) | NoValue

  /**
   * `delete_node`'s status as written: the recursive branches call
   * themselves but return nothing.
   */
  function DeleteStatusAsWritten(t: Tree, value: int): (s: Status)
    ensures s != NoValue <==> t == Nil || t.data == value
    ensures s != NoValue ==> s == Returned(DeleteNode(t, value).0)
  {
    match t
    case Nil => Returned(0)
    case Node(_, d, _) => if d == value then Returned(1) else NoValue
  }

  /** Deleting a value stored below the root returns no defined value, which the
      caller then uses. */
  lemma DeleteStatusUndefined()
    ensures DeleteNode(Node(Nil, 5, Node(Nil, 7, Nil)), 7).0 == 1
    ensures DeleteStatusAsWritten(Node(Nil, 5, Node(Nil, 7, Nil)), 7) == NoValue
  {
  }

  /**
   * `lookup`'s status as written: only the empty tree and a match at the
   * root return a value; the recursive branches return nothing.
   */
  function LookupAsWritten(t: Tree, value: int): (s: Status)
    ensures s == Returned(0) <==> t == Nil
    ensures s == Returned(1) <==> t.Node? && t.data == value
    ensures s == Returned(0) || s == Returned(1) || s == NoValue
  {
    match t
    case Nil => Returned(0)
    case Node(_, d, _) => if d == value then Returned(1) else NoValue
  }

  /** Looking up a value stored below the root returns no defined value, which the
      caller then uses. */
  lemma LookupStatusUndefined()
    ensures Lookup(Insert(Insert(Nil, 5), 3), 3) == 1
    ensures LookupAsWritten(Insert(Insert(Nil, 5), 3), 3) == NoValue
  {
    assert Insert(Insert(Nil, 5), 3) == Node(Node(Nil, 3, Nil), 5, Nil);
  }

  // ---------------------------------------------------------------------
  // Traversals, as the sequences of values they print
  // ---------------------------------------------------------------------

  predicate Ascending(s: seq<int>) {
    forall i, j :: 0 <= i < j < |s| ==> s[i] <= s[j]
  }

  predicate Descending(s: seq<int>) {
    forall i, j :: 0 <= i < j < |s| ==> s[i] >= s[j]
  }

  function Reverse(s: seq<int>): (r: seq<int>)
    ensures |r| == |s|
  {
    if s == [] then [] else Reverse(s[1..]) + [s[0]]
  }

  lemma {:induction false} ReverseAt(s: seq<int>, i: int)
    requires 0 <= i < |s|
    ensures Reverse(s)[i] == s[|s| - 1 - i]
  {
    if i < |s| - 1 {
      ReverseAt(s[1..], i);
    }
  }

  lemma {:induction false} ReverseAppend(a: seq<int>, b: seq<int>)
    ensures Reverse(a + b) == Reverse(b) + Reverse(a)
  {
    if a == [] {
      assert a + b == b;
    } else {
      assert (a + b)[1..] == a[1..] + b;
      ReverseAppend(a[1..], b);
    }
  }

  /** Reversing a run glued around a value swaps the two sides. */
  lemma ReverseAround(a: seq<int>, d: int, b: seq<int>)
    ensures Reverse(a + [d] + b) == Reverse(b) + [d] + Reverse(a)
  {
    assert Reverse([d]) == [d] by {
      assert [d][1..] == [];
    }
    ReverseAppend(a + [d], b);
    ReverseAppend(a, [d]);
  }

  /** Read backwards, an ascending sequence descends. */
  lemma ReverseAscending(s: seq<int>)
    requires Ascending(s)
    ensures Descending(Reverse(s))
  {
    forall i | 0 <= i < |s|
      ensures Reverse(s)[i] == s[|s| - 1 - i]
    {
      ReverseAt(s, i);
    }
  }

  /** Gluing two ascending runs around a value between them gives an ascending run. */
  lemma ConcatAscending(a: seq<int>, d: int, b: seq<int>)
    requires Ascending(a) && Ascending(b)
    requires forall i :: 0 <= i < |a| ==> a[i] <= d
    requires forall i :: 0 <= i < |b| ==> d <= b[i]
    ensures Ascending(a + [d] + b)
  {
    var s := a + [d] + b;
    forall i, j | 0 <= i < j < |s|
      ensures s[i] <= s[j]
    {
      if j < |a| {
        assert s[i] == a[i] && s[j] == a[j];
      } else if i > |a| {
        assert s[i] == b[i - |a| - 1] && s[j] == b[j - |a| - 1];
      } else if i < |a| && j > |a| {
        assert s[i] == a[i] && s[j] == b[j - |a| - 1];
      } else if i < |a| {
        assert s[i] == a[i];
      } else {
        assert s[j] == b[j - |a| - 1];
      }
    }
  }

  /** `in_order`: left subtree, node, right subtree. */
  function InOrder(t: Tree): (s: seq<int>)
    ensures multiset(s) == Elems(t)
  {
    match t
    case Nil => []
    case Node(l, d, r) => InOrder(l) + [d] + InOrder(r)
  }

  /** `pre_order`: node, left subtree, right subtree. */
  function PreOrder(t: Tree): (s: seq<int>)
    ensures multiset(s) == Elems(t)
    ensures t.Node? ==> s != [] && s[0] == t.data
  {
    match t
    case Nil => []
    case Node(l, d, r) => [d] + PreOrder(l) + PreOrder(r)
  }

  /** `post_order` as written: right subtree, node, left subtree. */
  function PostOrderAsWritten(t: Tree): (s: seq<int>)
    ensures multiset(s) == Elems(t)
  {
    match t
    case Nil => []
    case Node(l, d, r) => PostOrderAsWritten(r) + [d] + PostOrderAsWritten(l)
  }

  /** A post-order visit: left subtree, right subtree, node. */
  function PostOrder(t: Tree): (s: seq<int>)
    ensures multiset(s) == Elems(t)
    ensures t.Node? ==> s != [] && s[|s| - 1] == t.data
  {
    match t
    case Nil => []
    case Node(l, d, r) => PostOrder(l) + PostOrder(r) + [d]
  }

  /** On an ordered tree the in-order visit is ascending. */
  lemma {:induction false} InOrderAscending(t: Tree)
    requires WeakSearchTree(t)
    ensures Ascending(InOrder(t))
  {
    if t.Node? {
      InOrderAscending(t.left);
      InOrderAscending(t.right);
      var a, b := InOrder(t.left), InOrder(t.right);
      forall i | 0 <= i < |a|
        ensures a[i] <= t.data
      {
        assert a[i] in multiset(a);
      }
      forall i | 0 <= i < |b|
        ensures t.data <= b[i]
      {
        assert b[i] in multiset(b);
      }
      ConcatAscending(a, t.data, b);
    }
  }

  /** The visit `post_order` makes is the in-order visit backwards. */
  lemma {:induction false} PostOrderAsWrittenReversesInOrder(t: Tree)
    ensures PostOrderAsWritten(t) == Reverse(InOrder(t))
  {
    if t.Node? {
      PostOrderAsWrittenReversesInOrder(t.left);
      PostOrderAsWrittenReversesInOrder(t.right);
      ReverseAround(InOrder(t.left), t.data, InOrder(t.right));
    }
  }

  /** So on an ordered tree `post_order` prints descending values. */
  lemma PostOrderAsWrittenDescending(t: Tree)
    requires WeakSearchTree(t)
    ensures Descending(PostOrderAsWritten(t))
  {
    PostOrderAsWrittenReversesInOrder(t);
    InOrderAscending(t);
    ReverseAscending(InOrder(t));
  }

  /**
   * Unlike a post-order visit, which ends with the root, `post_order`
   * prints a root ahead of its left subtree.
   */
  lemma PostOrderAsWrittenIsNotPostOrder()
    ensures PostOrderAsWritten(Node(Node(Nil, 1, Nil), 2, Nil)) == [2, 1]
    ensures PostOrder(Node(Node(Nil, 1, Nil), 2, Nil)) == [1, 2]
  {
    LeftChildAsWritten(1, 2);
    LeftChildPostOrder(1, 2);
  }

  /** `post_order` as written on a node whose only child is a left leaf. */
  lemma LeftChildAsWritten(a: int, b: int)
    ensures PostOrderAsWritten(Node(Node(Nil, a, Nil), b, Nil)) == [b, a]
  {
    var leaf := Node(Nil, a, Nil);
    assert PostOrderAsWritten(leaf) == [a];
    assert PostOrderAsWritten(Node(leaf, b, Nil)) == [] + [b] + [a];
  }

  /** A post-order visit of a node whose only child is a left leaf. */
  lemma LeftChildPostOrder(a: int, b: int)
    ensures PostOrder(Node(Node(Nil, a, Nil), b, Nil)) == [a, b]
  {
    assert PostOrder(Node(Nil, a, Nil)) == [a];
  }
}
