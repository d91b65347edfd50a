/**
 * The sorted doubly linked list of names: heap nodes linked forward through
 * `next` and backward through `prev`, kept in `strcmp` order by `insert`,
 * searched front to back by `delete_node`.
 *
 * The ghost sequence `nodes` lists the nodes from the head; `Contents` lists
 * their names. `Valid()` ties both to `head` and to the links in both
 * directions.
 */
module DoublyLinkedList {
  import opened CStrings
  import opened Chains

  class Node {
    const name: Name
    var next: Node?
    var prev: Node?

    constructor (name: Name)
      ensures this.name == name && next == null && prev == null
    {
      this.name := name;
      next := null;
      prev := null;
    }
  }

  /** The names held by `nodes`, in list order. */
  ghost function Names(nodes: seq<Node>): seq<Name> {
    seq(|nodes|, i requires 0 <= i < |nodes| => nodes[i].name)
  }

  lemma NamesSplice(nodes: seq<Node>, k: nat, n: Node)
    requires k <= |nodes|
    ensures Names(InsertAt(nodes, k, n)) == InsertAt(Names(nodes), k, n.name)
  {
  }

  lemma NamesUnlink(nodes: seq<Node>, k: nat)
    requires k < |nodes|
    ensures Names(RemoveAt(nodes, k)) == RemoveAt(Names(nodes), k)
  {
  }

  /** Each node's `next` is its successor in `nodes`; the last one's is null. */
  ghost predicate Linked(nodes: seq<Node>)
    reads nodes
  {
    && (forall i :: 0 <= i < |nodes| - 1 ==> nodes[i].next == nodes[i + 1])
    && (nodes != [] ==> nodes[|nodes| - 1].next == null)
  }

  /** Each node's `prev` is its predecessor in `nodes`; the first one's is null. */
  ghost predicate BackLinked(nodes: seq<Node>)
    reads nodes
  {
    && (forall i :: 0 < i < |nodes| ==> nodes[i].prev == nodes[i - 1])
    && (nodes != [] ==> nodes[0].prev == null)
  }

  class List {
    var head: Node?
    ghost var nodes: seq<Node>
    ghost var Contents: seq<Name>

    /** The list read forward from `head`, with every `prev` pointing back. */
    ghost predicate Valid()
      reads this, nodes
    {
      && Contents == Names(nodes)
      && head == (if nodes == [] then null else nodes[0])
      && Linked(nodes)
      && BackLinked(nodes)
      && Distinct(nodes)
    }

    /** `create_list`: an empty list. */
    constructor ()
      ensures Valid() && head == null && nodes == [] && Contents == []
    {
      head := null;
      nodes := [];
      Contents := [];
    }

    /**
     * `insert`: the new node becomes the head when the list is empty or the
     * head's name is strictly greater; otherwise it goes right before the
     * first node whose name is strictly greater, or after the last node when
     * there is none. Equal names therefore stay ahead of the new one.
     */
    method Insert(name: Name)
      requires Valid() && IsName(name)
      modifies this, nodes
      ensures Valid()
      ensures Contents == InsertAt(old(Contents), ScanNotGreater(old(Contents), name), name)
      ensures fresh(nodes[ScanNotGreater(old(Contents), name)])
      ensures RemoveAt(nodes, ScanNotGreater(old(Contents), name)) == old(nodes)
      ensures multiset(Contents) == multiset(old(Contents)) + multiset{name}
      ensures Sorted(old(Contents)) ==> Sorted(Contents)
    {
      ghost var k := ScanNotGreater(Contents, name);
      var n := new Node(name);
      if head == null {
        LinkAt(0, n, null, null);
      } else if StrCmp(head.name, name) > 0 {
        LinkAt(0, n, null, head);
      } else {
        LinkPastHead(n);
      }
      InsertAtContents(old(nodes), k, n);
      ScanNotGreaterKeeps(old(Contents), name);
    }

    /**
     * The loop of `insert`, once the head is known not to be greater: links
     * `n` in before the first node whose name is strictly greater, or after
     * the last node.
     */
    method LinkPastHead(n: Node)
      requires Valid() && head != null && !Greater(head.name, n.name)
      requires n !in nodes && n.next == null && n.prev == null
      modifies this, nodes, n
      ensures Valid()
      ensures nodes == InsertAt(old(nodes), ScanNotGreater(old(Contents), n.name), n)
      ensures Contents == InsertAt(old(Contents), ScanNotGreater(old(Contents), n.name), n.name)
    {
      var current, i := WalkNotGreater(n.name);
      if StrCmp(current.name, n.name) > 0 {
        LinkAt(i, n, current.prev, current);
      } else {
        LinkAt(i + 1, n, current, null);
      }
    }

    /**
     * The walk of `insert` from the head: it stops on the first node whose
     * name is strictly greater than `name`, or on the last node.
     */
    method WalkNotGreater(name: Name) returns (current: Node, ghost i: nat)
      requires Valid() && head != null
      ensures i < |nodes| && current == nodes[i]
      ensures ScanNotGreater(Contents, name) == (if Greater(current.name, name) then i else i + 1)
      ensures !Greater(current.name, name) ==> i == |nodes| - 1
      ensures Greater(current.name, name) && !Greater(Contents[0], name) ==> 0 < i
    {
      current := head;
      i := 0;
      while StrCmp(current.name, name) <= 0 && current.next != null
        invariant 0 <= i < |nodes| && current == nodes[i]
        invariant forall j :: 0 <= j < i ==> !Greater(Contents[j], name)
        decreases |nodes| - i
      {
        assert Valid();
        current := current.next;
        i := i + 1;
      }
      assert Valid();
      if Greater(current.name, name) {
        ScanNotGreaterUnique(Contents, name, i);
      } else {
        ScanNotGreaterUnique(Contents, name, i + 1);
      }
    }

    /**
     * Links the fresh node `n` in at index `k`, between `before` (the node at
     * `k - 1`, null at the head) and `after` (the node at `k`, null at the
     * end): `n->next = after; n->prev = before`, then `before->next` (or
     * `head`) and `after->prev` point to `n`.
     */
    method LinkAt(ghost k: nat, n: Node, before: Node?, after: Node?)
      requires Valid() && k <= |nodes|
      requires before == (if k == 0 then null else nodes[k - 1])
      requires after == (if k == |nodes| then null else nodes[k])
      requires n !in nodes && n.next == null && n.prev == null
      modifies this, nodes, n
      ensures Valid()
      ensures nodes == InsertAt(old(nodes), k, n)
      ensures Contents == InsertAt(old(Contents), k, n.name)
    {
      ghost var was := nodes;
      NamesSplice(was, k, n);
      DistinctInsertAt(was, k, n);
      n.next := after;
      n.prev := before;
      if before == null {
        head := n;
      } else {
        before.next := n;
      }
      if after != null {
        after.prev := n;
      }
      nodes := InsertAt(was, k, n);
      Contents := InsertAt(Contents, k, n.name);
      forall j | 0 <= j < |nodes| - 1
        ensures nodes[j].next == nodes[j + 1]
      {
        if j < k - 1 {
          assert nodes[j] == was[j] && nodes[j + 1] == was[j + 1];
          assert old(was[j].next) == was[j + 1];
        } else if j > k {
          assert nodes[j] == was[j - 1] && nodes[j + 1] == was[j];
          assert old(was[j - 1].next) == was[j];
        }
      }
      forall j | 0 < j < |nodes|
        ensures nodes[j].prev == nodes[j - 1]
      {
        if j < k {
          assert nodes[j] == was[j] && nodes[j - 1] == was[j - 1];
          assert old(was[j].prev) == was[j - 1];
        } else if j > k + 1 {
          assert nodes[j] == was[j - 1] && nodes[j - 1] == was[j - 2];
          assert old(was[j - 1].prev) == was[j - 2];
        }
      }
    }

    /**
     * `delete_node`: returns 0 on an empty list; unlinks the head when it
     * matches; otherwise walks the whole list and unlinks the first node whose
     * name matches, returning 1, or returns 0 when there is none.
     */
    method DeleteNode(name: Name) returns (found: int)
      requires Valid()
      modifies this, nodes
      ensures Valid()
      ensures found == (if name in old(Contents) then 1 else 0)
      ensures name in old(Contents) ==>
        && Contents == RemoveAt(old(Contents), FirstIndex(old(Contents), name))
        && nodes == RemoveAt(old(nodes), FirstIndex(old(Contents), name))
      ensures name !in old(Contents) ==> Contents == old(Contents) && nodes == old(nodes)
      ensures Contents == RemoveFirst(old(Contents), name)
      ensures multiset(Contents) == multiset(old(Contents)) - multiset{name}
      ensures Sorted(old(Contents)) ==> Sorted(Contents)
    {
      ghost var k := FirstIndex(Contents, name);
      if head == null {
        found := 0;
      } else if StrCmp(head.name, name) == 0 {
        assert k == 0;
        UnlinkAt(0, null, head.next);
        found := 1;
      } else {
        var current, i := WalkToMatch(name);
        if current == null {
          found := 0;
        } else {
          UnlinkAt(i, current.prev, current.next);
          found := 1;
        }
      }
      RemoveFirstContents(old(Contents), name);
      if Sorted(old(Contents)) {
        RemoveFirstSorted(old(Contents), name);
      }
    }

    /**
     * The walk of `delete_node` from the head: it stops on the first node
     * whose name equals `name`, or runs off the end.
     */
    method WalkToMatch(name: Name) returns (current: Node?, ghost i: nat)
      requires Valid()
      ensures i == FirstIndex(Contents, name)
      ensures current == (if i < |nodes| then nodes[i] else null)
    {
      current := head;
      i := 0;
      while current != null && StrCmp(current.name, name) != 0
        invariant 0 <= i <= |nodes|
        invariant current == (if i < |nodes| then nodes[i] else null)
        invariant forall j :: 0 <= j < i ==> Contents[j] != name
        decreases |nodes| - i
      {
        assert Valid();
        current := current.next;
        i := i + 1;
      }
      assert Valid();
      FirstIndexUnique(Contents, name, i);
    }

    /**
     * Unlinks the node at index `k`, whose neighbours are `before` (null at
     * the head) and `after` (null at the end): `after->prev = before`, then
     * `before->next` (or `head`) skips to `after`.
     */
    method UnlinkAt(ghost k: nat, before: Node?, after: Node?)
      requires Valid() && k < |nodes|
      requires before == (if k == 0 then null else nodes[k - 1])
      requires after == (if k == |nodes| - 1 then null else nodes[k + 1])
      modifies this, nodes
      ensures Valid()
      ensures nodes == RemoveAt(old(nodes), k)
      ensures Contents == RemoveAt(old(Contents), k)
    {
      ghost var was := nodes;
      NamesUnlink(was, k);
      DistinctRemoveAt(was, k);
      if after != null {
        after.prev := before;
      }
      if before == null {
        head := after;
      } else {
        before.next := after;
      }
      nodes := RemoveAt(was, k);
      Contents := RemoveAt(Contents, k);
      forall j | 0 <= j < |nodes| - 1
        ensures nodes[j].next == nodes[j + 1]
      {
        if j < k - 1 {
          assert nodes[j] == was[j] && nodes[j + 1] == was[j + 1];
          assert old(was[j].next) == was[j + 1];
        } else if j >= k {
          assert nodes[j] == was[j + 1] && nodes[j + 1] == was[j + 2];
          assert old(was[j + 1].next) == was[j + 2];
        }
      }
      forall j | 0 < j < |nodes|
        ensures nodes[j].prev == nodes[j - 1]
      {
        if j < k {
          assert nodes[j] == was[j] && nodes[j - 1] == was[j - 1];
          assert old(was[j].prev) == was[j - 1];
        } else if j > k {
          assert nodes[j] == was[j + 1] && nodes[j - 1] == was[j];
          assert old(was[j + 1].prev) == was[j];
        }
      }
    }

    /**
     * `delete_list`: advances `head` node by node until it is null,
     * releasing every node once, in list order. The new head's `prev` is left
     * pointing at the released node, so only the forward links are kept
     * along the way.
     */
    method DeleteList() returns (ghost freed: seq<Node>)
      requires Valid()
      modifies this
      ensures Valid() && head == null && nodes == [] && Contents == []
      ensures freed == old(nodes)
    {
      freed := [];
      while head != null
        invariant Contents == Names(nodes) && Linked(nodes)
        invariant head == (if nodes == [] then null else nodes[0])
        invariant freed + nodes == old(nodes)
        decreases |nodes|
      {
        freed := freed + [head];
        head := head.next;
        nodes := nodes[1..];
        Contents := Contents[1..];
      }
    }
  }
}
