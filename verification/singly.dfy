/**
 * The sorted singly linked list of names: heap nodes linked through `next`,
 * kept in `strcmp` order by `insert`, searched with an early stop by
 * `delete_node`.
 *
 * The ghost sequence `nodes` lists the nodes from the head; `Contents` lists
 * their names. `Valid()` ties both to the `head` and `next` pointers.
 */
module SinglyLinkedList {
  import opened CStrings
  import opened Chains

  class Node {
    const name: Name
    var next: Node?

    constructor (name: Name)
      ensures this.name == name && next == null
    {
      this.name := name;
      next := null;
    }
  }

  /** The names held by `nodes`, in list order. */
  ghost function Names(nodes: seq<Node>): seq<Name> {
    seq(|nodes|, i requires 0 <= i < |nodes| => nodes[i].name)
  }

  lemma NamesSplice(nodes: seq<Node>, k: nat, n: Node)
    requires k <= |nodes|
    ensures Names(InsertAt(nodes, k, n)) == InsertAt(Names(nodes), k, n.name)
  {
  }

  lemma NamesUnlink(nodes: seq<Node>, k: nat)
    requires k < |nodes|
    ensures Names(RemoveAt(nodes, k)) == RemoveAt(Names(nodes), k)
  {
  }

  /** Each node's `next` is its successor in `nodes`; the last one's is null. */
  ghost predicate Linked(nodes: seq<Node>)
    reads nodes
  {
    && (forall i :: 0 <= i < |nodes| - 1 ==> nodes[i].next == nodes[i + 1])
    && (nodes != [] ==> nodes[|nodes| - 1].next == null)
  }

  class List {
    var head: Node?
    ghost var nodes: seq<Node>
    ghost var Contents: seq<Name>

    ghost predicate Valid()
      reads this, nodes
    {
      && Contents == Names(nodes)
      && head == (if nodes == [] then null else nodes[0])
      && Linked(nodes)
      && Distinct(nodes)
    }

    /** `create_list`: an empty list. */
    constructor ()
      ensures Valid() && head == null && nodes == [] && Contents == []
    {
      head := null;
      nodes := [];
      Contents := [];
    }

    /**
     * `insert`: a new node goes to the head when the list is empty or the
     * head's name is strictly greater; otherwise after the head and after
     * every following node whose name is strictly smaller.
     */
    method Insert(name: Name)
      requires Valid() && IsName(name)
      modifies this, nodes
      ensures Valid()
      ensures Contents == InsertAt(old(Contents), SplicePoint(old(Contents), name), name)
      ensures fresh(nodes[SplicePoint(old(Contents), name)])
      ensures RemoveAt(nodes, SplicePoint(old(Contents), name)) == old(nodes)
      ensures multiset(Contents) == multiset(old(Contents)) + multiset{name}
      ensures Sorted(old(Contents)) ==> Sorted(Contents)
    {
      var n := new Node(name);
      var before, k := FindSplice(name);
      SpliceAfter(before, k, n);
      InsertAtContents(old(nodes), k, n);
      SplicePointSorted(old(Contents), name);
    }

    /**
     * The node `insert` links the new one after: none (a new head) when the
     * list is empty or the head is strictly greater, otherwise the node the
     * `strcmp(next, name) < 0` walk stops on.
     */
    method FindSplice(name: Name) returns (before: Node?, ghost k: nat)
      requires Valid()
      ensures k == SplicePoint(Contents, name)
      ensures if k == 0 then before == null else before == nodes[k - 1]
    {
      if head == null || StrCmp(head.name, name) > 0 {
        before, k := null, 0;
      } else {
        ghost var i;
        before, i := WalkBelow(name);
        k := i + 1;
      }
    }

    /**
     * Links the fresh node `n` in at index `k`: at the head when `k` is 0
     * (`n->next = head; head = n`), otherwise right after `before`, the node
     * at index `k - 1` (`n->next = before->next; before->next = n`).
     */
    method SpliceAfter(before: Node?, ghost k: nat, n: Node)
      requires Valid() && k <= |nodes|
      requires if k == 0 then before == null else before == nodes[k - 1]
      requires n !in nodes && n.next == null
      modifies this, nodes, n
      ensures Valid()
      ensures nodes == InsertAt(old(nodes), k, n)
      ensures Contents == InsertAt(old(Contents), k, n.name)
    {
      ghost var was := nodes;
      NamesSplice(was, k, n);
      DistinctInsertAt(was, k, n);
      if before == null {
        n.next := head;
        head := n;
      } else {
        n.next := before.next;
        before.next := n;
      }
      nodes := InsertAt(was, k, n);
      Contents := InsertAt(Contents, k, n.name);
      forall j | 0 <= j < |nodes| - 1
        ensures nodes[j].next == nodes[j + 1]
      {
        if j < k - 1 {
          assert nodes[j] == was[j] && nodes[j + 1] == was[j + 1];
          assert old(was[j].next) == was[j + 1];
        } else if j > k {
          assert nodes[j] == was[j - 1] && nodes[j + 1] == was[j];
          assert old(was[j - 1].next) == was[j];
        }
      }
    }

    /**
     * `delete_node`: returns 0 on an empty list; unlinks the head when it
     * matches; otherwise stops at the first node after the head whose name is
     * not strictly smaller and unlinks it only when it matches.
     */
    method DeleteNode(name: Name) returns (found: int)
      requires Valid()
      modifies this, nodes
      ensures Valid()
      ensures old(Contents) == [] ==> found == 0
      ensures var k := ProbePoint(old(Contents), name);
        if k < |old(Contents)| && old(Contents)[k] == name
        then found == 1 && Contents == RemoveAt(old(Contents), k) && nodes == RemoveAt(old(nodes), k)
        else found == 0 && Contents == old(Contents) && nodes == old(nodes)
      ensures Sorted(old(Contents)) ==>
        && (found == 1 <==> name in old(Contents))
        && Contents == RemoveFirst(old(Contents), name)
        && Sorted(Contents)
    {
      ghost var k := ProbePoint(Contents, name);
      if head == null {
        found := 0;
      } else if StrCmp(head.name, name) == 0 {
        assert k == 0;
        Unlink(null, 0);
        found := 1;
      } else {
        var current, i := WalkBelow(name);
        assert k == i + 1;
        if current.next == null || StrCmp(current.next.name, name) != 0 {
          found := 0;
        } else {
          Unlink(current, k);
          found := 1;
        }
      }
      if Sorted(old(Contents)) {
        ProbeFindsFirst(old(Contents), name);
        RemoveFirstSorted(old(Contents), name);
      }
    }

    /**
     * Unlinks the node at index `k`: the head when `k` is 0
     * (`head = head->next`), otherwise the successor of `before`, the node at
     * index `k - 1` (`before->next = before->next->next`).
     */
    method Unlink(before: Node?, ghost k: nat)
      requires Valid() && k < |nodes|
      requires if k == 0 then before == null else before == nodes[k - 1]
      modifies this, nodes
      ensures Valid()
      ensures nodes == RemoveAt(old(nodes), k)
      ensures Contents == RemoveAt(old(Contents), k)
    {
      ghost var was := nodes;
      NamesUnlink(was, k);
      DistinctRemoveAt(was, k);
      if before == null {
        head := head.next;
      } else {
        before.next := before.next.next;
      }
      nodes := RemoveAt(was, k);
      Contents := RemoveAt(Contents, k);
      forall j | 0 <= j < |nodes| - 1
        ensures nodes[j].next == nodes[j + 1]
      {
        if j < k - 1 {
          assert nodes[j] == was[j] && nodes[j + 1] == was[j + 1];
          assert old(was[j].next) == was[j + 1];
        } else if j >= k {
          assert nodes[j] == was[j + 1] && nodes[j + 1] == was[j + 2];
          assert old(was[j + 1].next) == was[j + 2];
        }
      }
    }

    /**
     * The scan both `insert` and `delete_node` run from the head:
     * `while (current->next != NULL && strcmp(current->next->name, name) < 0)`.
     * It stops on the node after which every name is no longer below `name`.
     */
    method WalkBelow(name: Name) returns (current: Node, ghost i: nat)
      requires Valid() && head != null
      ensures i < |nodes| && current == nodes[i]
      ensures i == ScanLess(Contents[1..], name)
    {
      current := head;
      i := 0;
      while current.next != null && StrCmp(current.next.name, name) < 0
        invariant 0 <= i < |nodes| && current == nodes[i]
        invariant forall j :: 1 <= j <= i ==> Less(Contents[j], name)
        decreases |nodes| - i
      {
        assert Valid();
        current := current.next;
        i := i + 1;
      }
      assert Valid();
      ScanLessUnique(Contents[1..], name, i);
    }

    /** `delete_list`: advances `head` node by node until it is null,
        releasing every node once, in list order. */
    method DeleteList() returns (ghost freed: seq<Node>)
      requires Valid()
      modifies this
      ensures Valid() && head == null && nodes == [] && Contents == []
      ensures freed == old(nodes)
    {
      freed := [];
      while head != null
        invariant Contents == Names(nodes) && Linked(nodes)
        invariant head == (if nodes == [] then null else nodes[0])
        invariant freed + nodes == old(nodes)
        decreases |nodes|
      {
        freed := freed + [head];
        head := head.next;
        nodes := nodes[1..];
        Contents := Contents[1..];
      }
    }
  }
}
