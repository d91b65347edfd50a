/**
 * The linked stack of `int`s: `top` points to the most recently pushed node,
 * each node to the one pushed before it. A node's fields are set once when it
 * is pushed and never written again.
 *
 * The ghost sequence `nodes` lists the nodes from the top; `Contents` lists
 * their values.
 */
module StackLinkedList {

  class Node {
    const value: int
    const next: Node?

    constructor (value: int, next: Node?)
      ensures this.value == value && this.next == next
    {
      this.value := value;
      this.next := next;
    }
  }

  /** The values held by `nodes`, top first. */
  ghost function Values(nodes: seq<Node>): seq<int> {
    seq(|nodes|, i requires 0 <= i < |nodes| => nodes[i].value)
  }

  /** What `pop` returns and leaves behind: -1 and nothing on an empty stack,
      otherwise the top value and the values below it. */
  function Popped(s: seq<int>): (r: (int, seq<int>))
    ensures s == [] ==> r == (-1, [])
    ensures s != [] ==> [r.0] + r.1 == s
  {
    if s == [] then (-1, []) else (s[0], s[1..])
  }

  /** Popping right after a push returns the pushed value and the stack before it. */
  lemma PopAfterPush(s: seq<int>, value: int)
    ensures Popped([value] + s) == (value, s)
  {
    assert ([value] + s)[1..] == s;
  }

  /**
   * For a stack of values from 0 up, which is what the stack is meant to
   * hold, `pop` returns -1 exactly when the stack is empty.
   */
  lemma PopSentinel(s: seq<int>)
    requires forall i :: 0 <= i < |s| ==> s[i] >= 0
    ensures Popped(s).0 == -1 <==> s == []
  {
  }

  /** A pushed -1 is indistinguishable from the empty-stack sentinel. */
  lemma SentinelAmbiguous()
    ensures Popped([-1]).0 == Popped([]).0
    ensures Popped([-1]).1 == []
  {
  }

  class Stack {
    var top: Node?
    ghost var nodes: seq<Node>
    ghost var Contents: seq<int>

    ghost predicate Valid()
      reads this
    {
      && Contents == Values(nodes)
      && top == (if nodes == [] then null else nodes[0])
      && (forall i :: 0 <= i < |nodes| - 1 ==> nodes[i].next == nodes[i + 1])
      && (nodes != [] ==> nodes[|nodes| - 1].next == null)
    }

    /** `create_stack`: an empty stack. */
    constructor ()
      ensures Valid() && top == null && Contents == []
    {
      top := null;
      nodes := [];
      Contents := [];
    }

    /** `is_empty`: 1 when `top` is null, 0 otherwise. */
    function IsEmpty(): (r: int)
      requires Valid()
      reads this
      ensures r == 0 || r == 1
      ensures r == 1 <==> Contents == []
    {
      if top == null then 1 else 0
    }

    /** `push`: a new node holding `value` on top of the old top. */
    method Push(value: int)
      requires Valid()
      modifies this
      ensures Valid()
      ensures Contents == [value] + old(Contents)
      ensures fresh(top) && nodes == [top] + old(nodes)
    {
      var n := new Node(value, top);
      top := n;
      nodes := [n] + nodes;
      Contents := [value] + Contents;
    }

    /** `pop`: -1 on an empty stack; otherwise unlinks the top node and
        returns its value. */
    method Pop() returns (value: int)
      requires Valid()
      modifies this
      ensures Valid()
      ensures (value, Contents) == Popped(old(Contents))
      ensures nodes == (if old(nodes) == [] then [] else old(nodes)[1..])
    {
      if top == null {
        return -1;
      }
      value := top.value;
      top := top.next;
      nodes := nodes[1..];
      Contents := Contents[1..];
    }

    /** `delete_stack`: advances `top` node by node until it is null,
        releasing every node once, from the top down. */
    method DeleteStack() returns (ghost freed: seq<Node>)
      requires Valid()
      modifies this
      ensures Valid() && top == null && Contents == []
      ensures freed == old(nodes)
    {
      freed := [];
      while top != null
        invariant Valid()
        invariant freed + nodes == old(nodes)
        decreases |nodes|
      {
        freed := freed + [top];
        top := top.next;
        nodes := nodes[1..];
        Contents := Contents[1..];
      }
    }
  }
}
