/** The singly-linked string lists of utils.c (slist): append, prepend,
    destructive reversal and membership. A list is a chain of nodes;
    the ghost sequence `nodes` names its nodes in order, so that the
    strings a list holds are Strings(nodes). */
module StringList {
  import opened Common

  /** One element: its own copy of a string and the link to the next
      element (null at the end). */
  class SNode {
    const str: string
    var next: SNode?

    constructor (s: string, next: SNode?)
      ensures str == s && this.next == next
    {
      str := s;
      this.next := next;
    }
  }

  /** `head` starts a well-formed list whose nodes are `nodes`, in
      order: each node links to the one after it, the last one to null,
      and no node occurs twice (there is no cycle). */
  ghost predicate IsList(head: SNode?, nodes: seq<SNode>)
    reads nodes
  {
    (if nodes == [] then head == null else head == nodes[0]) &&
    (forall i :: 0 <= i < |nodes| - 1 ==> nodes[i].next == nodes[i + 1]) &&
    (nodes != [] ==> nodes[|nodes| - 1].next == null) &&
    (forall i, j :: 0 <= i < j < |nodes| ==> nodes[i] != nodes[j])
  }

  /** The strings of the nodes, in list order. */
  function Strings(nodes: seq<SNode>): (r: seq<string>)
    ensures |r| == |nodes|
  {
    seq(|nodes|, i requires 0 <= i < |nodes| => nodes[i].str)
  }

  /** slist_prepend: a new first node holding `s`; the old list follows
      it unchanged. */
  method SlistPrepend(l: SNode?, s: string, ghost nodes: seq<SNode>)
    returns (r: SNode, ghost newNodes: seq<SNode>)
    requires IsList(l, nodes)
    ensures fresh(r) && newNodes == [r] + nodes
    ensures IsList(r, newNodes) && Strings(newNodes) == [s] + Strings(nodes)
  {
    r := new SNode(s, l);
    newNodes := [r] + nodes;
  }

  /** slist_append: a new node holding `s` linked after the last node;
      the list keeps its head unless it was empty. */
  method SlistAppend(l: SNode?, s: string, ghost nodes: seq<SNode>)
    returns (r: SNode, ghost newNodes: seq<SNode>)
    requires IsList(l, nodes)
    modifies set i | 0 <= i < |nodes| :: nodes[i]
    ensures |newNodes| == |nodes| + 1 && newNodes[..|nodes|] == nodes && fresh(newNodes[|nodes|])
    ensures IsList(r, newNodes) && Strings(newNodes) == Strings(nodes) + [s]
    ensures l != null ==> r == l
  {
    var newel := new SNode(s, null);
    if l == null {
      r, newNodes := newel, [newel];
      return;
    }
    var last := l;
    ghost var k := 0;
    while last.next != null
      invariant 0 <= k < |nodes| && last == nodes[k]
      invariant IsList(l, nodes)
      decreases |nodes| - k
    {
      last := last.next;
      k := k + 1;
    }
    LinkOf(l, nodes, k);
    last.next := newel;
    r, newNodes := l, nodes + [newel];
    assert newNodes[..|nodes|] == nodes;
    assert forall i :: 0 <= i < |nodes| ==> Strings(newNodes)[i] == Strings(nodes)[i];
  }

  /** Every node but the last links to its successor. */
  lemma LinkOf(l: SNode?, nodes: seq<SNode>, k: nat)
    requires IsList(l, nodes) && k < |nodes|
    ensures k < |nodes| - 1 ==> nodes[k].next == nodes[k + 1]
  {
  }

  /** slist_nreverse: relink every node to its predecessor; the old last
      node becomes the head. */
  method SlistNreverse(l: SNode?, ghost nodes: seq<SNode>) returns (r: SNode?)
    requires IsList(l, nodes)
    modifies set i | 0 <= i < |nodes| :: nodes[i]
    ensures IsList(r, Reverse(nodes))
  {
    var prev: SNode? := null;
    var cur := l;
    ghost var k := 0;
    while cur != null
      invariant 0 <= k <= |nodes|
      invariant cur == if k < |nodes| then nodes[k] else null
      invariant prev == if k == 0 then null else nodes[k - 1]
      invariant forall i :: 0 < i < k ==> nodes[i].next == nodes[i - 1]
      invariant k > 0 ==> nodes[0].next == null
      invariant forall i :: k <= i < |nodes| - 1 ==> nodes[i].next == nodes[i + 1]
      invariant k < |nodes| ==> nodes[|nodes| - 1].next == null
      decreases |nodes| - k
    {
      var next := cur.next;
      cur.next := prev;
      prev := cur;
      cur := next;
      k := k + 1;
    }
    ReversedLinks(nodes);
    r := prev;
  }

  /** Nodes each linked to their predecessor, the first to null, form
      the list of the reversed node sequence. */
  lemma ReversedLinks(nodes: seq<SNode>)
    requires forall i :: 0 < i < |nodes| ==> nodes[i].next == nodes[i - 1]
    requires nodes != [] ==> nodes[0].next == null
    requires forall i, j :: 0 <= i < j < |nodes| ==> nodes[i] != nodes[j]
    ensures IsList(if nodes == [] then null else nodes[|nodes| - 1], Reverse(nodes))
  {
    var n := |nodes|;
    var rev := Reverse(nodes);
    ReverseLength(nodes);
    forall j | 0 <= j < n ensures rev[j] == nodes[n - 1 - j] {
      ReverseAt(nodes, j);
    }
    if nodes == [] {
      assert rev == [];
    }
  }

  /** The strings of the reversed list are the reversed strings. */
  lemma StringsOfReverse(nodes: seq<SNode>)
    ensures Strings(Reverse(nodes)) == Reverse(Strings(nodes))
  {
    var n := |nodes|;
    ReverseLength(nodes);
    ReverseLength(Strings(nodes));
    forall j | 0 <= j < n ensures Strings(Reverse(nodes))[j] == Reverse(Strings(nodes))[j] {
      ReverseAt(nodes, j);
      ReverseAt(Strings(nodes), j);
    }
  }

  /** slist_contains: true iff some element equals `s`. */
  method SlistContains(l: SNode?, s: string, ghost nodes: seq<SNode>) returns (found: bool)
    requires IsList(l, nodes)
    ensures found <==> s in Strings(nodes)
  {
    var cur := l;
    ghost var k := 0;
    while cur != null
      invariant 0 <= k <= |nodes|
      invariant cur == if k < |nodes| then nodes[k] else null
      invariant forall i :: 0 <= i < k ==> nodes[i].str != s
      decreases |nodes| - k
    {
      if cur.str == s {
        assert Strings(nodes)[k] == s;
        return true;
      }
      cur := cur.next;
      k := k + 1;
    }
    return false;
  }

  /** Building a list by prepending and then reversing it, as the
      comment on slist_append recommends, yields the strings in the
      order they were added. */
  lemma PrependThenReverse(nodes: seq<SNode>, added: seq<string>)
    requires Strings(nodes) == Reverse(added)
    ensures Strings(Reverse(nodes)) == added
  {
    StringsOfReverse(nodes);
    ReverseReverse(added);
  }
}
