/**
 Singly linked lists, as both registries of the daemon build them: nodes changed in place, described
 by the sequence of nodes reachable from the head.
 */
module Chains {

  class Node<T> {
    var item: T
    var next: Node?<T>

    constructor (item: T, next: Node?<T>)
      ensures this.item == item && this.next == next
    {
      this.item, this.next := item, next;
    }
  }

  ghost function NodeAt<T>(nodes: seq<Node<T>>, i: nat): Node?<T> {
    if i < |nodes| then nodes[i] else null
  }

  ghost predicate DistinctNodes<T>(nodes: seq<Node<T>>) {
    forall i, j :: 0 <= i < j < |nodes| ==> nodes[i] != nodes[j]
  }

  /** `nodes` is what one meets from `head` on. */
  ghost predicate Chain<T>(head: Node?<T>, nodes: seq<Node<T>>)
    reads nodes
  {
    && head == NodeAt(nodes, 0)
    && DistinctNodes(nodes)
    && forall i {:trigger nodes[i].next} :: 0 <= i < |nodes| ==> nodes[i].next == NodeAt(nodes, i + 1)
  }

  lemma StartOfChain<T>(head: Node?<T>, nodes: seq<Node<T>>)
    requires Chain(head, nodes)
    ensures head == NodeAt(nodes, 0)
  {
  }

  lemma NextInChain<T>(head: Node?<T>, nodes: seq<Node<T>>, i: nat)
    requires Chain(head, nodes) && i < |nodes|
    ensures nodes[i].next == NodeAt(nodes, i + 1)
  {
  }

  ghost function Items<T>(nodes: seq<Node<T>>): (r: seq<T>)
    reads nodes
    ensures |r| == |nodes|
    ensures forall i :: 0 <= i < |nodes| ==> r[i] == nodes[i].item
  {
    seq(|nodes|, i requires 0 <= i < |nodes| reads nodes => nodes[i].item)
  }

  ghost function Without<T>(s: seq<T>, i: nat): (r: seq<T>)
    requires i < |s|
    ensures |r| == |s| - 1
    ensures forall k :: 0 <= k < |r| ==> r[k] == s[if k < i then k else k + 1]
    ensures forall x :: x in r ==> x in s
  {
    s[..i] + s[i + 1..]
  }

  /** Put a new node in front. */
  method Prepend<T>(head: Node?<T>, item: T, ghost nodes: seq<Node<T>>) returns (node: Node<T>)
    requires Chain(head, nodes)
    ensures fresh(node) && node.item == item
    ensures Chain(node, [node] + nodes) && Items([node] + nodes) == [item] + Items(nodes)
  {
    node := new Node(item, head);
    ConsChain(node, head, nodes);
  }

  lemma ConsChain<T>(node: Node<T>, head: Node?<T>, nodes: seq<Node<T>>)
    requires Chain(head, nodes) && node !in nodes && node.next == head
    ensures Chain(node, [node] + nodes) && Items([node] + nodes) == [node.item] + Items(nodes)
  {
    var all := [node] + nodes;
    forall i | 0 <= i < |all|
      ensures all[i].next == NodeAt(all, i + 1)
    {
      if i > 0 {
        assert all[i] == nodes[i - 1];
      }
      assert NodeAt(all, i + 1) == NodeAt(nodes, i);
    }
  }

  /** Replace the item of the node at `at`. */
  method SetItem<T>(node: Node<T>, item: T, ghost head: Node?<T>, ghost nodes: seq<Node<T>>, ghost at: nat)
    requires Chain(head, nodes) && at < |nodes| && node == nodes[at]
    modifies node`item
    ensures Chain(head, nodes) && Items(nodes) == old(Items(nodes))[at := item]
  {
    node.item := item;
  }

  /** Take the node at `at`, whose predecessor is `prev`, out of the list. */
  method Unlink<T>(head: Node?<T>, prev: Node?<T>, node: Node<T>, ghost nodes: seq<Node<T>>, ghost at: nat)
    returns (newHead: Node?<T>)
    requires Chain(head, nodes) && at < |nodes| && node == nodes[at]
    requires prev == if at == 0 then null else nodes[at - 1]
    modifies nodes
    ensures Chain(newHead, Without(nodes, at))
    ensures Items(Without(nodes, at)) == Without(old(Items(nodes)), at)
  {
    newHead := head;
    ghost var rest := Without(nodes, at);
    if prev != null {
      prev.next := node.next;
    } else {
      newHead := node.next;
    }
    forall i | 0 <= i < |rest|
      ensures rest[i].next == NodeAt(rest, i + 1)
    {
      assert rest[i] == nodes[if i < at then i else i + 1];
    }
  }
}
