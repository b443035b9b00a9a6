/**
 * The singly linked list of pointers (list.c), whose nodes come from a heap that may be
 * exhausted. A list is known by the sequence of its nodes.
 */
module Lists {

  class Node<T(==)> {
    var next: Node?<T>
    var data: T

    constructor (data: T)
      ensures this.data == data && next == null
    {
      this.data := data;
      next := null;
    }
  }

  /** The nodes reached from head through next are these, none of them twice, and then null. */
  ghost predicate IsList<T>(head: Node?<T>, nodes: seq<Node<T>>)
    reads nodes
  {
    && head == NodeOrNull(nodes, 0)
    && (forall i, j :: 0 <= i < j < |nodes| ==> nodes[i] != nodes[j])
    && forall i :: 0 <= i < |nodes| ==> nodes[i].next == NodeOrNull(nodes, i + 1)
  }

  ghost function NodeOrNull<T>(nodes: seq<Node<T>>, i: int): Node?<T> {
    if 0 <= i < |nodes| then nodes[i] else null
  }

  ghost function Data<T>(nodes: seq<Node<T>>): (xs: seq<T>)
    reads nodes
    ensures |xs| == |nodes|
    ensures forall i :: 0 <= i < |nodes| ==> xs[i] == nodes[i].data
  {
    seq(|nodes|, i requires 0 <= i < |nodes| reads nodes => nodes[i].data)
  }

  /** The head alone determines the nodes of a list. */
  lemma {:induction false} NodesAreUnique<T>(head: Node?<T>, nodes: seq<Node<T>>, others: seq<Node<T>>, n: nat)
    requires IsList(head, nodes) && IsList(head, others)
    ensures n < |nodes| ==> n < |others| && nodes[n] == others[n]
    ensures n < |others| ==> n < |nodes| && nodes[n] == others[n]
  {
    if n > 0 {
      NodesAreUnique(head, nodes, others, n - 1);
    }
  }

  /** The position of the first x, or the length when there is none. */
  ghost function FirstIndex<T>(xs: seq<T>, x: T): (k: nat)
    ensures k <= |xs| && (k < |xs| ==> xs[k] == x)
    ensures forall i :: 0 <= i < k ==> xs[i] != x
  {
    if xs == [] || xs[0] == x then 0 else 1 + FirstIndex(xs[1..], x)
  }

  lemma FirstIndexIs<T>(xs: seq<T>, x: T, k: nat)
    requires k <= |xs| && (k < |xs| ==> xs[k] == x)
    requires forall i :: 0 <= i < k ==> xs[i] != x
    ensures FirstIndex(xs, x) == k
  {
    hide FirstIndex;
  }

  ghost function RemoveAt<U>(xs: seq<U>, k: nat): (ys: seq<U>)
    ensures k >= |xs| ==> ys == xs
    ensures k < |xs| ==> |ys| == |xs| - 1 && forall i :: 0 <= i < |ys| ==> ys[i] == xs[if i < k then i else i + 1]
  {
    if k < |xs| then xs[..k] + xs[k + 1..] else xs
  }

  method ListCreateNode<T>(data: T, hasMemory: bool) returns (newNode: Node?<T>)
    ensures hasMemory <==> newNode != null
    ensures newNode != null ==> fresh(newNode) && newNode.data == data && newNode.next == null
  {
    if !hasMemory {
      return null;
    }
    newNode := new Node(data);
  }

  /** Walks to the last node of a list that has one. */
  method LastNode<T>(head: Node<T>, ghost nodes: seq<Node<T>>) returns (temp: Node<T>)
    requires IsList(head, nodes)
    ensures nodes != [] && temp == nodes[|nodes| - 1]
  {
    temp := head;
    ghost var i := 0;
    while temp.next != null
      invariant 0 <= i < |nodes| && temp == nodes[i]
      decreases |nodes| - i
    {
      temp := temp.next;
      i := i + 1;
    }
  }

  /** Appends a node for the data; without memory for one the list stays as it is. */
  method ListAddNode<T>(head: Node?<T>, data: T, hasMemory: bool, ghost nodes: seq<Node<T>>)
    returns (head': Node?<T>, ghost nodes': seq<Node<T>>)
    requires IsList(head, nodes)
    modifies if nodes == [] then {} else {nodes[|nodes| - 1]}
    ensures IsList(head', nodes')
    ensures if hasMemory then |nodes'| == |nodes| + 1 && nodes'[..|nodes|] == nodes && fresh(nodes'[|nodes|])
            else nodes' == nodes
    ensures Data(nodes') == old(Data(nodes)) + if hasMemory then [data] else []
  {
    var newNode := ListCreateNode(data, hasMemory);
    nodes' := if newNode == null then nodes else nodes + [newNode];
    head' := head;
    if head == null {
      head' := newNode;
    } else {
      var temp := LastNode(head, nodes);
      temp.next := newNode;
    }
  }

  /** Once the node before it points past it, node k is no longer in the list. */
  lemma UnlinkedIsList<T>(head: Node?<T>, nodes: seq<Node<T>>, k: nat)
    requires k < |nodes| && head == NodeOrNull(nodes, if k == 0 then 1 else 0)
    requires forall i, j :: 0 <= i < j < |nodes| ==> nodes[i] != nodes[j]
    requires forall i :: 0 <= i < |nodes| ==> nodes[i].next == NodeOrNull(nodes, if i == k - 1 then i + 2 else i + 1)
    ensures IsList(head, RemoveAt(nodes, k))
    ensures Data(RemoveAt(nodes, k)) == RemoveAt(Data(nodes), k)
  {
    var rest := RemoveAt(nodes, k);
    assert forall i :: 0 <= i < |rest| ==> rest[i].next == NodeOrNull(rest, i + 1);
  }

  /** Walks to the first node with the given data, if there is one, and to the node before it. */
  method FindNode<T>(head: Node?<T>, data: T, ghost nodes: seq<Node<T>>)
    returns (temp: Node?<T>, prev: Node?<T>)
    requires IsList(head, nodes)
    ensures temp == NodeOrNull(nodes, FirstIndex(Data(nodes), data))
    ensures prev == NodeOrNull(nodes, FirstIndex(Data(nodes), data) - 1)
  {
    temp, prev := head, null;
    ghost var k := 0;
    while temp != null && temp.data != data
      invariant 0 <= k <= |nodes| && temp == NodeOrNull(nodes, k) && prev == NodeOrNull(nodes, k - 1)
      invariant forall i :: 0 <= i < k ==> nodes[i].data != data
      decreases |nodes| - k
    {
      prev := temp;
      temp := temp.next;
      k := k + 1;
    }
    FirstIndexIs(Data(nodes), data, k);
  }

  /** Unlinks and frees the first node with the given data; no other node is freed or moved. */
  method ListRemoveNode<T>(head: Node?<T>, data: T, ghost nodes: seq<Node<T>>)
    returns (head': Node?<T>, freed: Node?<T>, ghost nodes': seq<Node<T>>)
    requires IsList(head, nodes)
    modifies nodes
    ensures IsList(head', nodes')
    ensures var k := FirstIndex(old(Data(nodes)), data);
      && nodes' == RemoveAt(nodes, k) && freed == NodeOrNull(nodes, k)
      && Data(nodes') == RemoveAt(old(Data(nodes)), k)
  {
    hide FirstIndex, RemoveAt;
    head', freed, nodes' := head, null, nodes;
    if head == null {
      return;
    }
    if head.data == data {
      FirstIndexIs(Data(nodes), data, 0);
      UnlinkedIsList(head.next, nodes, 0);
      return head.next, head, RemoveAt(nodes, 0);
    }
    ghost var k := FirstIndex(Data(nodes), data);
    var temp, prev := FindNode(head, data, nodes);
    if temp == null {
      return;
    }
    prev.next := temp.next;
    assert Data(nodes) == old(Data(nodes));
    UnlinkedIsList(head, nodes, k);
    freed, nodes' := temp, RemoveAt(nodes, k);
  }

  /** Frees every node, in order. */
  method ListDelete<T>(head: Node?<T>, ghost nodes: seq<Node<T>>) returns (freed: seq<Node<T>>)
    requires IsList(head, nodes)
    ensures freed == nodes
  {
    freed := [];
    var rest := head;
    while rest != null
      invariant |freed| <= |nodes| && freed == nodes[..|freed|] && rest == NodeOrNull(nodes, |freed|)
      decreases |nodes| - |freed|
    {
      freed := freed + [rest];
      rest := rest.next;
    }
  }

  method ListGetSize<T>(head: Node?<T>, ghost nodes: seq<Node<T>>) returns (size: nat)
    requires IsList(head, nodes)
    ensures size == |nodes|
  {
    size := 0;
    var temp := head;
    while temp != null
      invariant size <= |nodes| && temp == NodeOrNull(nodes, size)
      decreases |nodes| - size
    {
      size := size + 1;
      temp := temp.next;
    }
  }

  /** The node at an index, or null when there is none. */
  method ListGetNode<T>(head: Node?<T>, index: int, ghost nodes: seq<Node<T>>) returns (node: Node?<T>)
    requires IsList(head, nodes)
    ensures node == NodeOrNull(nodes, index)
  {
    var currentIndex := 0;
    node := head;
    while node != null
      invariant 0 <= currentIndex <= |nodes| && node == NodeOrNull(nodes, currentIndex)
      invariant !(0 <= index < currentIndex)
      decreases |nodes| - currentIndex
    {
      if currentIndex == index {
        return;
      }
      currentIndex := currentIndex + 1;
      node := node.next;
    }
  }

  // Whole runs.

  datatype Change<T> = Add(data: T, hasMemory: bool) | Remove(data: T)

  /** What a run of changes makes of the sequence that a list stands for. */
  ghost function Changed<T>(xs: seq<T>, run: seq<Change<T>>): seq<T> {
    if run == [] then xs
    else
      var n := |run| - 1;
      var before := Changed(xs, run[..n]);
      match run[n]
      case Add(x, hasMemory) => if hasMemory then before + [x] else before
      case Remove(x) => RemoveAt(before, FirstIndex(before, x))
  }

  method ListChange<T>(head: Node?<T>, change: Change<T>, ghost nodes: seq<Node<T>>)
    returns (head': Node?<T>, ghost nodes': seq<Node<T>>)
    requires IsList(head, nodes)
    modifies nodes
    ensures IsList(head', nodes') && forall i :: 0 <= i < |nodes'| ==> nodes'[i] in nodes || fresh(nodes'[i])
    ensures Data(nodes') == Changed(old(Data(nodes)), [change])
  {
    assert Changed(Data(nodes), []) == Data(nodes);
    match change
    case Add(x, hasMemory) =>
      head', nodes' := ListAddNode(head, x, hasMemory, nodes);
    case Remove(x) =>
      var freed;
      head', freed, nodes' := ListRemoveNode(head, x, nodes);
  }

  lemma ChangedStep<T>(xs: seq<T>, run: seq<Change<T>>, i: nat)
    requires i < |run|
    ensures Changed(xs, run[..i + 1]) == Changed(Changed(xs, run[..i]), [run[i]])
  {
    assert run[..i + 1][..i] == run[..i];
    assert Changed(Changed(xs, run[..i]), []) == Changed(xs, run[..i]);
  }

  /** After any run of additions and removals the list is well formed and holds that sequence. */
  method ListRun<T>(head: Node?<T>, run: seq<Change<T>>, ghost nodes: seq<Node<T>>)
    returns (head': Node?<T>, ghost nodes': seq<Node<T>>)
    requires IsList(head, nodes)
    modifies nodes
    ensures IsList(head', nodes')
    ensures Data(nodes') == Changed(old(Data(nodes)), run)
  {
    hide IsList, Changed;
    head', nodes' := head, nodes;
    NothingChanged(Data(nodes), run);
    for i := 0 to |run|
      invariant forall i :: 0 <= i < |nodes'| ==> nodes'[i] in nodes || fresh(nodes'[i])
      invariant IsList(head', nodes') && Data(nodes') == Changed(old(Data(nodes)), run[..i])
    {
      ChangedStep(old(Data(nodes)), run, i);
      head', nodes' := ListChange(head', run[i], nodes');
    }
  }

  lemma NothingChanged<T>(xs: seq<T>, run: seq<Change<T>>)
    ensures Changed(xs, run[..0]) == xs && run[..|run|] == run
  {
  }

  lemma OneTaken<T>(xs: seq<T>, k: nat)
    requires k < |xs|
    ensures multiset(xs[..k] + xs[k + 1..]) == multiset(xs) - multiset{xs[k]}
  {
    assert xs == xs[..k] + [xs[k]] + xs[k + 1..];
  }

  /** Removing takes out one occurrence, and nothing when there is none. */
  lemma RemovalTakesOne<T>(xs: seq<T>, x: T)
    ensures multiset(RemoveAt(xs, FirstIndex(xs, x))) == multiset(xs) - multiset{x}
    ensures x !in xs ==> RemoveAt(xs, FirstIndex(xs, x)) == xs
  {
    hide FirstIndex;
    var k := FirstIndex(xs, x);
    if k < |xs| {
      OneTaken(xs, k);
    } else {
      assert x !in multiset(xs);
    }
  }
}
