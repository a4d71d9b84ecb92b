/**
  The singly-linked list of Linked_list.py: `Node` objects chained through
  their `nextNode` field, owned by a `LinkedList` through `headNode`.

  A list's ghost field `nodes` is its chain in order; `Valid()` ties the
  real pointers to it and keeps the nodes distinct, which is what makes the
  chain acyclic and finite. The ghost field `Repr` is the list's footprint:
  the list itself and every node of its chain; a node unlinked from the
  chain leaves it.
 */
module LinkedLists {
  import opened Chain

  class Node<T> {
    // The source never reassigns a node's value after construction.
    const value: T
    var nextNode: Node?<T>

    constructor (value: T, nextNode: Node?<T>)
      ensures this.value == value && this.nextNode == nextNode
    {
      this.value := value;
      this.nextNode := nextNode;
    }

    function GetNodeValue(): (v: T)
      ensures v == value
    {
      value
    }

    function GetNextNode(): (n: Node?<T>)
      reads this
      ensures n == nextNode
    {
      nextNode
    }

    method SetNextNode(n: Node?<T>)
      modifies this
      ensures nextNode == n
    {
      nextNode := n;
    }
  }

  /** The values held by a chain of nodes, in order. */
  ghost function Values<T>(ns: seq<Node<T>>): seq<T>
  {
    seq(|ns|, i requires 0 <= i < |ns| => ns[i].value)
  }

  /** The node that follows ns[i] in the chain, or null after the last. */
  ghost function Successor<T>(ns: seq<Node<T>>, i: nat): Node?<T>
  {
    if i + 1 < |ns| then ns[i + 1] else null
  }

  /** No node occurs twice: following the links from the head never comes
      back to a node already visited. */
  ghost predicate Distinct<T>(ns: seq<Node<T>>)
  {
    forall i, j :: 0 <= i < j < |ns| ==> ns[i] != ns[j]
  }

  /** Splicing out ns[i + 1]: where each remaining node sits, what follows
      it, and that the chain stays free of repeats. */
  lemma SpliceFacts<T>(ns: seq<Node<T>>, i: nat)
    requires i + 1 < |ns| && Distinct(ns)
    ensures var r := ns[..i + 1] + ns[i + 2..];
      && |r| == |ns| - 1
      && Distinct(r)
      && Values(r) == Values(ns)[..i + 1] + Values(ns)[i + 2..]
      && (forall j :: 0 <= j <= i ==> r[j] == ns[j])
      && (forall j :: i < j < |r| ==> r[j] == ns[j + 1])
      && (forall j :: 0 <= j < |r| ==> r[j] != ns[i + 1])
      && (forall j :: 0 <= j < |r| ==> Successor(r, j) == Successor(ns, if j < i then j else j + 1))
  {
  }

  class LinkedList<T(==)> {
    var headNode: Node?<T>
    ghost var nodes: seq<Node<T>>
    ghost var Repr: set<object>

    ghost predicate Valid()
      reads this, Repr
    {
      && this in Repr
      && (forall i :: 0 <= i < |nodes| ==> nodes[i] in Repr)
      && headNode == (if nodes == [] then null else nodes[0])
      && (forall i :: 0 <= i < |nodes| ==> nodes[i].nextNode == Successor(nodes, i))
      && Distinct(nodes)
    }

    /** The values of the chain from the head, in order. */
    ghost function Contents(): seq<T>
      reads this
    {
      Values(nodes)
    }

    constructor (value: T)
      ensures Valid() && fresh(Repr) && Contents() == [value]
    {
      var n := new Node(value, null);
      headNode := n;
      nodes := [n];
      Repr := {this, n};
    }

    method GetHeadNode() returns (h: Node?<T>)
      requires Valid()
      ensures h == headNode
      ensures h == null <==> Contents() == []
      ensures h != null ==> h == nodes[0] && h.value == Contents()[0]
    {
      h := headNode;
    }

    /** A new node holding `addValue` becomes the head; every existing node
        stays, in order, behind it. */
    method AddNodeToBeginning(addValue: T)
      requires Valid()
      modifies this
      ensures Valid()
      ensures fresh(Repr - old(Repr))
      ensures |nodes| == |old(nodes)| + 1
      ensures fresh(nodes[0]) && nodes == [nodes[0]] + old(nodes)
      ensures Contents() == [addValue] + old(Contents())
    {
      var newNode := new Node(addValue, null);
      newNode.SetNextNode(headNode);
      headNode := newNode;
      nodes := [newNode] + nodes;
      Repr := Repr + {newNode};
      forall i | 0 <= i < |nodes|
        ensures nodes[i].nextNode == Successor(nodes, i)
      {
        if i > 0 {
          // an old node: its link is untouched and still leads to its old successor
          assert nodes[i] == old(nodes)[i - 1];
          assert old(nodes[i - 1].nextNode) == old(Successor(nodes, i - 1));
          assert nodes[i].nextNode == old(nodes[i - 1].nextNode);
          assert i + 1 < |nodes| ==> nodes[i + 1] == old(nodes)[i];
        }
      }
    }

    /** Walks the chain from the head and builds its text without changing
        the list. */
    method NodeToList(show: T -> string) returns (s: string)
      requires Valid()
      ensures s == Render(Contents(), show)
    {
      s := "";
      var current := headNode;
      ghost var i := 0;
      while current != null
        invariant Valid()
        invariant 0 <= i <= |nodes|
        invariant current == if i < |nodes| then nodes[i] else null
        invariant s + Render(Contents()[i..], show) == Render(Contents(), show)
        decreases |nodes| - i
      {
        assert current.nextNode == Successor(nodes, i);
        var value := current.GetNodeValue();
        assert Contents()[i..][1..] == Contents()[i + 1..];
        s := s + show(value) + " -> ";
        current := current.GetNextNode();
        i := i + 1;
      }
      s := s + "None";
    }

    /** Drops the head if it holds `removeValue`, then walks the chain
        splicing out every successor of the current node that holds it. The
        head must exist: the source reads the head's value unguarded. */
    method RemoveNode(removeValue: T)
      requires Valid() && Contents() != []
      modifies Repr
      ensures Valid() && Repr <= old(Repr)
      ensures Contents() == Remove(old(Contents()), removeValue)
    {
      var current := headNode;
      var headValue := current.GetNodeValue();
      ghost var i := 0;
      if headValue == removeValue {
        DropHead();
        current := headNode;
      }
      assert Contents()[..0] + Contents()[0..] == Contents();
      while current != null
        invariant Valid() && Repr <= old(Repr)
        invariant 0 <= i <= |nodes|
        invariant current == if i < |nodes| then nodes[i] else null
        invariant Contents()[..i] + Scan(Contents()[i..], removeValue)
                  == Remove(old(Contents()), removeValue)
        decreases |nodes| - i
      {
        current := ScanStep(current, i, removeValue);
        i := i + 1;
      }
    }

    /** One pass of the loop of `remove_node` at nodes[i]: splices out the
        successor if it holds `removeValue`, and returns the node the scan
        moves on to. */
    method ScanStep(current: Node<T>, ghost i: nat, removeValue: T) returns (next: Node?<T>)
      requires Valid() && i < |nodes| && current == nodes[i]
      modifies this, current
      ensures Valid() && Repr <= old(Repr)
      ensures i + 1 <= |nodes| <= old(|nodes|)
      ensures next == if i + 1 < |nodes| then nodes[i + 1] else null
      ensures nodes == old(if i + 1 < |nodes| && nodes[i + 1].value == removeValue
                           then nodes[..i + 1] + nodes[i + 2..] else nodes)
      ensures Contents() == old(if i + 1 < |nodes| && Contents()[i + 1] == removeValue
                                then Contents()[..i + 1] + Contents()[i + 2..] else Contents())
      ensures Contents()[..i + 1] + Scan(Contents()[i + 1..], removeValue)
              == old(Contents()[..i] + Scan(Contents()[i..], removeValue))
    {
      ghost var c := Contents();
      assert current.nextNode == Successor(nodes, i);
      var nextNode := current.GetNextNode();
      assert nextNode != null ==> nextNode.value == c[i + 1];
      if nextNode != null && nextNode.GetNodeValue() == removeValue {
        Bypass(current, nextNode, i);
      }
      ScanAdvance(c, Contents(), i, removeValue);
      assert current == nodes[i] && current.nextNode == Successor(nodes, i);
      next := current.GetNextNode();
    }

    /** Moves the head to the node after it; the old head leaves the chain. */
    method DropHead()
      requires Valid() && nodes != []
      modifies this
      ensures Valid()
      ensures nodes == old(nodes[1..]) && Contents() == old(Contents()[1..])
      ensures Repr == old(Repr) - {old(nodes[0])}
    {
      assert forall k :: 1 <= k < |nodes| ==> nodes[k] != nodes[0];
      Repr := Repr - {nodes[0]};
      headNode := headNode.GetNextNode();
      nodes := nodes[1..];
      assert old(nodes[0].nextNode) == old(Successor(nodes, 0));
      forall j | 0 <= j < |nodes|
        ensures nodes[j].nextNode == Successor(nodes, j)
      {
        var k := j + 1;
        assert nodes[j] == old(nodes)[k];
        assert old(nodes[k].nextNode) == old(Successor(nodes, k));
      }
    }

    /** Bypass-removal: links `current` (nodes[i]) past its successor
        `nextNode`, which leaves the chain. */
    method Bypass(current: Node<T>, nextNode: Node<T>, ghost i: nat)
      requires Valid() && i + 1 < |nodes| && current == nodes[i] && nextNode == nodes[i + 1]
      modifies this, current
      ensures Valid()
      ensures nodes == old(nodes[..i + 1] + nodes[i + 2..]) && nodes[i] == current
      ensures Repr == old(Repr) - {nextNode}
      ensures Contents() == old(Contents()[..i + 1] + Contents()[i + 2..])
    {
      ghost var ns := nodes;
      assert ns[i + 1].nextNode == Successor(ns, i + 1);
      SpliceFacts(ns, i);
      current.SetNextNode(nextNode.GetNextNode());
      nodes := ns[..i + 1] + ns[i + 2..];
      Repr := Repr - {nextNode};
      forall j | 0 <= j < |nodes|
        ensures nodes[j].nextNode == Successor(nodes, j)
      {
        // every link but the current node's is the one it had before
        if j != i {
          var k := if j < i then j else j + 1;
          assert nodes[j] == ns[k] && ns[k] != ns[i];
          assert old(ns[k].nextNode) == Successor(ns, k);
        }
      }
    }
  }
}
