# Singly-linked list of Linked_list.py, modelled and verified in Dafny

`Linked_list.py` defines a `Node` (a value and a link to the next node) and
a `LinkedList` that owns a chain of nodes through `head_node`. The list can:

- add a value at the beginning;
- render itself as text such as `hello -> 500 -> 90 -> None`;
- remove nodes by value.

The file ends with a small example.

The project has three modules:

- `Chain` (chain.dfy) holds the meaning of the operations on plain sequences.
  - `Scan` is the traversal loop of `remove_node`.
  - `Remove` is all of `remove_node`: the head step, then the scan.
  - `Survivors` is an independent description of which values stay. A node
    holding the value is dropped exactly when its predecessor was kept.
  - `DeletesOnly` says that the result is the input with some copies of the
    value deleted, and nothing else changed.
  - `Render` is the text that `node_to_list` builds.
- `LinkedLists` (linked_list.dfy) holds the heap-based classes `Node` and
  `LinkedList`.
  - A list keeps two ghost fields: `nodes`, its chain in order, and `Repr`,
    its footprint.
  - `Valid()` ties the real `nextNode` pointers to `nodes` and keeps the
    nodes distinct, so the chain is acyclic.
  - `NodeToList` and `RemoveNode` are proved against the `Chain` functions
    `Render` and `Remove` of the list's contents; the other methods state the
    new chain and contents directly.
- `Example` (example.dfy) holds the payloads of the example: Python ints and
  strings, with Python's `str()` for them. It also holds the example itself,
  and a second scenario with a repeated head value.

The docstring of `remove_node` says it removes the first occurrence of a
value. The code does something different, and the model follows the code:

- The head is dropped if it matches.
- Then the scan visits each kept node in turn and checks its successor
  once; a matching successor is spliced out.
- After a splice the scan moves on to the node behind the removed one. That
  node is kept even when it matches too.

So one call can remove several matches (`Chain.RemoveDropsSeparatedMatches`).
It also keeps a match that follows a removed one (`Chain.ScanKeepsFollower`).

`remove_node` reads the head's value without checking for `None` first. An
empty list is reachable, by removing the only node, and calling `remove_node`
on it would raise an error. `LinkedList.RemoveNode` therefore requires a
non-empty list.

## Model

| member | source | states |
|---|---|---|
| LinkedLists.Node.constructor | Linked_list.py:15-22 | the new node holds the given value and link |
| LinkedLists.Node.GetNodeValue | Linked_list.py:24-29 | returns the node's value |
| LinkedLists.Node.GetNextNode | Linked_list.py:31-36 | returns the node's link, reading only the node |
| LinkedLists.Node.SetNextNode | Linked_list.py:38-43 | the node's link becomes the given node |
| LinkedLists.LinkedList.constructor | Linked_list.py:48-53 | a valid list with fresh nodes whose contents are exactly the one given value |
| LinkedLists.LinkedList.GetHeadNode | Linked_list.py:55-60 | returns the first node of the chain, null exactly when the list is empty, holding the first value |
| LinkedLists.LinkedList.AddNodeToBeginning | Linked_list.py:62-69 | a fresh node becomes the head, the old chain follows it unchanged, contents become [v] + old contents, the list stays valid |
| LinkedLists.LinkedList.NodeToList | Linked_list.py:71-84 | changes nothing and returns the rendering of the contents: each value's text followed by " -> ", then "None" |
| LinkedLists.LinkedList.RemoveNode | Linked_list.py:86-105 | on a non-empty valid list, the new contents are Remove(old contents, v); the list stays valid, the footprint only shrinks, and the loop ends |
| LinkedLists.LinkedList.ScanStep | Linked_list.py:99-105 | one loop pass: the new chain and contents are the old ones with the successor spliced out if it holds the value and unchanged otherwise; the scan's result is kept and the next node to visit is returned |
| LinkedLists.LinkedList.DropHead | Linked_list.py:94-96 | the head moves to the second node; contents lose their first value; the old head leaves the footprint |
| LinkedLists.LinkedList.Bypass | Linked_list.py:103-104 | linking nodes[i] past nodes[i+1] deletes exactly value i+1 of the contents; the removed node leaves the footprint |
| Chain.Scan | Linked_list.py:99-105 | the scan keeps the node it starts on and never lengthens the chain |
| Chain.Remove | Linked_list.py:91-105 | never lengthens the chain; a matching head is dropped and the result begins with the old second value; otherwise the head stays first |
| Chain.ScanIsSurvivors | Linked_list.py:99-105 | the scan equals the independent Survivors description with the first node kept unconditionally, as after a removed node |
| Chain.RemoveIsSurvivors | Linked_list.py:91-105 | remove_node drops a match exactly when its predecessor was kept, the head counting as preceded by a kept node |
| Chain.ScanAdvance | Linked_list.py:100-105 | one pass of the loop keeps the prefix-plus-scan of the values unchanged, so it is the loop invariant's step |
| Chain.ScanAbsent | Linked_list.py:99-105 | the scan changes nothing when no node after the first holds the value |
| Chain.ScanShrinks | Linked_list.py:99-105 | the scan removes something when a node after the first holds the value |
| Chain.RemoveChangesIffPresent | Linked_list.py:86-105 | removing leaves the list unchanged if and only if the value is absent, and strictly shortens it if and only if it is present |
| Chain.DeletesOnlyCounts | Linked_list.py:86-105 | deleting only copies of v keeps every other value's number of occurrences and lowers v's by the number deleted |
| Chain.SurvivorsDeletesOnly | Linked_list.py:99-105 | the survivors are the input with only matching values deleted, in order |
| Chain.RemoveDeletesOnlyMatches | Linked_list.py:86-105 | remove_node deletes only nodes holding the value, keeps the order of the rest, keeps other values' counts, and lowers the value's count by the length lost |
| Chain.ScanKeepsFollower | Linked_list.py:103-105 | after a splice the node behind the removed one is kept, even when it holds the value |
| Chain.SurvivorsFirstMatch | Linked_list.py:99-105 | every element before the first match is kept and the first match is dropped once a kept element precedes it; the rest is described as after a removed node |
| Chain.RemoveDropsFirst | Linked_list.py:86-105 | the part of "removes the first occurrence" the code keeps: the first node holding the value always goes and every node before it stays |
| Chain.RemoveDropsSeparatedMatches | Linked_list.py:86-105 | one call removes two matches that are not adjacent, so more than the first occurrence goes |
| Chain.ScanRemovesLone | Linked_list.py:99-105 | a value present at most once, and not in the first node, is gone after the scan |
| Chain.RemoveRemovesLone | Linked_list.py:86-105 | a value present at most once is gone after remove_node |
| Chain.RemoveIdempotentOnLone | Linked_list.py:86-105 | after removing a value that was present at most once, removing it again changes nothing |
| Chain.RenderEndsWithNone | Linked_list.py:76-84 | the text always ends in "None", and is exactly "None" if and only if the list is empty |
| Chain.RenderAppend | Linked_list.py:79-81 | rendering is compositional: the text of s + t is the arrows of s followed by the text of t |
| Example.NatToString | Linked_list.py:80 | the decimal text of a natural number is non-empty, all digits, and has no leading zero |
| Example.NatToStringRoundTrip | Linked_list.py:80 | reading the decimal text back gives the number |
| Example.IntToString | Linked_list.py:80 | the text of an int is non-empty and starts with '-' if and only if the int is negative |
| Example.ShowNumbers | Linked_list.py:80 | str() of 500, 90 and 7 is "500", "90" and "7" |
| Example.DemoTexts | Linked_list.py:111-124 | the example's values render as "hello -> 500 -> 90 -> None" and, once "hello" is removed, as "500 -> 90 -> None" |
| Example.DemoRemoval | Linked_list.py:120 | removing "hello" from [hello, 500, 90] leaves [500, 90] |
| Example.RepeatedHeadRemoval | Linked_list.py:91-105 | removing 7 from [7, 7, 90] leaves [7, 90]: the node that becomes the head is never examined |
| Example.RepeatedHeadTexts | Linked_list.py:91-105 | [7, 7, 90] renders as "7 -> 7 -> 90 -> None" and removing 7 leaves [7, 90] |
| Example.Demo | Linked_list.py:111-124 | running the example on the heap produces exactly the two texts it prints |
| Example.RepeatedHeadScenario | Linked_list.py:91-105 | with 7 at the head twice, one removal of 7 leaves "7 -> 90 -> None": the new head is never examined |

## Left out

- The `print` calls of the example are not modelled: `Example.Demo` returns the two texts instead of printing them.
- Python's `str()` is modelled only for the payloads the example uses, ints and strings, by `Example.Show`. Other payload types, and `==` between objects with custom equality, are not modelled.
- The payload type is a generic type with equality. Python's dynamic typing, where values of mixed types sit in one list, is modelled only by the example's `Value` datatype.
- Garbage collection is not modelled. A node unlinked by `remove_node` simply leaves the list's ghost footprint `Repr`.
- LinkedLists.LinkedList.RemoveNode: requires a non-empty list. On an empty list the source raises an error reading the head's value, and that error path is not modelled.
- LinkedLists.Node.GetNodeValue: a node's value is modelled as a constant field, because the source never reassigns it after construction.
- LinkedLists.Node.GetNextNode: modelled as a function that reads the node rather than a method; it changes nothing, as in the source.
- Nodes shared between two lists, or linked by code outside the class, are not modelled. `Valid()` requires the list to own an acyclic chain of distinct nodes, which every operation of the class preserves.
