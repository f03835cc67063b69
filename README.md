# XmlNavigator: the node tree, the parser and the depth-bounded tree view

XmlNavigator is an editor plugin. It shows the element structure of an XML
document as a tree view. This project models its core in Dafny.

- **The `NodeData` tree** (`Parser.dfy`, class `Parser.NodeData`).
  - Each node owns an ordered child list.
  - Each child has a back-pointer to its parent and knows its position in the parent's list.
  - `AddChild`, `InsertChild`, `RemoveChild` and `RemoveChildAt` edit the list in place, and loops renumber the positions.
  - Positions outside the list are refused with `ArgumentOutOfRangeException`, modelled as the `Outcome` value `ArgumentOutOfRange`.
  - The invariant "child `i` points back at this node and has position `i`" is `IndexesConsistent`.
- **The parser** (`Parser.dfy`, class `Parser.XmlParser`).
  - It turns a loaded document into a `NodeData` tree.
  - It keeps element nodes only, in document order, and names each node by its local name.
  - The document is an abstract value, `XmlNode`: a node kind, a local name and children.
  - The pure functions `ParseElement`/`ParseChildren` state what the resulting tree holds (an `ElementTree` value). `Represents` ties the heap tree to that value.
- **The tree view** (`Navigator.dfy`, class `Navigator.NavigatorForm`).
  - `GenerateTree`/`GetChildNodes` build view items (`TreeNode` values). Items are generated for every child only while a node lies above the maximum depth, and those nodes are marked as expanded.
  - Below the maximum depth, a node with children gets a single `"<dummy>"` placeholder; a node without children gets no items.
  - Expanding an item (`BeforeExpand`) materialises exactly one more level. It does nothing for a placeholder or for an already expanded node.
  - What the methods build is specified by pure functions (`Item`, `ChildItems`, `Expanded`) over `Shape`, a value snapshot of the node tree.
- **Termination on a heap graph.** Walks over `NodeData` are bounded by a ghost `rank` map that strictly decreases along child edges (`Ranked`). The parser produces such a map for the tree it builds.
- **`Lists.dfy`** holds the operations of the .NET `List<T>` that the tree uses, as functions on sequences: `Insert`, `RemoveAt` and `FindIndex`.

## Model

| member | source | states |
|---|---|---|
| Parser.NodeData.constructor | XmlNavigator/XmlParser.cs:53-57 | a new node has the given name, no children and no parent, and is not yet expanded; `ToString` returns the name; depth and display name stay unconstrained |
| Parser.NodeData.AddChildNamed | XmlNavigator/XmlParser.cs:77-83 | returns a fresh node with the given name and no children, now the last child, pointing back at this node with position = old count; keeps `IndexesConsistent` |
| Parser.NodeData.AddChild | XmlNavigator/XmlParser.cs:89-95 | the child list is the old list plus the node at the end; the node's parent is this node and its position is the old count; only that node's fields change; keeps `IndexesConsistent` when the node was not already a child |
| Parser.NodeData.ConsistentIsDistinct | XmlNavigator/XmlParser.cs:91-92 | in a consistently numbered child list no node occurs twice |
| Parser.NodeData.RenumberFrom | XmlNavigator/XmlParser.cs:111-114 | after the renumbering loop every child from the start position on holds the position of its last occurrence in the list; nodes occurring only before the start keep their position |
| Parser.NodeData.InsertChild | XmlNavigator/XmlParser.cs:102-115 | refused (nothing changes) exactly when the index is outside 0..count; otherwise the list is the old list with the node inserted at the index (earlier children in place, later ones shifted by one), the node's parent is this node, the children from the index on are renumbered, and `IndexesConsistent` is kept when the node was new to the list |
| Parser.NodeData.RemoveChild | XmlNavigator/XmlParser.cs:121-128 | nothing changes when the node is not a child; otherwise its first occurrence is removed and, as in `RemoveChildAt`, every child from that position on holds the position of its last occurrence while the others keep theirs; the removed node's parent and, in a consistent list, its position are not reset; `IndexesConsistent` is kept |
| Parser.NodeData.RemoveChildAt | XmlNavigator/XmlParser.cs:134-146 | refused (nothing changes) exactly when the index is outside 0..count-1; otherwise the list is the old list without that position, the children from the index on are renumbered, and in a consistent list the result is consistent and no longer holds the removed node |
| Parser.ParseChildrenAppend | XmlNavigator/XmlParser.cs:264-270 | parsing two sibling lists one after the other parses their concatenation |
| Parser.ParseChildrenMatchesElements | XmlNavigator/XmlParser.cs:264-270 | the parsed children correspond one to one, in order, to the element-type input nodes; other node kinds are skipped |
| Parser.ElementPositions | XmlNavigator/XmlParser.cs:264-267 | the element-type positions of a sibling list, strictly increasing, with every element position included |
| Parser.ParseUnparse | XmlNavigator/XmlParser.cs:260-273 | every element tree is the parse of an XML element: parsing inverts `Unparse` |
| Parser.ParseUnparseAll | XmlNavigator/XmlParser.cs:264-270 | the same for a list of sibling trees |
| Parser.RepresentedIsConsistent | XmlNavigator/XmlParser.cs:89-95 | every node of a parsed tree is consistently linked to its children |
| Parser.RepresentsInLarger | XmlNavigator/XmlParser.cs:260-273 | a parsed tree stays represented inside any larger set of nodes |
| Parser.BuiltExtend | XmlNavigator/XmlParser.cs:264-270 | one more parsed element child, with its own new ranked subtree, extends the children built so far |
| Parser.BuiltClose | XmlNavigator/XmlParser.cs:262-272 | once every child is built, the node holds the tree of its name and its children's trees, and the whole subtree is ranked |
| Parser.XmlParser.ParseNode | XmlNavigator/XmlParser.cs:260-273 | the returned node is new, named by the local name, holds exactly the parse of the input (element children only, in order, each consistently linked), and is appended as the last child of the parent when there is one; its parent is that parent, or none |
| Parser.XmlParser.ParseChildNodes | XmlNavigator/XmlParser.cs:264-270 | the loop appends new children that hold the parses of the element children of the input, in order, each pointing back at the node with its position |
| Parser.XmlParser.Parse | XmlNavigator/XmlParser.cs:244-252 | no root without a document; otherwise the root is a new node with no parent that holds the parse of the document element |
| Parser.XmlParser.constructor | XmlNavigator/XmlParser.cs:229-235 | keeps the given document and parses it at once |
| Lists.Insert | XmlNavigator/XmlParser.cs:108 | `List.Insert`: one longer, elements before the index in place, the new element at the index, later ones shifted right |
| Lists.RemoveAt | XmlNavigator/XmlParser.cs:139 | `List.RemoveAt`: one shorter, elements before the index in place, later ones shifted left |
| Lists.RemoveInserted | XmlNavigator/XmlParser.cs:108 | removing what was just inserted gives back the original list |
| Lists.InsertRemoved | XmlNavigator/XmlParser.cs:139 | re-inserting what was just removed, at the same place, gives back the original list |
| Lists.FirstIndexOf | XmlNavigator/XmlParser.cs:123 | `FindIndex(d => d == x)`: -1 exactly when `x` is absent, otherwise the first position holding `x` |
| Lists.LastIndexOf | XmlNavigator/XmlParser.cs:111-114 | the last position holding an element that occurs |
| Lists.LastIndexOfSnoc | XmlNavigator/XmlParser.cs:111-114 | appending an element moves only that element's last occurrence |
| Lists.DistinctLastIndex | XmlNavigator/XmlParser.cs:111-114 | without repetitions, an element's last occurrence is its position |
| Lists.InsertKeepsDistinct | XmlNavigator/XmlParser.cs:108 | inserting a new element keeps a list without repetitions |
| Lists.RemoveAtKeepsDistinct | XmlNavigator/XmlParser.cs:139 | removing a position keeps a list without repetitions, and the removed element is gone |
| Lists.LastIndexOfExtend | XmlNavigator/XmlParser.cs:111-114 | one more step of a renumbering loop: only the element just written changes its last occurrence |
| Navigator.ShapesOfAt | XmlNavigator/Forms/NavigatorForm.cs:166-172 | child `i` of a node's snapshot is the snapshot of child `i` |
| Navigator.ShapesKept | XmlNavigator/Forms/NavigatorForm.cs:164-172 | setting expanded flags changes neither the ranking nor any snapshot |
| Navigator.ShapeDepthsFollow | XmlNavigator/Forms/NavigatorForm.cs:162 | the depths read here and at line 242: when every child lies one level below its parent in the heap, the same holds in every snapshot |
| Navigator.ItemsOf | XmlNavigator/Forms/NavigatorForm.cs:166-172 | one item per child, in child order |
| Navigator.ItemsOfAt | XmlNavigator/Forms/NavigatorForm.cs:168-171 | item `j` of the array is the item generated for child `j` |
| Navigator.ItemWithinLevels | XmlNavigator/Forms/NavigatorForm.cs:162-178 | generation stops at the maximum depth: however deep the tree, the item of a node has at most `Levels(depth, maxDepth)` levels |
| Navigator.ExpandingAddsOneLevel | XmlNavigator/Forms/NavigatorForm.cs:241-242 | `GetChildNodes(data, data.Depth + 1)` always generates items, one per child, each labelled by the child's display name, tagged with the child, and a leaf or holding a lone placeholder |
| Navigator.NoneAbove | XmlNavigator/Forms/NavigatorForm.cs:174-178 | below a node at or beyond the maximum depth no node lies above it |
| Navigator.NoneAboveAmong | XmlNavigator/Forms/NavigatorForm.cs:174-178 | the same for the subtrees of the first `k` children |
| Navigator.ExpandedAreNodesAbove | XmlNavigator/Forms/NavigatorForm.cs:162-178 | the walk marks exactly the nodes of the tree that lie above the maximum depth; pruning at the maximum depth misses none |
| Navigator.ExpandedAmongAreNodesAbove | XmlNavigator/Forms/NavigatorForm.cs:166-172 | the same for the subtrees of the first `k` children |
| Navigator.FlagsAt | XmlNavigator/Forms/NavigatorForm.cs:234 | the flag map holds each node's expanded flag |
| Navigator.MarkedAt | XmlNavigator/Forms/NavigatorForm.cs:164 | marking sets the flags of the marked nodes and keeps every other flag |
| Navigator.MarkedTwice | XmlNavigator/Forms/NavigatorForm.cs:164-172 | marking two sets one after the other marks their union |
| Navigator.NavigatorForm.constructor | XmlNavigator/Forms/NavigatorForm.cs:62-67 | a new form has no parser yet |
| Navigator.NavigatorForm.GenerateWholeTree | XmlNavigator/Forms/NavigatorForm.cs:115-129 | creates a new parser for the document; no tree when the parser has no root; otherwise the item of the parsed root generated down to `MaximumExpandedDepth` |
| Navigator.NavigatorForm.GenerateTree | XmlNavigator/Forms/NavigatorForm.cs:137-150 | the item is labelled with the node's display name, tagged with the node, and holds `GetChildNodes`' items, or none when that gives none; the nodes above the maximum depth in its subtree are marked as expanded, and no other flag changes |
| Navigator.NavigatorForm.GetChildNodes | XmlNavigator/Forms/NavigatorForm.cs:158-181 | above the maximum depth: one generated item per child, in order, and the node and the nodes above the maximum depth below it are marked as expanded; otherwise a lone `"<dummy>"` placeholder without a tag when there are children, no array when there are none, and no flag changes |
| Navigator.NavigatorForm.BeforeExpand | XmlNavigator/Forms/NavigatorForm.cs:228-248 | no change for a placeholder or an already expanded node; otherwise the children are replaced by exactly the items generated one level below the node; afterwards the node is marked as expanded, so a second expansion is a no-op |

## Left out

- Loading the file (`XmlParser.GetDocument`, `XmlDocument.Load` and its catch-all) is not part of this model. The loaded document element, or its absence, is the constructor's parameter. The XML library's own parsing is not modelled.
- The form's task scheduling, cancellation token, `Invoke`, `RunFillTreeTask`/`StartGenerating`/`UpdateUIOnTaskCompleted`, `Reload`, `UpdateUIBeforeGenerating`, `BeginUpdate`/`EndUpdate`, `rootNode.Expand()` and `AfterSelect`/`Main.GoToPosition` are UI-thread and widget calls. They are left out. `GenerateWholeTree` has no cancellation path.
- `Main.cs`, `AboutForm.cs` and the Designer files are host interop and generated layout. They are not part of this model.
- `Depth`, `GetDisplayName()`, `TreeNodeExpanded` and `NodeExtent` are used by the form but defined in no modelled file. `depth`, `displayName` and `treeNodeExpanded` are plain fields. A new node is not expanded (the `bool` default); its depth and display name are left unconstrained. Their computation is not modelled, and `NodeExtent` is left out.
- `StartPosition`/`EndPosition` are plain storage fields. Nothing assigns them and nothing is proved about them.
- Null arguments are not modelled: the `NodeData` parameters are non-null references. So `AddChild(null)` (a `NullReferenceException` at XmlParser.cs line 91), `InsertChild(null, k)` with `k` in range (a `NullReferenceException` at line 107, after the range check, with the list unchanged) and `RemoveChild(null)` (a no-op, as `FindIndex` finds nothing) are not covered.
- `int` is unbounded. Positions and depths do not model 32-bit overflow, and `Depth + 1` cannot wrap.
- `TreeNode` is a value, not a widget object. The form replaces an item's children by returning a new item, so aliasing between view items is not modelled.
- `GenerateWholeTree` creates the parser from the document. The form's own call passes the text of the editor to a constructor whose shown revision takes a path. That mismatch between revisions is not modelled.
- The navigator methods take a ghost `rank` map. It bounds the walk on an acyclic finite node graph, and the parser produces it. For an arbitrary heap graph the source could loop, and such graphs are not modelled.
- Navigator.ItemWithinLevels: the depth bound is stated under the hypothesis `DepthsFollow` (every child lies one level below its parent), because the depth computation is not part of this model.
- Navigator.ExpandedAreNodesAbove: stated under the same `DepthsFollow` hypothesis, for the same reason.
- Navigator.ExpandingAddsOneLevel: stated under the same `DepthsFollow` hypothesis, for the same reason.
- Navigator.NavigatorForm.GenerateTree and Navigator.NavigatorForm.GetChildNodes state their results on the tree as it stood on entry (`old`); they change only the expanded flags, which the items do not depend on.
- Parser.NodeData.InsertChild and Parser.NodeData.RemoveChildAt, when a node occurs in the list more than once, state each renumbered node's position as its last occurrence rather than one per position. A node can hold only one position.
