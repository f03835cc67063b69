/**
 * The tree view of the navigator form (XmlNavigator/Forms/NavigatorForm.cs):
 * turning a `NodeData` tree into view items, fully only down to a maximum depth
 * and with a placeholder child below it, and materialising one more level when
 * the user expands an item.
 *
 * View items are values (`TreeNode`). What an item holds is specified on a value
 * snapshot of the `NodeData` tree (`Shape`); the methods walk the heap and set
 * each node's expanded flag as they go.
 */
module Navigator {
  import opened Wrappers
  import opened Parser

  /** A view item: its label, the node it stands for (none for a placeholder), and its child items. */
  datatype TreeNode = TreeNode(text: string, tag: Option<NodeData>, nodes: seq<TreeNode>)

  /** The maximum depth of the items that are generated when the tree is first built. */
  const MaximumExpandedDepth: int := 1

  /** The item added below a node whose children are not yet materialised, so that it can be expanded. */
  const Placeholder: TreeNode := TreeNode("<dummy>", None, [])

  // ---------------------------------------------------------------------------
  // The data tree as a value
  // ---------------------------------------------------------------------------

  /**
   * The part of a `NodeData` tree the view is built from, as a value: the node
   * itself, its display name, its depth and the same for its children, in order.
   */
  datatype Shape = Shape(node: NodeData, displayName: string, depth: int, children: seq<Shape>)

  /** The shape of the tree below `data`, as the heap holds it now. */
  ghost function ShapeOf(data: NodeData, rank: map<NodeData, nat>): Shape
    requires data in rank && Ranked(rank)
    reads rank.Keys`childNodes, rank.Keys`depth, rank.Keys`displayName
    decreases rank[data], 1
  {
    Shape(data, data.displayName, data.depth, ShapesOf(data, |data.childNodes|, rank))
  }

  /** The shapes of the first `k` children of `data`. */
  ghost function ShapesOf(data: NodeData, k: nat, rank: map<NodeData, nat>): (ss: seq<Shape>)
    requires data in rank && Ranked(rank) && k <= |data.childNodes|
    reads rank.Keys`childNodes, rank.Keys`depth, rank.Keys`displayName
    ensures |ss| == k
    decreases rank[data], 0, k
  {
    if k == 0 then []
    else ShapesOf(data, k - 1, rank) + [ShapeOf(data.childNodes[k - 1], rank)]
  }

  /** Child `i` of the shape of `data` is the shape of child `i` of `data`. */
  lemma {:induction false} ShapesOfAt(data: NodeData, k: nat, rank: map<NodeData, nat>, i: nat)
    requires data in rank && Ranked(rank) && i < k <= |data.childNodes|
    ensures ShapesOf(data, k, rank)[i] == ShapeOf(data.childNodes[i], rank)
    decreases k
  {
    if i < k - 1 {
      ShapesOfAt(data, k - 1, rank, i);
    }
  }

  /** The ranking and the shapes survive any change that leaves the tree's fields as they were. */
  twostate lemma ShapesKept(rank: map<NodeData, nat>)
    requires old(Ranked(rank))
    requires unchanged(rank.Keys`childNodes) && unchanged(rank.Keys`depth) && unchanged(rank.Keys`displayName)
    ensures Ranked(rank)
    ensures forall data :: data in rank ==> ShapeOf(data, rank) == old(ShapeOf(data, rank))
  {
  }

  /** Each child lies exactly one level below its parent, as the parsed tree's depths are meant to. */
  ghost predicate DepthsFollow(s: Shape)
    decreases s
  {
    forall i :: 0 <= i < |s.children| ==>
      s.children[i].depth == s.depth + 1 && DepthsFollow(s.children[i])
  }

  /** The same property of the nodes in the heap: every child edge goes exactly one level deeper. */
  ghost predicate DepthsFollowTree(rank: map<NodeData, nat>)
    reads rank.Keys`childNodes, rank.Keys`depth
  {
    forall n, i :: n in rank && 0 <= i < |n.childNodes| ==>
      n.childNodes[i] in rank && n.childNodes[i].depth == n.depth + 1
  }

  /** When the depths in the heap follow the child edges, so do those of every snapshot taken of it. */
  lemma {:induction false} ShapeDepthsFollow(data: NodeData, rank: map<NodeData, nat>)
    requires data in rank && Ranked(rank) && DepthsFollowTree(rank)
    ensures DepthsFollow(ShapeOf(data, rank))
    decreases rank[data]
  {
    var s := ShapeOf(data, rank);
    forall i | 0 <= i < |s.children|
      ensures s.children[i].depth == s.depth + 1 && DepthsFollow(s.children[i])
    {
      ShapesOfAt(data, |data.childNodes|, rank, i);
      ShapeDepthsFollow(data.childNodes[i], rank);
    }
  }

  // ---------------------------------------------------------------------------
  // The items GenerateTree and GetChildNodes build
  // ---------------------------------------------------------------------------

  /** The item `GenerateTree` builds for a node of shape `s`. */
  function Item(s: Shape, maxDepth: int): TreeNode
    decreases s, 2
  {
    var children := ChildItems(s, maxDepth);
    TreeNode(s.displayName, Some(s.node), if children.Some? then children.value else [])
  }

  /**
   * The child items `GetChildNodes` returns for a node of shape `s`: one item per
   * child while the node lies above `maxDepth`; otherwise a lone placeholder when
   * there are children, and nothing (a null array) when there are none.
   */
  function ChildItems(s: Shape, maxDepth: int): Option<seq<TreeNode>>
    decreases s, 1
  {
    if s.depth < maxDepth then Some(ItemsOf(s, |s.children|, maxDepth))
    else if |s.children| > 0 then Some([Placeholder])
    else None
  }

  /** The items for the first `k` children of `s`, in child order. */
  function ItemsOf(s: Shape, k: nat, maxDepth: int): (items: seq<TreeNode>)
    requires k <= |s.children|
    ensures |items| == k
    decreases s, 0, k
  {
    if k == 0 then []
    else ItemsOf(s, k - 1, maxDepth) + [Item(s.children[k - 1], maxDepth)]
  }

  /** The item at position `j` is the item of child `j`. */
  lemma {:induction false} ItemsOfAt(s: Shape, k: nat, maxDepth: int)
    requires k <= |s.children|
    ensures forall j :: 0 <= j < k ==> ItemsOf(s, k, maxDepth)[j] == Item(s.children[j], maxDepth)
  {
    if k > 0 {
      ItemsOfAt(s, k - 1, maxDepth);
    }
  }

  /** An item tree at most `levels` levels deep: the item itself and `levels - 1` levels below it. */
  ghost predicate WithinLevels(item: TreeNode, levels: nat)
    decreases item
  {
    && levels > 0
    && forall i :: 0 <= i < |item.nodes| ==> WithinLevels(item.nodes[i], levels - 1)
  }

  /**
   * How many levels the item of a node at `depth` may have: its own, one per
   * level down to `maxDepth`, and one for the leaves or placeholders below that.
   */
  function Levels(depth: int, maxDepth: int): nat
  {
    if depth < maxDepth then maxDepth - depth + 2 else 2
  }

  /**
   * Generation stops at `maxDepth`: when the depths follow the tree, the item of
   * a node is at most `Levels(depth, maxDepth)` levels deep, however deep the
   * tree below the node goes.
   */
  lemma {:induction false} ItemWithinLevels(s: Shape, maxDepth: int)
    requires DepthsFollow(s)
    ensures WithinLevels(Item(s, maxDepth), Levels(s.depth, maxDepth))
    decreases s
  {
    var item := Item(s, maxDepth);
    var levels := Levels(s.depth, maxDepth);
    if s.depth < maxDepth {
      ItemsOfAt(s, |s.children|, maxDepth);
      forall i | 0 <= i < |item.nodes| ensures WithinLevels(item.nodes[i], levels - 1) {
        ItemWithinLevels(s.children[i], maxDepth);
      }
    } else if |s.children| > 0 {
      assert ChildItems(s, maxDepth) == Some([Placeholder]);
      assert WithinLevels(Placeholder, 1);
    }
  }

  /**
   * Expanding an item materialises exactly one level: when the depths follow the
   * tree, each child item is a leaf or holds a lone placeholder.
   */
  lemma ExpandingAddsOneLevel(s: Shape)
    requires DepthsFollow(s)
    ensures ChildItems(s, s.depth + 1).Some?
    ensures var items := ChildItems(s, s.depth + 1).value;
      && |items| == |s.children|
      && forall i :: 0 <= i < |items| ==>
           items[i] == TreeNode(s.children[i].displayName, Some(s.children[i].node),
                                if |s.children[i].children| > 0 then [Placeholder] else [])
  {
    var items := ChildItems(s, s.depth + 1).value;
    ItemsOfAt(s, |s.children|, s.depth + 1);
    forall i | 0 <= i < |items|
      ensures items[i] == TreeNode(s.children[i].displayName, Some(s.children[i].node),
                                   if |s.children[i].children| > 0 then [Placeholder] else [])
    {
      var child := s.children[i];
      assert child.depth == s.depth + 1;
      assert items[i] == Item(child, s.depth + 1);
    }
  }

  // ---------------------------------------------------------------------------
  // The nodes GenerateTree marks as expanded
  // ---------------------------------------------------------------------------

  /**
   * The nodes `GenerateTree` marks as expanded: the node of `s` and, recursively,
   * those of its children, as long as they lie above `maxDepth`.
   */
  function Expanded(s: Shape, maxDepth: int): set<NodeData>
    decreases s, 1
  {
    if s.depth < maxDepth then {s.node} + ExpandedAmong(s, |s.children|, maxDepth) else {}
  }

  /** The nodes marked as expanded while generating the items for the first `k` children of `s`. */
  function ExpandedAmong(s: Shape, k: nat, maxDepth: int): set<NodeData>
    requires k <= |s.children|
    decreases s, 0, k
  {
    if k == 0 then {}
    else ExpandedAmong(s, k - 1, maxDepth) + Expanded(s.children[k - 1], maxDepth)
  }

  /** All nodes of the tree `s` that lie above `maxDepth`, wherever they are in it. */
  function NodesAbove(s: Shape, maxDepth: int): set<NodeData>
    decreases s, 1
  {
    (if s.depth < maxDepth then {s.node} else {}) + NodesAboveAmong(s, |s.children|, maxDepth)
  }

  /** The nodes above `maxDepth` in the subtrees of the first `k` children of `s`. */
  function NodesAboveAmong(s: Shape, k: nat, maxDepth: int): set<NodeData>
    requires k <= |s.children|
    decreases s, 0, k
  {
    if k == 0 then {}
    else NodesAboveAmong(s, k - 1, maxDepth) + NodesAbove(s.children[k - 1], maxDepth)
  }

  /** Below a node at or beyond `maxDepth` no node lies above it, when the depths follow the tree. */
  lemma {:induction false} NoneAbove(s: Shape, maxDepth: int)
    requires DepthsFollow(s) && maxDepth <= s.depth
    ensures NodesAbove(s, maxDepth) == {}
    decreases s, 1
  {
    NoneAboveAmong(s, |s.children|, maxDepth);
  }

  /** `NoneAbove` for the subtrees of the first `k` children. */
  lemma {:induction false} NoneAboveAmong(s: Shape, k: nat, maxDepth: int)
    requires DepthsFollow(s) && maxDepth <= s.depth && k <= |s.children|
    ensures NodesAboveAmong(s, k, maxDepth) == {}
    decreases s, 0, k
  {
    if k > 0 {
      NoneAboveAmong(s, k - 1, maxDepth);
      NoneAbove(s.children[k - 1], maxDepth);
    }
  }

  /**
   * When the depths follow the tree, `GenerateTree` marks exactly the nodes that
   * lie above `maxDepth`: pruning the walk at `maxDepth` misses none of them.
   */
  lemma {:induction false} ExpandedAreNodesAbove(s: Shape, maxDepth: int)
    requires DepthsFollow(s)
    ensures Expanded(s, maxDepth) == NodesAbove(s, maxDepth)
    decreases s, 1
  {
    if s.depth < maxDepth {
      ExpandedAmongAreNodesAbove(s, |s.children|, maxDepth);
    } else {
      NoneAbove(s, maxDepth);
    }
  }

  /** `ExpandedAreNodesAbove` for the subtrees of the first `k` children. */
  lemma {:induction false} ExpandedAmongAreNodesAbove(s: Shape, k: nat, maxDepth: int)
    requires DepthsFollow(s) && k <= |s.children|
    ensures ExpandedAmong(s, k, maxDepth) == NodesAboveAmong(s, k, maxDepth)
    decreases s, 0, k
  {
    if k > 0 {
      ExpandedAmongAreNodesAbove(s, k - 1, maxDepth);
      ExpandedAreNodesAbove(s.children[k - 1], maxDepth);
    }
  }

  /** The expanded flags of the nodes in `objs`. */
  ghost function Flags(objs: set<NodeData>): map<NodeData, bool>
    reads objs`treeNodeExpanded
  {
    map n | n in objs :: n.treeNodeExpanded
  }

  /** `Flags` holds each node's flag. */
  lemma FlagsAt(objs: set<NodeData>, n: NodeData)
    requires n in objs
    ensures n in Flags(objs) && Flags(objs)[n] == n.treeNodeExpanded
  {
  }

  /** The flags survive any change that leaves them as they were. */
  twostate lemma FlagsKept(objs: set<NodeData>)
    requires unchanged(objs`treeNodeExpanded)
    ensures Flags(objs) == old(Flags(objs))
  {
  }

  /** `flags` with the nodes of `marked` set. */
  function Marked(flags: map<NodeData, bool>, marked: set<NodeData>): map<NodeData, bool>
  {
    map n | n in flags :: flags[n] || n in marked
  }

  /** Marking sets the flags of the marked nodes and keeps every other flag. */
  lemma MarkedAt(flags: map<NodeData, bool>, marked: set<NodeData>)
    ensures Marked(flags, marked).Keys == flags.Keys
    ensures forall n :: n in flags ==> Marked(flags, marked)[n] == (flags[n] || n in marked)
  {
  }

  /** Marking two sets one after the other marks their union. */
  lemma MarkedTwice(flags: map<NodeData, bool>, a: set<NodeData>, b: set<NodeData>)
    ensures Marked(Marked(flags, a), b) == Marked(flags, a + b)
  {
  }

  /** An array the change did not touch holds what it held. */
  twostate lemma ItemsKept(a: array<TreeNode>)
    requires unchanged(a)
    ensures a[..] == old(a[..])
  {
  }

  // ---------------------------------------------------------------------------
  // The form
  // ---------------------------------------------------------------------------

  /** The navigator form: builds the view items for the parsed document. */
  class NavigatorForm {
    /** The parser for the current document. */
    var parser: XmlParser?

    constructor ()
      ensures parser == null
    {
      parser := null;
    }

    /**
     * Parses the document and generates its tree down to `MaximumExpandedDepth`;
     * there is no tree when the document could not be loaded.
     */
    method GenerateWholeTree(document: Option<XmlNode>) returns (rootNode: Option<TreeNode>)
      modifies this`parser
      ensures parser != null && fresh(parser) && parser.document == document
      ensures document.None? ==> parser.rootNode == null && rootNode == None
      ensures document.Some? ==>
        && parser.rootNode != null && parser.Parsed()
        && rootNode == Some(Item(ShapeOf(parser.rootNode, parser.rank), MaximumExpandedDepth))
    {
      parser := new XmlParser(document);
      if parser.rootNode == null {
        return None;
      }
      var root := GenerateTree(parser.rootNode, MaximumExpandedDepth, parser.rank);
      rootNode := Some(root);
    }

    /**
     * Generates the item for `data`, with its child items as `GetChildNodes` gives
     * them, from the tree as it stood on entry.
     */
    method GenerateTree(data: NodeData, maxDepth: int, ghost rank: map<NodeData, nat>) returns (node: TreeNode)
      requires data in rank && Ranked(rank)
      modifies rank.Keys`treeNodeExpanded
      ensures node == Item(old(ShapeOf(data, rank)), maxDepth)
      ensures Flags(rank.Keys) == Marked(old(Flags(rank.Keys)), Expanded(old(ShapeOf(data, rank)), maxDepth))
      decreases rank[data], 2
    {
      node := TreeNode(data.displayName, Some(data), []);
      var childNodes := GetChildNodes(data, maxDepth, rank);

      if childNodes.Some? {
        node := node.(nodes := node.nodes + childNodes.value);
      }
    }

    /**
     * The child items of `data`: generated one per child, in order, when `data`
     * lies above `maxDepth` (which also marks `data` as expanded); a lone
     * placeholder otherwise when `data` has children; none when it has none.
     */
    method GetChildNodes(data: NodeData, maxDepth: int, ghost rank: map<NodeData, nat>)
      returns (nodeArray: Option<seq<TreeNode>>)
      requires data in rank && Ranked(rank)
      modifies rank.Keys`treeNodeExpanded
      ensures nodeArray == ChildItems(old(ShapeOf(data, rank)), maxDepth)
      ensures Flags(rank.Keys) == Marked(old(Flags(rank.Keys)), Expanded(old(ShapeOf(data, rank)), maxDepth))
      decreases rank[data], 1
    {
      nodeArray := None;
      ghost var shape := ShapeOf(data, rank);
      ghost var flags := Flags(rank.Keys);

      if data.depth < maxDepth {
        data.treeNodeExpanded := true;
        ghost var marked := Marked(flags, {data});
        assert Flags(rank.Keys) == marked;

        var childNodes := data.childNodes;
        var items := new TreeNode[|childNodes|];

        for i := 0 to |childNodes|
          invariant items[..i] == ItemsOf(shape, i, maxDepth)
          invariant Flags(rank.Keys) == Marked(marked, ExpandedAmong(shape, i, maxDepth))
        {
          ghost var before := items[..];
          MarkedTwice(marked, ExpandedAmong(shape, i, maxDepth), Expanded(shape.children[i], maxDepth));
          ShapesKept(rank);
          ShapesOfAt(data, |childNodes|, rank, i);
          label generating:
          var item := GenerateTree(childNodes[i], maxDepth, rank);
          ItemsKept@generating(items);
          label generated:
          items[i] := item;
          FlagsKept@generated(rank.Keys);
          assert items[..i + 1] == before[..i] + [item];
        }
        MarkedTwice(flags, {data}, ExpandedAmong(shape, |childNodes|, maxDepth));
        assert items[..] == items[..|childNodes|];
        nodeArray := Some(items[..]);
      } else if |data.childNodes| > 0 {
        nodeArray := Some([Placeholder]);
      }
    }

    /**
     * Expanding an item in the view: nothing happens for a placeholder or for an
     * item whose node is already expanded; otherwise the item's children are
     * replaced by one freshly generated level. Afterwards the node is marked as
     * expanded, so expanding again changes nothing.
     */
    method BeforeExpand(item: TreeNode, ghost rank: map<NodeData, nat>) returns (expanded: TreeNode)
      requires item.tag.Some? ==> item.tag.value in rank && Ranked(rank)
      modifies rank.Keys`treeNodeExpanded
      ensures expanded.text == item.text && expanded.tag == item.tag
      ensures item.tag.None? || old(item.tag.value.treeNodeExpanded) ==>
        expanded == item && Flags(rank.Keys) == old(Flags(rank.Keys))
      ensures item.tag.Some? && !old(item.tag.value.treeNodeExpanded) ==>
        var s := old(ShapeOf(item.tag.value, rank));
        && ChildItems(s, s.depth + 1).Some?
        && expanded.nodes == ChildItems(s, s.depth + 1).value
        && Flags(rank.Keys) == Marked(old(Flags(rank.Keys)), Expanded(s, s.depth + 1))
      ensures item.tag.Some? ==> item.tag.value.treeNodeExpanded
    {
      expanded := item;
      if item.tag.None? {
        return;
      }
      var data := item.tag.value;

      if data.treeNodeExpanded {
        return;
      }

      ghost var s := ShapeOf(data, rank);
      expanded := expanded.(nodes := []);
      var childNodes := GetChildNodes(data, data.depth + 1, rank);
      expanded := expanded.(nodes := expanded.nodes + childNodes.value);
      FlagsAt(rank.Keys, data);
      MarkedAt(old(Flags(rank.Keys)), Expanded(s, s.depth + 1));
    }
  }
}
