/**
 * The data model of the navigator (XmlNavigator/XmlParser.cs): the `NodeData`
 * tree, whose nodes own an ordered child list and carry a back-pointer to their
 * parent and their position in that parent's list, and the `XmlParser` that
 * builds such a tree from a loaded XML document, keeping element nodes only.
 *
 * The loaded document is an abstract value (`XmlNode`): reading the file and the
 * XML library's own parsing are not part of this model.
 */
module Parser {
  import opened Wrappers
  import opened Lists

  /** How a structural edit ends: normally, or with `ArgumentOutOfRangeException`. */
  datatype Outcome = Completed | ArgumentOutOfRange

  /** A node of the navigator's element tree. */
  class NodeData {
    var name: string
    /** Assigned only by this class (a private setter in the C# class). */
    var parent: NodeData?
    var childNodes: seq<NodeData>
    /** The position of this node in its parent's child list; assigned only by this class. */
    var index: int
    var startPosition: int
    var endPosition: int

    // Read by the navigator form but computed by code that is not part of this
    // model: the node's depth in the tree, its display label, and whether its
    // children have already been turned into view items.
    var depth: int
    var displayName: string
    var treeNodeExpanded: bool

    /**
     * A fresh node: the given name, no children, no parent, not expanded. The
     * depth and display name are computed by code outside this model and are
     * left unconstrained.
     */
    constructor (name: string)
      ensures this.name == name && ToString() == name
      ensures childNodes == [] && parent == null && index == 0
      ensures startPosition == 0 && endPosition == 0
      ensures !treeNodeExpanded
    {
      this.name := name;
      parent := null;
      childNodes := [];
      index := 0;
      startPosition, endPosition := 0, 0;
      treeNodeExpanded := false;
    }

    function ToString(): string
      reads this`name
    {
      name
    }

    /** Every child points back at this node and knows its own position in the child list. */
    ghost predicate IndexesConsistent()
      reads this`childNodes, childNodes`parent, childNodes`index
    {
      forall i :: 0 <= i < |childNodes| ==> childNodes[i].parent == this && childNodes[i].index == i
    }

    /** A node appears at most once among the children of a consistent node. */
    lemma ConsistentIsDistinct()
      requires IndexesConsistent()
      ensures Distinct(childNodes)
    {
      forall i, j | 0 <= i < j < |childNodes| ensures childNodes[i] != childNodes[j] {
        assert childNodes[i].index == i && childNodes[j].index == j;
      }
    }

    /** Creates a node with the given name and appends it as the last child; returns the new node. */
    method AddChildNamed(name: string) returns (childNode: NodeData)
      modifies this`childNodes
      ensures fresh(childNode)
      ensures childNode.name == name && childNode.childNodes == []
      ensures childNodes == old(childNodes) + [childNode]
      ensures childNode.parent == this && childNode.index == |old(childNodes)|
      ensures old(IndexesConsistent()) ==> IndexesConsistent()
    {
      childNode := new NodeData(name);
      AddChild(childNode);
    }

    /** Appends an existing node as the last child, pointing it back at this node. */
    method AddChild(childNode: NodeData)
      modifies this`childNodes, childNode`parent, childNode`index
      ensures childNodes == old(childNodes) + [childNode]
      ensures childNode.parent == this && childNode.index == |old(childNodes)|
      ensures old(IndexesConsistent()) && childNode !in old(childNodes) ==> IndexesConsistent()
    {
      childNode.parent := this;
      childNode.index := |childNodes|;
      childNodes := childNodes + [childNode];
    }

    /**
     * The renumbering loop shared by `InsertChild` and `RemoveChildAt`: every child
     * from position `start` on is told its position. A node occurring more than
     * once keeps the last position written, its last occurrence; a node occurring
     * only before `start` is not touched.
     */
    method RenumberFrom(start: nat)
      requires start <= |childNodes|
      modifies childNodes`index
      ensures forall j {:trigger childNodes[j].index} :: start <= j < |childNodes| ==>
        childNodes[j].index == LastIndexOf(childNodes, childNodes[j])
      ensures forall o :: o in childNodes && o !in childNodes[start..] ==> o.index == old(o.index)
    {
      for i := start to |childNodes|
        invariant forall j {:trigger childNodes[j].index} :: start <= j < i ==>
          childNodes[j].index == LastIndexOf(childNodes[..i], childNodes[j])
        invariant forall o :: o in childNodes && o !in childNodes[start..i] ==> o.index == old(o.index)
      {
        LastIndexOfExtend(childNodes, start, i);
        childNodes[i].index := i;
      }
      assert childNodes[..|childNodes|] == childNodes;
    }

    /**
     * Inserts an existing node at the given position and renumbers the children
     * from that position on. A position outside 0..|childNodes| is refused before
     * anything changes.
     *
     * When a node occurs in the list more than once, the renumbering loop leaves it
     * the last position it was written with, which is its last occurrence.
     */
    method InsertChild(childNode: NodeData, index: int) returns (outcome: Outcome)
      modifies this`childNodes, childNode`parent, childNode`index, childNodes`index
      ensures outcome == ArgumentOutOfRange <==> index < 0 || index > |old(childNodes)|
      ensures outcome == ArgumentOutOfRange ==>
        childNodes == old(childNodes) && childNode.parent == old(childNode.parent) &&
        forall o :: o in old(childNodes) + [childNode] ==> o.index == old(o.index)
      ensures outcome == Completed ==>
        0 <= index <= |old(childNodes)| && childNodes == Insert(old(childNodes), index, childNode) &&
        childNode.parent == this
      ensures outcome == Completed ==>
        forall j {:trigger childNodes[j].index} :: index <= j < |childNodes| ==> childNodes[j].index == LastIndexOf(childNodes, childNodes[j])
      ensures outcome == Completed ==>
        forall o :: o in old(childNodes) + [childNode] && o !in childNodes[index..] ==> o.index == old(o.index)
      ensures outcome == Completed && old(IndexesConsistent()) && childNode !in old(childNodes) ==>
        IndexesConsistent()
    {
      if index < 0 || index > |childNodes| {
        return ArgumentOutOfRange;
      }
      ghost var wasConsistent := IndexesConsistent();
      if wasConsistent {
        ConsistentIsDistinct();
      }
      childNode.parent := this;
      childNodes := Insert(childNodes, index, childNode);

      RenumberFrom(index);
      outcome := Completed;

      if wasConsistent && childNode !in old(childNodes) {
        InsertKeepsDistinct(old(childNodes), index, childNode);
        forall j | 0 <= j < |childNodes|
          ensures childNodes[j].parent == this && childNodes[j].index == j
        {
          if j >= index {
            DistinctLastIndex(childNodes, j);
          } else {
            assert childNodes[j] !in childNodes[index..];
          }
        }
      }
    }

    /**
     * Removes the first occurrence of the given node; nothing happens when it is
     * not a child. The removed node keeps its parent and position fields.
     */
    method RemoveChild(childNode: NodeData)
      modifies this`childNodes, childNodes`index
      ensures childNode !in old(childNodes) ==>
        childNodes == old(childNodes) && forall o :: o in old(childNodes) ==> o.index == old(o.index)
      ensures childNode in old(childNodes) ==>
        childNodes == RemoveAt(old(childNodes), FirstIndexOf(old(childNodes), childNode))
      ensures childNode in old(childNodes) ==>
        forall j {:trigger childNodes[j].index} :: FirstIndexOf(old(childNodes), childNode) <= j < |childNodes| ==>
          childNodes[j].index == LastIndexOf(childNodes, childNodes[j])
      ensures childNode in old(childNodes) ==>
        forall o :: o in old(childNodes) && o !in childNodes[FirstIndexOf(old(childNodes), childNode)..] ==>
          o.index == old(o.index)
      ensures childNode.parent == old(childNode.parent)
      ensures old(IndexesConsistent()) ==> childNode.index == old(childNode.index)
      ensures old(IndexesConsistent()) ==> IndexesConsistent()
    {
      var index := FirstIndexOf(childNodes, childNode);
      if index >= 0 {
        var outcome := RemoveChildAt(index);
        assert outcome == Completed;
        if old(IndexesConsistent()) {
          assert childNode !in childNodes[index..];
        }
      }
    }

    /**
     * Removes the child at the given position and renumbers the children from that
     * position on. A position outside 0..|childNodes|-1 is refused before anything
     * changes. The removed node keeps its parent and position fields.
     */
    method RemoveChildAt(index: int) returns (outcome: Outcome)
      modifies this`childNodes, childNodes`index
      ensures outcome == ArgumentOutOfRange <==> index < 0 || index >= |old(childNodes)|
      ensures outcome == ArgumentOutOfRange ==>
        childNodes == old(childNodes) && forall o :: o in old(childNodes) ==> o.index == old(o.index)
      ensures outcome == Completed ==>
        0 <= index < |old(childNodes)| && childNodes == RemoveAt(old(childNodes), index)
      ensures outcome == Completed ==>
        forall j {:trigger childNodes[j].index} :: index <= j < |childNodes| ==> childNodes[j].index == LastIndexOf(childNodes, childNodes[j])
      ensures outcome == Completed ==>
        forall o :: o in old(childNodes) && o !in childNodes[index..] ==> o.index == old(o.index)
      ensures outcome == Completed && old(IndexesConsistent()) ==>
        IndexesConsistent() && old(childNodes)[index] !in childNodes &&
        old(childNodes)[index].parent == this && old(childNodes)[index].index == index
    {
      if index < 0 || index >= |childNodes| {
        return ArgumentOutOfRange;
      }
      ghost var before := childNodes;
      ghost var wasConsistent := IndexesConsistent();
      childNodes := RemoveAt(childNodes, index);

      RenumberFrom(index);
      outcome := Completed;

      if wasConsistent {
        assert Distinct(before) by {
          forall i, j | 0 <= i < j < |before| ensures before[i] != before[j] {
            assert old(before[i].index) == i && old(before[j].index) == j;
          }
        }
        RemoveAtKeepsDistinct(before, index);
        forall j | 0 <= j < |childNodes|
          ensures childNodes[j].parent == this && childNodes[j].index == j
        {
          if j >= index {
            DistinctLastIndex(childNodes, j);
            assert childNodes[j] == old(childNodes)[j + 1];
          } else {
            assert childNodes[j] !in childNodes[index..];
          }
        }
      }
    }
  }

  /** The kinds of node an XML document tree holds below an element. */
  datatype XmlNodeType =
    | Element
    | Text
    | CDATA
    | Comment
    | ProcessingInstruction
    | Whitespace
    | SignificantWhitespace
    | EntityReference

  /** A node of the loaded XML document, as the XML library presents it. */
  datatype XmlNode = XmlNode(nodeType: XmlNodeType, localName: string, childNodes: seq<XmlNode>)

  /** The value a `NodeData` tree stands for: names and ordered children. */
  datatype ElementTree = ElementTree(name: string, children: seq<ElementTree>)

  /** The tree `ParseNode` builds for an XML node: its local name and its element children. */
  function ParseElement(x: XmlNode): ElementTree
    decreases x, 1
  {
    ElementTree(x.localName, ParseChildren(x.childNodes))
  }

  /** The trees for the element-type nodes of `cs`, in document order; other nodes are skipped. */
  function ParseChildren(cs: seq<XmlNode>): seq<ElementTree>
    decreases cs, 0
  {
    if cs == [] then []
    else if cs[0].nodeType == Element then [ParseElement(cs[0])] + ParseChildren(cs[1..])
    else ParseChildren(cs[1..])
  }

  /** The positions of the element-type nodes of `cs`, in increasing order. */
  function ElementPositions(cs: seq<XmlNode>): (ps: seq<nat>)
    ensures forall k :: 0 <= k < |ps| ==> ps[k] < |cs| && cs[ps[k]].nodeType == Element
    ensures forall k, l :: 0 <= k < l < |ps| ==> ps[k] < ps[l]
    ensures forall i :: 0 <= i < |cs| && cs[i].nodeType == Element ==> i in ps
  {
    if cs == [] then []
    else
      var front := ElementPositions(cs[..|cs| - 1]);
      if cs[|cs| - 1].nodeType == Element then front + [|cs| - 1] else front
  }

  /** Parsing a concatenation of sibling lists parses each list in turn. */
  lemma {:induction false} ParseChildrenAppend(a: seq<XmlNode>, b: seq<XmlNode>)
    ensures ParseChildren(a + b) == ParseChildren(a) + ParseChildren(b)
  {
    if a == [] {
      assert a + b == b;
    } else {
      assert (a + b)[1..] == a[1..] + b;
      ParseChildrenAppend(a[1..], b);
    }
  }

  /**
   * The parsed children correspond one to one, in order, to the element-type
   * nodes of the input: the k-th tree is the parse of the k-th element node.
   */
  lemma {:induction false} ParseChildrenMatchesElements(cs: seq<XmlNode>)
    ensures |ParseChildren(cs)| == |ElementPositions(cs)|
    ensures forall k :: 0 <= k < |ElementPositions(cs)| ==>
      ParseChildren(cs)[k] == ParseElement(cs[ElementPositions(cs)[k]])
  {
    if cs != [] {
      var front := cs[..|cs| - 1];
      var last := cs[|cs| - 1];
      assert cs == front + [last];
      ParseChildrenAppend(front, [last]);
      ParseChildrenMatchesElements(front);
      assert ParseChildren([last]) == if last.nodeType == Element then [ParseElement(last)] else [];
    }
  }

  /** An XML element holding the given tree, with element children only. */
  function Unparse(t: ElementTree): XmlNode
    decreases t, 1
  {
    XmlNode(Element, t.name, UnparseAll(t.children))
  }

  /** The XML elements holding the given trees, in order. */
  function UnparseAll(ts: seq<ElementTree>): (xs: seq<XmlNode>)
    ensures |xs| == |ts|
    decreases ts, 0
  {
    if ts == [] then [] else [Unparse(ts[0])] + UnparseAll(ts[1..])
  }

  /** Every tree is the parse of some XML element: parsing undoes `Unparse`. */
  lemma {:induction false} ParseUnparse(t: ElementTree)
    ensures ParseElement(Unparse(t)) == t
    decreases t, 1
  {
    ParseUnparseAll(t.children);
  }

  lemma {:induction false} ParseUnparseAll(ts: seq<ElementTree>)
    ensures ParseChildren(UnparseAll(ts)) == ts
    decreases ts, 0
  {
    if ts != [] {
      ParseUnparse(ts[0]);
      ParseUnparseAll(ts[1..]);
      assert UnparseAll(ts)[1..] == UnparseAll(ts[1..]);
    }
  }

  /**
   * `n` is the root of a `NodeData` tree, inside `objs`, holding the tree `t`,
   * and every node in it is consistently linked to its children.
   */
  ghost predicate Represents(n: NodeData, t: ElementTree, objs: set<NodeData>)
    reads objs`name, objs`childNodes, objs`parent, objs`index
    decreases t
  {
    && n in objs
    && n.name == t.name
    && |n.childNodes| == |t.children|
    && forall i :: 0 <= i < |t.children| ==>
         && n.childNodes[i] in objs
         && n.childNodes[i].parent == n
         && n.childNodes[i].index == i
         && Represents(n.childNodes[i], t.children[i], objs)
  }

  /** A node of a represented tree is consistently linked to its children. */
  lemma RepresentedIsConsistent(n: NodeData, t: ElementTree, objs: set<NodeData>)
    requires Represents(n, t, objs)
    ensures n.IndexesConsistent()
  {
  }

  /** A tree inside a set of nodes is also inside any larger set. */
  lemma {:induction false} RepresentsInLarger(n: NodeData, t: ElementTree, objs: set<NodeData>, more: set<NodeData>)
    requires Represents(n, t, objs) && objs <= more
    ensures Represents(n, t, more)
    decreases t
  {
    forall i | 0 <= i < |t.children| ensures Represents(n.childNodes[i], t.children[i], more) {
      RepresentsInLarger(n.childNodes[i], t.children[i], objs, more);
    }
  }

  /**
   * The nodes of `rank` are closed under taking children, and every child ranks
   * strictly below its parent: the child edges among them form a finite acyclic graph.
   */
  ghost predicate Ranked(rank: map<NodeData, nat>)
    reads rank.Keys`childNodes
  {
    forall n, i :: n in rank && 0 <= i < |n.childNodes| ==>
      n.childNodes[i] in rank && rank[n.childNodes[i]] < rank[n]
  }

  /**
   * The children `kids` built so far for `node` hold the trees `ts`, in order:
   * each points back at `node` with its position, its subtree lies inside the
   * ranked nodes `below`, and its rank is under `height`.
   */
  ghost predicate Built(node: NodeData, kids: seq<NodeData>, ts: seq<ElementTree>, below: map<NodeData, nat>, height: nat)
    reads below.Keys`name, below.Keys`childNodes, below.Keys`parent, below.Keys`index
  {
    && |kids| == |ts|
    && Ranked(below)
    && forall j :: 0 <= j < |kids| ==>
         && kids[j] in below
         && below[kids[j]] < height
         && kids[j].parent == node
         && kids[j].index == j
         && Represents(kids[j], ts[j], below.Keys)
  }

  /** One more child, with its own ranked subtree of new nodes, extends what is built. */
  lemma BuiltExtend(node: NodeData, kids: seq<NodeData>, ts: seq<ElementTree>, below: map<NodeData, nat>, height: nat,
                    child: NodeData, t: ElementTree, childRank: map<NodeData, nat>)
    requires Built(node, kids, ts, below, height)
    requires below.Keys !! childRank.Keys
    requires child in childRank && Ranked(childRank) && Represents(child, t, childRank.Keys)
    requires child.parent == node && child.index == |kids|
    ensures Built(node, kids + [child], ts + [t], below + childRank,
                  if height <= childRank[child] then childRank[child] + 1 else height)
  {
    var more := below + childRank;
    forall j | 0 <= j < |kids| ensures Represents(kids[j], ts[j], more.Keys) {
      RepresentsInLarger(kids[j], ts[j], below.Keys, more.Keys);
    }
    RepresentsInLarger(child, t, childRank.Keys, more.Keys);
  }

  /** Once all children are built, `node` holds the tree of its name and their trees. */
  lemma BuiltClose(node: NodeData, ts: seq<ElementTree>, below: map<NodeData, nat>, height: nat)
    requires node !in below && Built(node, node.childNodes, ts, below, height)
    ensures Ranked(below[node := height])
    ensures Represents(node, ElementTree(node.name, ts), below[node := height].Keys)
  {
    var rank := below[node := height];
    forall j | 0 <= j < |ts| ensures Represents(node.childNodes[j], ts[j], rank.Keys) {
      RepresentsInLarger(node.childNodes[j], ts[j], below.Keys, rank.Keys);
    }
  }

  /** Builds the `NodeData` tree of a loaded document. */
  class XmlParser {
    /** The document element of the loaded file; `None` when the file is not a valid XML document. */
    var document: Option<XmlNode>
    var rootNode: NodeData?
    /** The nodes of the parsed tree, ranked so that walking down the tree ends. */
    ghost var rank: map<NodeData, nat>

    /** A parser over an already loaded document, which parses it at once. */
    constructor (document: Option<XmlNode>)
      ensures this.document == document
      ensures document.None? ==> rootNode == null
      ensures document.Some? ==> rootNode != null && fresh(rank.Keys) && Parsed()
    {
      this.document := document;
      new;
      Parse();
    }

    /** The root holds the parse of the document element, has no parent, and its tree is ranked. */
    ghost predicate Parsed()
      reads this, rank.Keys`name, rank.Keys`childNodes, rank.Keys`parent, rank.Keys`index
      requires document.Some? && rootNode != null
    {
      && rootNode in rank
      && rootNode.parent == null
      && Ranked(rank)
      && Represents(rootNode, ParseElement(document.value), rank.Keys)
    }

    /** Parses the current document: no root when there is no document. */
    method Parse()
      modifies this`rootNode, this`rank
      ensures document.None? ==> rootNode == null
      ensures document.Some? ==> rootNode != null && fresh(rank.Keys) && Parsed()
    {
      rootNode := null;

      if document.None? {
        return;
      }

      var root;
      root, rank := ParseNode(document.value, null);
      rootNode := root;
    }

    /**
     * Parses a node and, recursively, its element children. The new node is
     * appended to `parentNode` when there is one; it is a fresh root otherwise.
     * `rank` ranks the fresh nodes of the new subtree.
     */
    method ParseNode(xmlNode: XmlNode, parentNode: NodeData?) returns (node: NodeData, ghost rank: map<NodeData, nat>)
      modifies (if parentNode == null then {} else {parentNode})`childNodes
      ensures fresh(rank.Keys) && node in rank && Ranked(rank)
      ensures Represents(node, ParseElement(xmlNode), rank.Keys)
      ensures node.parent == parentNode
      ensures parentNode != null ==>
        parentNode.childNodes == old(parentNode.childNodes) + [node] && node.index == |old(parentNode.childNodes)|
      decreases xmlNode, 1
    {
      if parentNode == null {
        node := new NodeData(xmlNode.localName);
      } else {
        node := parentNode.AddChildNamed(xmlNode.localName);
      }

      ghost var below, height := ParseChildNodes(xmlNode, node);
      BuiltClose(node, ParseChildren(xmlNode.childNodes), below, height);
      rank := below[node := height];
    }

    /**
     * The loop of `ParseNode`: parses the element children of `xmlNode`, in
     * order, as new children of `node`, skipping the other kinds of node.
     * `below` ranks the new nodes, all under `height`.
     */
    method ParseChildNodes(xmlNode: XmlNode, node: NodeData) returns (ghost below: map<NodeData, nat>, ghost height: nat)
      requires node.childNodes == []
      modifies node`childNodes
      ensures fresh(below.Keys)
      ensures Built(node, node.childNodes, ParseChildren(xmlNode.childNodes), below, height)
      decreases xmlNode, 0
    {
      below, height := map[], 0;
      ghost var kids: seq<NodeData> := [];
      ghost var trees: seq<ElementTree> := [];
      var i := 0;
      while i < |xmlNode.childNodes|
        invariant 0 <= i <= |xmlNode.childNodes|
        invariant fresh(below.Keys)
        invariant node.childNodes == kids
        invariant trees == ParseChildren(xmlNode.childNodes[..i])
        invariant Built(node, kids, trees, below, height)
      {
        var childNode := xmlNode.childNodes[i];
        assert xmlNode.childNodes[..i + 1] == xmlNode.childNodes[..i] + [childNode];
        ParseChildrenAppend(xmlNode.childNodes[..i], [childNode]);
        if childNode.nodeType == Element {
          var child;
          ghost var childRank;
          child, childRank := ParseNode(childNode, node);
          BuiltExtend(node, kids, trees, below, height, child, ParseElement(childNode), childRank);
          kids := kids + [child];
          trees := trees + [ParseElement(childNode)];
          below := below + childRank;
          height := if height <= childRank[child] then childRank[child] + 1 else height;
        }
        i := i + 1;
      }
      assert xmlNode.childNodes[..i] == xmlNode.childNodes;
    }
  }
}
