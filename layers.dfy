/**
 * Flattening a node tree into layer records (extractLayers): one record per
 * node, depth first, each node before its children, children in order, each
 * record carrying the id of the node it hangs under.
 */
module Layers {
  import opened Wrappers
  import opened Figma

  /** The record for `node` when it hangs under `parentID`. */
  function Layer(node: FigmaNode, parentID: string): LayerInfo
  {
    LayerInfo(node.id, node.name, node.nodeType, parentID,
              node.absoluteBoundingBox, node.styles, node.constraints)
  }

  /** The records the extractor appends for the subtree rooted at `node`. */
  function Flatten(node: FigmaNode, parentID: string): (r: seq<LayerInfo>)
    ensures |r| == Size(node)
    decreases node
  {
    [Layer(node, parentID)] + FlattenAll(node.children, node.id)
  }

  /** The records for the subtrees rooted at `nodes`, one subtree after another. */
  function FlattenAll(nodes: seq<FigmaNode>, parentID: string): (r: seq<LayerInfo>)
    ensures |r| == SizeAll(nodes)
    decreases nodes
  {
    if nodes == [] then [] else Flatten(nodes[0], parentID) + FlattenAll(nodes[1..], parentID)
  }

  /** The nodes of the subtree rooted at `node` in pre-order: the node, then each child's subtree in turn. */
  function PreOrder(node: FigmaNode): seq<FigmaNode>
    decreases node
  {
    [node] + PreOrderAll(node.children)
  }

  function PreOrderAll(nodes: seq<FigmaNode>): seq<FigmaNode>
    decreases nodes
  {
    if nodes == [] then [] else PreOrder(nodes[0]) + PreOrderAll(nodes[1..])
  }

  /**
   * `layer` carries `node`'s id, name and type, and has a bounding box,
   * styles and constraints exactly when the node has them, equal to the node's.
   */
  predicate CopiesNode(layer: LayerInfo, node: FigmaNode)
  {
    && layer.id == node.id && layer.name == node.name && layer.nodeType == node.nodeType
    && layer.absoluteBoundingBox == node.absoluteBoundingBox
    && layer.styles == node.styles
    && layer.constraints == node.constraints
  }

  /** Some record before position `k` has the id that record `k` names as its parent. */
  predicate HasEarlierParent(layers: seq<LayerInfo>, k: nat)
    requires k < |layers|
  {
    exists j :: 0 <= j < k && layers[j].id == layers[k].parentID
  }

  /** Flattening a concatenation of forests concatenates their records. */
  lemma {:induction false} FlattenAllConcat(a: seq<FigmaNode>, b: seq<FigmaNode>, parentID: string)
    ensures FlattenAll(a + b, parentID) == FlattenAll(a, parentID) + FlattenAll(b, parentID)
    decreases a
  {
    if a != [] {
      assert (a + b)[0] == a[0] && (a + b)[1..] == a[1..] + b;
      FlattenAllConcat(a[1..], b, parentID);
      assert FlattenAll(a + b, parentID)
          == Flatten(a[0], parentID) + (FlattenAll(a[1..], parentID) + FlattenAll(b, parentID));
    } else {
      assert a + b == b;
    }
  }

  /** Flattening one more subtree appends its records. */
  lemma FlattenAllSnoc(nodes: seq<FigmaNode>, node: FigmaNode, parentID: string)
    ensures FlattenAll(nodes + [node], parentID) == FlattenAll(nodes, parentID) + Flatten(node, parentID)
  {
    FlattenAllConcat(nodes, [node], parentID);
    assert [node][1..] == [];
  }

  /**
   * Pre-order and contiguity: the record for `node` comes first, and the
   * records of child i's subtree (with `node`'s id as their parent) form one
   * block that starts after the root and the blocks of children 0..i-1.
   */
  lemma ChildSubtreeIsContiguous(node: FigmaNode, parentID: string, i: nat)
    requires i < |node.children|
    ensures var start := 1 + SizeAll(node.children[..i]);
      && Flatten(node, parentID)[0] == Layer(node, parentID)
      && start + Size(node.children[i]) <= |Flatten(node, parentID)|
      && Flatten(node, parentID)[start .. start + Size(node.children[i])]
         == Flatten(node.children[i], node.id)
  {
    var cs := node.children;
    assert cs == cs[..i] + ([cs[i]] + cs[i + 1..]);
    FlattenAllConcat(cs[..i], [cs[i]] + cs[i + 1..], node.id);
    FlattenAllConcat([cs[i]], cs[i + 1..], node.id);
    assert [cs[i]][1..] == [];
  }

  /**
   * The records follow the pre-order of the nodes one for one: record k
   * copies the k-th node of the subtree, and the first record is the root's
   * and hangs under `parentID`.
   */
  lemma {:induction false} FlattenFollowsPreOrder(node: FigmaNode, parentID: string)
    ensures |Flatten(node, parentID)| == |PreOrder(node)|
    ensures forall k :: 0 <= k < |PreOrder(node)| ==> CopiesNode(Flatten(node, parentID)[k], PreOrder(node)[k])
    ensures PreOrder(node)[0] == node && Flatten(node, parentID)[0].parentID == parentID
    decreases node
  {
    FlattenAllFollowsPreOrder(node.children, node.id);
  }

  lemma {:induction false} FlattenAllFollowsPreOrder(nodes: seq<FigmaNode>, parentID: string)
    ensures |FlattenAll(nodes, parentID)| == |PreOrderAll(nodes)|
    ensures forall k :: 0 <= k < |PreOrderAll(nodes)| ==> CopiesNode(FlattenAll(nodes, parentID)[k], PreOrderAll(nodes)[k])
    decreases nodes
  {
    if nodes != [] {
      FlattenFollowsPreOrder(nodes[0], parentID);
      FlattenAllFollowsPreOrder(nodes[1..], parentID);
    }
  }

  /**
   * Parent linkage: the first record hangs under `parentID`; every later
   * record names as its parent the id of an earlier record.
   */
  lemma {:induction false} FlattenLinksParents(node: FigmaNode, parentID: string)
    ensures Flatten(node, parentID)[0].parentID == parentID
    ensures forall k :: 0 < k < |Flatten(node, parentID)| ==> HasEarlierParent(Flatten(node, parentID), k)
    decreases node
  {
    var r := Flatten(node, parentID);
    var rest := FlattenAll(node.children, node.id);
    FlattenAllLinksParents(node.children, node.id);
    forall k | 0 < k < |r|
      ensures HasEarlierParent(r, k)
    {
      assert r[k] == rest[k - 1];
      if rest[k - 1].parentID == node.id {
        assert r[0].id == r[k].parentID;
      } else {
        var j :| 0 <= j < k - 1 && rest[j].id == rest[k - 1].parentID;
        assert r[j + 1] == rest[j];
      }
    }
  }

  /**
   * When no node of the subtree has `parentID` as its id, the first record
   * is the only one that hangs under `parentID`.
   */
  lemma OnlyRootHangsUnderParent(node: FigmaNode, parentID: string)
    requires forall m :: m in PreOrder(node) ==> m.id != parentID
    ensures forall k :: 0 < k < |Flatten(node, parentID)| ==> Flatten(node, parentID)[k].parentID != parentID
  {
    var r := Flatten(node, parentID);
    FlattenLinksParents(node, parentID);
    FlattenFollowsPreOrder(node, parentID);
    forall k | 0 < k < |r|
      ensures r[k].parentID != parentID
    {
      assert HasEarlierParent(r, k);
      var j :| 0 <= j < k && r[j].id == r[k].parentID;
      assert CopiesNode(r[j], PreOrder(node)[j]);
      assert PreOrder(node)[j] in PreOrder(node);
    }
  }

  /** In the records of a forest, each record hangs under `parentID` or under an earlier record. */
  lemma {:induction false} FlattenAllLinksParents(nodes: seq<FigmaNode>, parentID: string)
    ensures forall k :: 0 <= k < |FlattenAll(nodes, parentID)| ==>
      FlattenAll(nodes, parentID)[k].parentID == parentID || HasEarlierParent(FlattenAll(nodes, parentID), k)
    decreases nodes
  {
    if nodes != [] {
      var r := FlattenAll(nodes, parentID);
      var first := Flatten(nodes[0], parentID);
      var rest := FlattenAll(nodes[1..], parentID);
      FlattenLinksParents(nodes[0], parentID);
      FlattenAllLinksParents(nodes[1..], parentID);
      forall k | 0 <= k < |r|
        ensures r[k].parentID == parentID || HasEarlierParent(r, k)
      {
        if k < |first| {
          assert r[k] == first[k];
          if k > 0 {
            assert HasEarlierParent(first, k);
            var j :| 0 <= j < k && first[j].id == first[k].parentID;
            assert r[j] == first[j];
          }
        } else {
          var m := k - |first|;
          assert r[k] == rest[m];
          if rest[m].parentID != parentID {
            assert HasEarlierParent(rest, m);
            var j :| 0 <= j < m && rest[j].id == rest[m].parentID;
            assert r[j + |first|] == rest[j];
          }
        }
      }
    }
  }

  /**
   * The tree is fixed through `requires` rather than written as literals in
   * the ensures clause, which keeps the solver's work small.
   *
   * The example tree of a page "Page1" holding one rectangle flattens to
   * the page's record without a parent, then the rectangle's under the page.
   */
  lemma PageWithRectangleExample(box: AbsoluteBoundingBox, rect: FigmaNode, page: FigmaNode)
    requires box == AbsoluteBoundingBox(0.0, 0.0, 10.0, 10.0)
    requires rect == FigmaNode("1:1", "Rect", "RECTANGLE", Some(box), None, None, [])
    requires page == FigmaNode("1:0", "Page1", "CANVAS", None, None, None, [rect])
    ensures Flatten(page, "") == [
      LayerInfo("1:0", "Page1", "CANVAS", "", None, None, None),
      LayerInfo("1:1", "Rect", "RECTANGLE", "1:0", Some(box), None, None)]
  {
    assert FlattenAll([rect], "1:0") == Flatten(rect, "1:0") + FlattenAll([], "1:0");
  }

  /** The caller-owned slice of layer records that the extractor appends to. */
  class LayerSlice {
    var items: seq<LayerInfo>

    constructor ()
      ensures items == []
    {
      items := [];
    }
  }

  /**
   * Appends the records of the subtree rooted at `node` to `layers`, the
   * root's under `parentID` and every child's, recursively, under its
   * parent's id; what `layers` held before is left as it was.
   */
  method ExtractLayers(node: FigmaNode, parentID: string, layers: LayerSlice)
    modifies layers
    ensures layers.items == old(layers.items) + Flatten(node, parentID)
    decreases node
  {
    ghost var before := layers.items;
    var layer := LayerInfo(node.id, node.name, node.nodeType, parentID, None, None, None);
    if node.absoluteBoundingBox.Some? {
      layer := layer.(absoluteBoundingBox := node.absoluteBoundingBox);
    }
    if node.styles.Some? {
      layer := layer.(styles := node.styles);
    }
    if node.constraints.Some? {
      layer := layer.(constraints := node.constraints);
    }
    assert layer == Layer(node, parentID);
    layers.items := layers.items + [layer];

    var children := node.children;
    var i := 0;
    while i < |children|
      invariant 0 <= i <= |children|
      invariant layers.items == before + [layer] + FlattenAll(children[..i], node.id)
    {
      var child := children[i];
      FlattenAllSnoc(children[..i], child, node.id);
      assert children[..i + 1] == children[..i] + [child];
      ExtractLayers(child, node.id, layers);
      i := i + 1;
    }
    assert children[..i] == children;
  }
}
