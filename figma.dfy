/**
 * The Figma document tree as the file API delivers it, and the flat layer
 * record the extractor writes out for each of its nodes.
 */
module Figma {
  import opened Wrappers

  /** A node's absolute bounding box; the extractor only copies it. */
  datatype AbsoluteBoundingBox = AbsoluteBoundingBox(x: real, y: real, width: real, height: real)

  /** A node's resizing constraints, one anchor per axis. */
  datatype Constraints = Constraints(vertical: string, horizontal: string)

  /** One node of the document tree; the optional parts are `None` where the API omits them. */
  datatype FigmaNode = FigmaNode(
    id: string,
    name: string,
    nodeType: string,
    absoluteBoundingBox: Option<AbsoluteBoundingBox>,
    styles: Option<map<string, string>>,
    constraints: Option<Constraints>,
    children: seq<FigmaNode>)

  /** The document root; its children are the file's pages. */
  datatype FigmaDocument = FigmaDocument(id: string, name: string, nodeType: string, children: seq<FigmaNode>)

  /** One flattened layer: the node's own fields plus the id of the node it hangs under ("" for none). */
  datatype LayerInfo = LayerInfo(
    id: string,
    name: string,
    nodeType: string,
    parentID: string,
    absoluteBoundingBox: Option<AbsoluteBoundingBox>,
    styles: Option<map<string, string>>,
    constraints: Option<Constraints>)

  /** Number of nodes in the subtree rooted at `node`, the root included. */
  function Size(node: FigmaNode): nat
    decreases node
  {
    1 + SizeAll(node.children)
  }

  /** Number of nodes in all the subtrees rooted at `nodes`. */
  function SizeAll(nodes: seq<FigmaNode>): nat
    decreases nodes
  {
    if nodes == [] then 0 else Size(nodes[0]) + SizeAll(nodes[1..])
  }
}
