/**
 * Finding the requested page among the document's top-level children and
 * flattening it, as the program's main flow does once the file is fetched.
 */
module Pages {
  import opened Wrappers
  import opened Figma
  import opened Layers

  /** The type tag of a page node. */
  const CanvasType := "CANVAS"

  /** Why no layers were extracted: no page of that name. */
  datatype PageError = PageNotFound(pageName: string)

  /** `node` is a page named exactly `pageName` (case-sensitive). */
  predicate IsTargetPage(node: FigmaNode, pageName: string)
  {
    node.name == pageName && node.nodeType == CanvasType
  }

  /** Child `i` is the first child that is a page named `pageName`. */
  predicate IsFirstTargetPage(children: seq<FigmaNode>, pageName: string, i: int)
  {
    && 0 <= i < |children|
    && IsTargetPage(children[i], pageName)
    && forall j :: 0 <= j < i ==> !IsTargetPage(children[j], pageName)
  }

  /**
   * The first child, in order, that is a page named `pageName`, or `None`
   * when no child is.
   */
  method FindPage(children: seq<FigmaNode>, pageName: string) returns (page: Option<FigmaNode>)
    ensures page.None? <==> forall i :: 0 <= i < |children| ==> !IsTargetPage(children[i], pageName)
    ensures page.Some? ==> exists i :: IsFirstTargetPage(children, pageName, i) && children[i] == page.value
  {
    page := None;
    var i := 0;
    while i < |children|
      invariant 0 <= i <= |children|
      invariant page.None?
      invariant forall j :: 0 <= j < i ==> !IsTargetPage(children[j], pageName)
    {
      if IsTargetPage(children[i], pageName) {
        page := Some(children[i]);
        assert IsFirstTargetPage(children, pageName, i);
        break;
      }
      i := i + 1;
    }
  }

  /**
   * The layer records of the page named `pageName` in `document`: those of
   * its first matching top-level child, flattened from an empty slice with
   * no parent, or `PageNotFound` when no child matches.
   */
  method ExtractPageLayers(document: FigmaDocument, pageName: string)
    returns (result: Result<seq<LayerInfo>, PageError>)
    ensures result.Failure? <==> forall i :: 0 <= i < |document.children| ==> !IsTargetPage(document.children[i], pageName)
    ensures result.Failure? ==> result.error == PageNotFound(pageName)
    ensures result.Success? ==> exists i :: IsFirstTargetPage(document.children, pageName, i)
                                          && result.value == Flatten(document.children[i], "")
  {
    var targetPage := FindPage(document.children, pageName);
    if targetPage.None? {
      return Failure(PageNotFound(pageName));
    }
    var layers := new LayerSlice();
    ExtractLayers(targetPage.value, "", layers);
    result := Success(layers.items);
  }

  /**
   * Looking up "Page1" among the pages "Cover" and "Page1" yields the
   * second; looking up "Missing" yields nothing.
   */
  method PageLookupExamples(cover: FigmaNode, page1: FigmaNode)
    returns (found: Option<FigmaNode>, missing: Option<FigmaNode>)
    requires cover.name == "Cover" && cover.nodeType == "CANVAS"
    requires page1.name == "Page1" && page1.nodeType == "CANVAS"
    ensures found == Some(page1)
    ensures missing == None
  {
    var pages := [cover, page1];
    found := FindPage(pages, "Page1");
    assert IsTargetPage(pages[1], "Page1");
    var i :| IsFirstTargetPage(pages, "Page1", i) && pages[i] == found.value;
    assert !IsTargetPage(pages[0], "Page1");
    missing := FindPage(pages, "Missing");
    assert !IsTargetPage(pages[0], "Missing") && !IsTargetPage(pages[1], "Missing");
  }
}
