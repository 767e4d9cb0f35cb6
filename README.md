# Figma layer extractor — Dafny model

The program takes a Figma file URL and a page name. It extracts the file
identifier from the URL, fetches the file's document tree from the Figma file
API, and finds the named page among the document's top-level children. It then
flattens that page's node tree into a list of layer records and writes them to
`layers.json`. This project models the decision-making parts of that flow and
proves what they promise:

- **Identifier extraction** (`FileId`, with `Paths` for `strings.Split`). The
  URL's path is split on `/`. The path must have at least three segments.
  Segment 1 must be `file` or `design`. Segment 2 must match `^[A-Za-z0-9]+$`.
  These checks run in that order, and each one fails with its own error. On
  success, segment 2 is returned unchanged. Parsing the URL is a library step,
  so its outcome is an input: `None` when parsing fails, `Some(path)` otherwise.
- **Layer flattening** (`Layers`). `ExtractLayers` appends one `LayerInfo` per
  node to a caller-owned slice (the class `LayerSlice`). The order is depth
  first, with each node before its children and children in order. The root's
  record carries the given parent id, and every other record carries its
  parent node's id. The bounding box, styles and constraints are copied only
  when the node has them. The method is proved against the pure function
  `Flatten`, and the properties are proved about `Flatten`.
- **Page lookup** (`Pages`). This is the first top-level child whose name is
  exactly the page name and whose type is `CANVAS`, or not-found. It is then
  flattened from an empty slice with an empty parent id.

`Figma` holds the data model: `FigmaNode`, `FigmaDocument`,
`AbsoluteBoundingBox`, `Constraints` and `LayerInfo`. Go's nil pointers and
nil maps become `Option`.

The code checks nothing about segment 0, the text before the first `/`. It
is empty for the absolute path of a full URL. So the relative path
`x/file/ABC` yields `ABC`, just as `/file/ABC` does, and the model follows
the code in this. The prefix is therefore segment 1 of the split, not
segment 0.

## Model

| member | source | states |
|---|---|---|
| Paths.Split | main.go:171 | splitting on `/` yields one more piece than there are separators, and no piece contains the separator |
| Paths.JoinSplit | main.go:171 | joining the split pieces with the separator gives back the path, so nothing is lost |
| Paths.SplitJoin | main.go:171 | separator-free pieces are recovered exactly by splitting their join, so the split is unique |
| FileId.ExtractFileID | main.go:164-193 | fails with InvalidURL exactly when the URL does not parse; fails with MalformedPath exactly when the path has fewer than two `/`; on success returns a non-empty run of ASCII letters and digits with no `/` |
| FileId.SegmentsOfShape | main.go:171-177 | for a path `<lead>/<prefix>/<id><tail>`, segments 0, 1 and 2 are lead, prefix and id |
| FileId.ExtractOnShape | main.go:171-192 | for a path `<lead>/<prefix>/<id><tail>`: an unsupported prefix gives UnsupportedPathPrefix whatever the id; otherwise a non-matching id gives InvalidIdentifierFormat; otherwise the result is exactly id |
| FileId.ShapeOfPath | main.go:171-177 | every path with at least two `/` has the shape `<lead>/<prefix>/<id><tail>` |
| FileId.ExtractedIdIsSegment | main.go:176-192 | a successful result is the id of a path `<lead>/file/<id>...` or `<lead>/design/<id>...`, and it matches the pattern |
| FileId.DesignUrlExample | main.go:176-192 | `/design/AbC123/x` yields `AbC123`, with its case kept |
| FileId.HyphenIdExample | main.go:184-190 | `/file/ab-12` fails with InvalidIdentifierFormat |
| FileId.UnknownPrefixExample | main.go:179-181 | `/proto/ab-12` fails with UnsupportedPathPrefix, because the prefix is checked before the id |
| Layers.Flatten | main.go:196-224 | the records appended for a subtree number exactly its nodes (root plus all descendants) |
| Layers.FlattenAll | main.go:221-223 | the records for a list of children number exactly the nodes of their subtrees |
| Layers.FlattenAllConcat | main.go:221-223 | flattening children one after another concatenates their records |
| Layers.ChildSubtreeIsContiguous | main.go:219-223 | the root's record comes first; right after it and the blocks of children 0..i-1 comes one contiguous block equal to child i's subtree flattened under the root's id |
| Layers.FlattenFollowsPreOrder | main.go:196-223 | record k copies the k-th node in pre-order: same id, name and type, and a bounding box, styles and constraints present exactly when the node has them and equal to the node's; the first record is the root's and carries the given parent id |
| Layers.FlattenAllFollowsPreOrder | main.go:221-223 | the same one-for-one correspondence holds for the records of a list of children |
| Layers.FlattenLinksParents | main.go:196-223 | the first record carries the given parent id; every later record's parent id is the id of an earlier record |
| Layers.OnlyRootHangsUnderParent | main.go:201-222 | when no node of the subtree has the given parent id as its own id, no record but the first carries that parent id |
| Layers.FlattenAllLinksParents | main.go:221-223 | in the records of a list of children, each record's parent id is either the given one or the id of an earlier record |
| Layers.PageWithRectangleExample | main.go:196-223 | the page `1:0` holding rectangle `1:1` flattens to the page's record with an empty parent id, followed by the rectangle's record with parent `1:0` and its box |
| Layers.LayerSlice.constructor | main.go:142 | a new slice is empty |
| Layers.ExtractLayers | main.go:196-224 | the slice's new contents are its old contents followed by the subtree's flattened records, and the old contents are left unchanged |
| Pages.FindPage | main.go:128-139 | not-found exactly when no top-level child is a `CANVAS` named exactly as requested; otherwise the first such child in order, with no earlier child matching |
| Pages.PageLookupExamples | main.go:128-139 | among the pages `Cover` and `Page1`, looking up `Page1` yields the second and looking up `Missing` yields not-found |
| Pages.ExtractPageLayers | main.go:127-143 | PageNotFound exactly when no child matches; otherwise the flattened records of the first matching page, with an empty parent id |

## Left out

- Argument handling, the `FIGMA_API_TOKEN` lookup and the console messages
  (main.go:69-82, 87, 159): process glue.
- The HTTP request, its header, the response status check and the body
  (main.go:91-118): network I/O. The document tree is an input to
  `ExtractPageLayers`.
- JSON decoding of the response, `json.MarshalIndent` and writing
  `layers.json` (main.go:121-125, 145-157): library serialisation and file
  I/O. The `omitempty` tags are reflected only as `Option` fields. The model
  does not say that an empty, non-nil styles map is also omitted when
  serialised.
- `url.Parse`: a foreign library. Its outcome is the `Option<string>` that
  `ExtractFileID` takes, so percent-decoding of the path is not modelled.
- The regular expression engine: `^[A-Za-z0-9]+$` is the predicate
  `MatchesIdPattern`. The branch for a pattern that fails to compile
  (main.go:185-187) cannot be taken, because the pattern is a constant.
- Go strings are byte strings and Dafny strings are character sequences.
  This does not matter here: `/` and the pattern's characters are ASCII, and
  no UTF-8 continuation byte equals them.
- The `float64` fields of `AbsoluteBoundingBox` are `real`s. They are only
  copied, never computed with.
- The `FigmaFile` wrapper and its `Components` map (main.go:40-44, 64-66): the
  map is never read. The model starts from the `FigmaDocument`.
- ExtractLayers: the record shares the node's bounding-box pointer and styles
  map, because Go copies pointers. The model copies values, so that aliasing
  is not captured.
