/**
 * Extracting a Figma file identifier from a document URL (extractFileID).
 *
 * Parsing the URL is a library step outside this model: its outcome is
 * given as `None` when the URL does not parse and `Some(path)` with the
 * parsed URL's path otherwise.
 */
module FileId {
  import opened Wrappers
  import opened Paths

  /** The four ways extraction fails, one per check, in the order they run. */
  datatype ExtractError =
    | InvalidURL               // the URL does not parse
    | MalformedPath            // the path has fewer than three '/'-separated segments
    | UnsupportedPathPrefix    // segment 1 is neither "file" nor "design"
    | InvalidIdentifierFormat  // segment 2 does not match ^[A-Za-z0-9]+$

  /** The bracket class [A-Za-z0-9]: an ASCII letter or digit. */
  predicate IsIdChar(c: char)
  {
    'A' <= c <= 'Z' || 'a' <= c <= 'z' || '0' <= c <= '9'
  }

  /** The anchored pattern ^[A-Za-z0-9]+$: one or more identifier characters and nothing else. */
  predicate MatchesIdPattern(s: string)
  {
    |s| >= 1 && forall i :: 0 <= i < |s| ==> IsIdChar(s[i])
  }

  predicate IsSupportedPrefix(prefix: string)
  {
    prefix == "file" || prefix == "design"
  }

  /**
   * The file identifier in a URL path of the shape <lead>/<prefix>/<id>/...:
   * segment 2 of the path split on '/', returned unchanged, provided there
   * are at least three segments, segment 1 is "file" or "design" and
   * segment 2 matches the identifier pattern; the first check that fails
   * names the error.
   */
  function ExtractFileID(parsed: Option<string>): (r: Result<string, ExtractError>)
    ensures r == Failure(InvalidURL) <==> parsed.None?
    ensures r == Failure(MalformedPath) <==> parsed.Some? && CountOf(parsed.value, '/') < 2
    ensures r.Success? ==> MatchesIdPattern(r.value) && '/' !in r.value
  {
    match parsed
    case None => Failure(InvalidURL)
    case Some(path) =>
      var segments := Split(path, '/');
      if |segments| < 3 then Failure(MalformedPath)
      else
        var prefix := segments[1];
        var id := segments[2];
        if !IsSupportedPrefix(prefix) then Failure(UnsupportedPathPrefix)
        else if !MatchesIdPattern(id) then Failure(InvalidIdentifierFormat)
        else Success(id)
  }

  /**
   * `path` reads <lead>/<prefix>/<id><tail>, where lead, prefix and id hold
   * no '/' and the tail is empty or starts a further segment.
   */
  predicate PathShape(path: string, lead: string, prefix: string, id: string, tail: string)
  {
    && path == lead + "/" + prefix + "/" + id + tail
    && '/' !in lead && '/' !in prefix && '/' !in id
    && (tail == "" || tail[0] == '/')
  }

  /** The outcome extraction promises for a path of the shape <lead>/<prefix>/<id><tail>. */
  function ShapeOutcome(prefix: string, id: string): Result<string, ExtractError>
  {
    if !IsSupportedPrefix(prefix) then Failure(UnsupportedPathPrefix)
    else if !MatchesIdPattern(id) then Failure(InvalidIdentifierFormat)
    else Success(id)
  }

  /** The segments of a path of that shape are lead, prefix, id and then those of the tail. */
  lemma SegmentsOfShape(path: string, lead: string, prefix: string, id: string, tail: string)
    requires PathShape(path, lead, prefix, id, tail)
    ensures |Split(path, '/')| >= 3
    ensures Split(path, '/')[0] == lead && Split(path, '/')[1] == prefix && Split(path, '/')[2] == id
  {
    var afterPrefix := id + tail;
    var afterLead := prefix + "/" + afterPrefix;
    assert path == lead + "/" + afterLead;
    SplitAfterPiece(lead, '/', afterLead);
    SplitAfterPiece(prefix, '/', afterPrefix);
    if tail == "" {
      assert afterPrefix == id;
      SplitWhole(id, '/');
    } else {
      assert afterPrefix == id + "/" + tail[1..];
      SplitAfterPiece(id, '/', tail[1..]);
    }
  }

  /**
   * Every path of the shape <lead>/<prefix>/<id><tail> is judged on prefix
   * and id alone, prefix first: an unsupported prefix wins over a bad id,
   * and a good prefix with a good id yields exactly that id.
   */
  lemma ExtractOnShape(path: string, lead: string, prefix: string, id: string, tail: string)
    requires PathShape(path, lead, prefix, id, tail)
    ensures ExtractFileID(Some(path)) == ShapeOutcome(prefix, id)
  {
    SegmentsOfShape(path, lead, prefix, id, tail);
  }

  /** Every path with at least two '/' has that shape. */
  lemma {:induction false} ShapeOfPath(path: string)
    requires CountOf(path, '/') >= 2
    ensures exists lead, prefix, id, tail :: PathShape(path, lead, prefix, id, tail)
  {
    var segs := Split(path, '/');
    JoinSplit(path, '/');
    var tail := if |segs| == 3 then "" else "/" + Join(segs[3..], '/');
    assert segs[1..][1..] == segs[2..];
    assert segs[2..][1..] == segs[3..];
    assert Join(segs[2..], '/') == segs[2] + tail;
    assert Join(segs[1..], '/') == segs[1] + "/" + segs[2] + tail;
    assert path == segs[0] + "/" + segs[1] + "/" + segs[2] + tail;
    assert PathShape(path, segs[0], segs[1], segs[2], tail);
  }

  /**
   * Soundness: a successful extraction returns the middle of a path
   * <lead>/file/<id>... or <lead>/design/<id>... whose id matches the pattern.
   */
  lemma ExtractedIdIsSegment(path: string, id: string)
    requires ExtractFileID(Some(path)) == Success(id)
    ensures exists lead, prefix, tail ::
      PathShape(path, lead, prefix, id, tail) && IsSupportedPrefix(prefix) && MatchesIdPattern(id)
  {
    ShapeOfPath(path);
    var lead, prefix, id', tail :| PathShape(path, lead, prefix, id', tail);
    ExtractOnShape(path, lead, prefix, id', tail);
  }

  // The example lemmas below fix their path through `requires` rather than
  // writing the literal into the ensures clause: a literal there makes the
  // solver unfold Split character by character and run out of resource.

  /** A path /design/AbC123/x yields AbC123, letters keeping their case. */
  lemma DesignUrlExample(path: string)
    requires path == "/design/AbC123/x"
    ensures ExtractFileID(Some(path)) == Success("AbC123")
  {
    ExtractOnShape(path, "", "design", "AbC123", "/x");
  }

  /** An identifier with a hyphen is rejected after the prefix check passes. */
  lemma HyphenIdExample(path: string)
    requires path == "/file/ab-12"
    ensures ExtractFileID(Some(path)) == Failure(InvalidIdentifierFormat)
  {
    var id := "ab-12";
    assert !IsIdChar(id[2]);
    ExtractOnShape(path, "", "file", id, "");
  }

  /** An unknown prefix is rejected before the identifier is looked at. */
  lemma UnknownPrefixExample(path: string)
    requires path == "/proto/ab-12"
    ensures ExtractFileID(Some(path)) == Failure(UnsupportedPathPrefix)
  {
    ExtractOnShape(path, "", "proto", "ab-12", "");
  }
}
