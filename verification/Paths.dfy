/** URL paths as the route index reads them: the segments between slashes. */
module Paths {

  /** strings.Cut(s, "/"). */
  function Cut(s: string): (r: (string, string, bool))
    ensures !r.2 ==> r.0 == s
    ensures r.2 ==> s == r.0 + "/" + r.1
    ensures '/' !in r.0
  {
    if s == "" then ("", "", false)
    else if s[0] == '/' then ("", s[1..], true)
    else
      var (part, after, more) := Cut(s[1..]);
      ([s[0]] + part, after, more)
  }

  /** strings.Split(s, "/"). */
  function Split(s: string): seq<string>
    decreases |s|
  {
    var (part, after, more) := Cut(s);
    if more then [part] + Split(after) else [part]
  }

  function NonEmpty(parts: seq<string>): seq<string> {
    if parts == [] then []
    else (if parts[0] == "" then [] else [parts[0]]) + NonEmpty(parts[1..])
  }

  /** The non-empty segments of a path: what the index distinguishes. */
  function Segments(path: string): seq<string> {
    NonEmpty(Split(path))
  }

  /** strings.Trim(s, "/"). */
  function TrimSlashes(s: string): (t: string)
    ensures t != "" ==> t[0] != '/' && t[|t| - 1] != '/'
    decreases |s|
  {
    if s != "" && s[0] == '/' then TrimSlashes(s[1..])
    else if s != "" && s[|s| - 1] == '/' then TrimSlashes(s[..|s| - 1])
    else s
  }

  lemma LeadingSlash(s: string)
    requires s != "" && s[0] == '/'
    ensures Segments(s) == Segments(s[1..])
  {
    assert Cut(s) == ("", s[1..], true);
    assert Split(s) == [""] + Split(s[1..]);
  }

  lemma {:induction false} CutBeforeSlash(s: string)
    ensures var (part, after, more) := Cut(s);
            Cut(s + "/") == (part, if more then after + "/" else "", true)
  {
    if s == "" {
      assert s + "/" == "/";
    } else {
      assert (s + "/")[1..] == s[1..] + "/";
      if s[0] != '/' { CutBeforeSlash(s[1..]); }
    }
  }

  lemma {:induction false} NonEmptyAppend(parts: seq<string>, more: seq<string>)
    ensures NonEmpty(parts + more) == NonEmpty(parts) + NonEmpty(more)
  {
    if parts == [] {
      assert parts + more == more;
    } else {
      assert (parts + more)[1..] == parts[1..] + more;
      NonEmptyAppend(parts[1..], more);
    }
  }

  lemma {:induction false} SplitBeforeSlash(s: string)
    ensures Split(s + "/") == Split(s) + [""]
    decreases |s|
  {
    var (part, after, more) := Cut(s);
    CutBeforeSlash(s);
    if more {
      SplitBeforeSlash(after);
    } else {
      assert Cut("") == ("", "", false);
      assert Split("") == [""];
    }
  }

  lemma TrailingSlash(s: string)
    requires s != "" && s[|s| - 1] == '/'
    ensures Segments(s) == Segments(s[..|s| - 1])
  {
    var t := s[..|s| - 1];
    assert s == t + "/";
    SplitBeforeSlash(t);
    NonEmptyAppend(Split(t), [""]);
    assert NonEmpty([""]) == [];
  }

  /** Trimming slashes loses no segment. */
  lemma {:induction false} TrimKeepsSegments(s: string)
    ensures Segments(TrimSlashes(s)) == Segments(s)
    decreases |s|
  {
    if s != "" && s[0] == '/' {
      LeadingSlash(s);
      TrimKeepsSegments(s[1..]);
    } else if s != "" && s[|s| - 1] == '/' {
      TrailingSlash(s);
      TrimKeepsSegments(s[..|s| - 1]);
    }
  }

  function OwnSegment(part: string): seq<string> {
    if part == "" then [] else [part]
  }

  lemma NonEmptyOne(part: string)
    ensures NonEmpty([part]) == OwnSegment(part)
  {
    assert [part][1..] == [];
  }

  lemma SplitCut(s: string)
    ensures Split(s) == [Cut(s).0] + if Cut(s).2 then Split(Cut(s).1) else []
  {
  }

  /** Reading one part off a path reads its first segment, or none if the part is empty. */
  lemma SegmentsCut(s: string)
    ensures Segments(s) == OwnSegment(Cut(s).0) + if Cut(s).2 then Segments(Cut(s).1) else []
  {
    SplitCut(s);
    NonEmptyOne(Cut(s).0);
    NonEmptyAppend([Cut(s).0], if Cut(s).2 then Split(Cut(s).1) else []);
    assert NonEmpty([]) == [];
    hide Cut, Split, NonEmpty;
  }

  // ----- What segments are -----

  /** A path made of segments. */
  function PathOf(segments: seq<string>): string {
    if segments == [] then "" else "/" + segments[0] + PathOf(segments[1..])
  }

  predicate IsSegment(s: string) {
    s != "" && '/' !in s
  }

  lemma {:induction false} CutAfter(s: string, rest: string)
    requires '/' !in s
    ensures Cut(s) == (s, "", false) && Cut(s + "/" + rest) == (s, rest, true)
  {
    if s == "" {
      assert (s + "/" + rest)[1..] == rest;
    } else {
      CutAfter(s[1..], rest);
      assert (s + "/" + rest)[1..] == s[1..] + "/" + rest;
      assert s == [s[0]] + s[1..];
    }
  }

  lemma FirstSegment(first: string, tail: string)
    requires IsSegment(first) && (tail == "" || tail[0] == '/')
    ensures Segments(first + tail) == [first] + Segments(tail)
  {
    SegmentsCut(first + tail);
    if tail == "" {
      CutAfter(first, "");
      assert first + tail == first;
      assert Split("") == [""] && NonEmpty([""]) == [];
    } else {
      CutAfter(first, tail[1..]);
      assert first + tail == first + "/" + tail[1..];
      LeadingSlash(tail);
    }
    hide Cut, Split, NonEmpty, Segments;
  }

  /** Reading the segments of a path gives back the ones it was made of. */
  lemma {:induction false} SegmentsOfPath(segments: seq<string>)
    requires forall i :: 0 <= i < |segments| ==> IsSegment(segments[i])
    ensures Segments(PathOf(segments)) == segments
  {
    if segments == [] {
      assert Split("") == [""] && NonEmpty([""]) == [];
    } else {
      hide Cut, Split, NonEmpty, Segments;
      SegmentsOfPath(segments[1..]);
      LeadingSlash(PathOf(segments));
      assert PathOf(segments)[1..] == segments[0] + PathOf(segments[1..]);
      FirstSegment(segments[0], PathOf(segments[1..]));
    }
  }

  /** And whatever the path, a segment is not empty and holds no slash. */
  lemma {:induction false} SegmentsAreSegments(path: string)
    ensures forall i :: 0 <= i < |Segments(path)| ==> IsSegment(Segments(path)[i])
    decreases |path|
  {
    SegmentsCut(path);
    if Cut(path).2 { SegmentsAreSegments(Cut(path).1); }
    hide Segments;
  }
}
