/** The breadcrumb trail of the shared page layout (src/components/shared/Layout.js): one
    crumb per non-empty segment of the path, labelled by its capitalised segment with its
    hyphens read as spaces; every crumb but the last is highlighted. */
module Breadcrumbs {
  import opened Common

  predicate IsNonEmpty(segment: string) { segment != "" }

  /** `pathname.split('/').filter(Boolean)`: the non-empty segments, in path order. */
  function Segments(path: string): (r: seq<string>)
    ensures |r| <= |Split(path, {'/'})|
    ensures forall i :: 0 <= i < |r| ==> r[i] != "" && r[i] in Split(path, {'/'})
    ensures forall i :: 0 <= i < |Split(path, {'/'})| && Split(path, {'/'})[i] != "" ==> Split(path, {'/'})[i] in r
  {
    Filter(Split(path, {'/'}), IsNonEmpty)
  }

  /** A segment never holds a slash. */
  lemma SegmentsHaveNoSlash(path: string, i: nat, j: nat)
    requires i < |Segments(path)| && j < |Segments(path)[i]|
    ensures Segments(path)[i][j] != '/'
  {
    var parts := Split(path, {'/'});
    var k :| 0 <= k < |parts| && parts[k] == Segments(path)[i];
    assert parts[k][j] !in {'/'};
  }

  /** The root has no crumbs. */
  lemma RootHasNoSegments()
    ensures Segments("/") == []
  {
    assert FirstIndexOf("/", {'/'}) == 0;
    assert Split("/", {'/'}) == ["", ""];
  }

  /** Segments read back from the path they make up: for non-empty segments without
      slashes, the path "/" + segments joined by "/" has exactly those segments. */
  lemma SegmentsOfPath(segments: seq<string>)
    requires |segments| >= 1
    requires forall k :: 0 <= k < |segments| ==> segments[k] != ""
    requires forall k, j :: 0 <= k < |segments| && 0 <= j < |segments[k]| ==> segments[k][j] != '/'
    ensures Segments("/" + Join(segments, "/")) == segments
  {
    var joined := Join(segments, "/");
    var path := "/" + joined;
    assert FirstIndexOf(path, {'/'}) == 0;
    assert path[1..] == joined;
    JoinSplit(segments, '/');
    assert Split(path, {'/'}) == [""] + segments;
    assert ([""] + segments)[1..] == segments;
    FilterKeepsAll(segments, IsNonEmpty);
  }

  /** `path.charAt(0).toUpperCase() + path.slice(1).replace(/-/g, ' ')`. */
  function Label(segment: string): (r: string)
    requires segment != ""
    ensures |r| == |segment|
    ensures r[0] == Upper(segment[0])
    ensures forall j :: 1 <= j < |r| ==> r[j] != '-'
    ensures forall j :: 1 <= j < |r| && segment[j] != '-' ==> r[j] == segment[j]
    ensures forall j :: 1 <= j < |r| && segment[j] == '-' ==> r[j] == ' '
  {
    var rest := segment[1..];
    [Upper(segment[0])] + seq(|rest|, j requires 0 <= j < |rest| => if rest[j] == '-' then ' ' else rest[j])
  }

  /** Only the rest is rewritten: a leading hyphen stays. */
  lemma LeadingHyphenKept(segment: string)
    requires segment != "" && segment[0] == '-'
    ensures Label(segment)[0] == '-'
  {
  }

  /** One list item: its text, and whether it carries `text-primary`. */
  datatype Crumb = Crumb(text: string, highlighted: bool)

  /** getBreadcrumbs: a crumb per segment, in order; all but the last are highlighted. */
  function Crumbs(path: string): (r: seq<Crumb>)
    ensures |r| == |Segments(path)|
    ensures forall i :: 0 <= i < |r| ==> r[i].text == Label(Segments(path)[i])
    ensures forall i :: 0 <= i < |r| ==> (r[i].highlighted <==> i < |r| - 1)
  {
    var segments := Segments(path);
    seq(|segments|, i requires 0 <= i < |segments| => Crumb(Label(segments[i]), i < |segments| - 1))
  }

  /** Exactly one crumb, the last, is not highlighted, unless there is none. */
  lemma OneUnhighlighted(path: string)
    ensures |set i | 0 <= i < |Crumbs(path)| && !Crumbs(path)[i].highlighted| == if Crumbs(path) == [] then 0 else 1
  {
    var r := Crumbs(path);
    if r != [] {
      assert (set i | 0 <= i < |r| && !r[i].highlighted) == {|r| - 1};
    }
  }
}
