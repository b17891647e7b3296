/**
 * The breadcrumb trail built from the current location's path: the path is
 * split into its non-empty segments, the first crumb is always the
 * dashboard, and each later segment gets a crumb whose link is the path up
 * to and including that segment.
 */
module Breadcrumb {
  import opened Wrappers
  import Text
  import Seqs

  datatype Item = Item(caption: string, path: string)

  const DashboardItem := Item("Dashboard", "/dashboard")

  /** `pathname.split('/').filter((x) => x)` */
  function Pathnames(pathname: string): seq<string> {
    Seqs.Filter(Text.Split(pathname, '/'), (x: string) => x != "")
  }

  /** No segment is empty or holds a `/`. */
  lemma PathnamesWellFormed(pathname: string, i: int)
    requires 0 <= i < |Pathnames(pathname)|
    ensures Pathnames(pathname)[i] != ""
    ensures '/' !in Pathnames(pathname)[i]
  {
    var parts := Text.Split(pathname, '/');
    var segs := Pathnames(pathname);
    Seqs.FilterMembership(parts, (x: string) => x != "", segs[i]);
    assert segs[i] in segs;
  }

  /** A path written as `/` followed by separator-free, non-empty segments
      yields exactly those segments. */
  lemma PathnamesOfCanonicalPath(segments: seq<string>)
    requires |segments| >= 1
    requires forall i :: 0 <= i < |segments| ==> segments[i] != "" && '/' !in segments[i]
    ensures Pathnames("/" + Text.Join(segments, '/')) == segments
  {
    var parts := [""] + segments;
    forall i | 0 <= i < |parts| ensures '/' !in parts[i] {
      if i > 0 { assert parts[i] == segments[i - 1]; }
    }
    assert parts[1..] == segments;
    assert Text.Join(parts, '/') == "" + "/" + Text.Join(segments, '/');
    Text.SplitJoin(parts, '/');
    assert Text.Split("/" + Text.Join(segments, '/'), '/') == parts;
    var keep := (x: string) => x != "";
    assert Seqs.Filter(parts, keep) == Seqs.Filter(segments, keep);
    Seqs.FilterKeepsAll(segments, keep);
  }

  /** `name.charAt(0).toUpperCase() + name.slice(1)` */
  function Capitalize(name: string): (r: string)
    ensures |r| == |name|
    ensures |name| > 0 ==> r[0] == Text.UpperChar(name[0]) && r[1..] == name[1..]
  {
    if name == "" then "" else [Text.UpperChar(name[0])] + name[1..]
  }

  /** The crumb for `pathnames.slice(1)[index]`. */
  function ItemAt(pathnames: seq<string>, index: nat): Item
    requires index + 1 < |pathnames|
  {
    Item(Capitalize(pathnames[index + 1]), "/" + Text.Join(pathnames[..index + 2], '/'))
  }

  /** `breadcrumbItems` */
  function Items(pathnames: seq<string>): seq<Item> {
    [DashboardItem] + seq(if |pathnames| == 0 then 0 else |pathnames| - 1, i requires 0 <= i < |pathnames| - 1 => ItemAt(pathnames, i))
  }

  /** The dashboard comes first; segment `j` gives crumb `j`, whose caption
      is the segment capitalized and whose link is the path through it. */
  lemma ItemsShape(pathnames: seq<string>)
    ensures |Items(pathnames)| == 1 + (if |pathnames| == 0 then 0 else |pathnames| - 1)
    ensures Items(pathnames)[0] == Item("Dashboard", "/dashboard")
    ensures forall j :: 1 <= j < |Items(pathnames)| ==>
      j < |pathnames| &&
      Items(pathnames)[j].caption == Capitalize(pathnames[j]) &&
      Items(pathnames)[j].path == "/" + Text.Join(pathnames[..j + 1], '/')
  {
  }

  /** Each crumb's link is a prefix of the next crumb's link: the next one
      adds `/` and one more segment. */
  lemma {:induction false} ItemPathsExtend(pathnames: seq<string>, i: nat)
    requires 1 <= i && i + 1 < |Items(pathnames)|
    ensures Items(pathnames)[i + 1].path == Items(pathnames)[i].path + "/" + pathnames[i + 1]
    ensures Text.StartsWith(Items(pathnames)[i + 1].path, Items(pathnames)[i].path)
  {
    var items := Items(pathnames);
    assert items[i] == ItemAt(pathnames, i - 1);
    assert items[i + 1] == ItemAt(pathnames, i);
    assert pathnames[..i + 2] == pathnames[..i + 1] + [pathnames[i + 1]];
    Text.JoinSnoc(pathnames[..i + 1], pathnames[i + 1], '/');
    var shorter := items[i].path;
    var longer := items[i + 1].path;
    assert longer == shorter + "/" + pathnames[i + 1];
    assert longer[..|shorter|] == shorter;
  }

  /** What the component renders: nothing when there are no segments or the
      first one is `dashboard`, otherwise the trail. */
  function Render(pathname: string): (r: Option<seq<Item>>)
    ensures r.None? <==> |Pathnames(pathname)| == 0 || Pathnames(pathname)[0] == "dashboard"
    ensures r.Some? ==> r.value == Items(Pathnames(pathname)) && |r.value| >= 1
  {
    var pathnames := Pathnames(pathname);
    var items := Items(pathnames);
    if |pathnames| == 0 || pathnames[0] == "dashboard" then None else Some(items)
  }

  /** The root path renders nothing. */
  lemma RenderRoot()
    ensures Render("/") == None
  {
    assert Text.Split("/", '/') == ["", ""];
  }

  /** A path written as `/` followed by segments renders nothing when the
      first segment is `dashboard`, and otherwise the trail of those segments. */
  lemma RenderCanonical(segments: seq<string>)
    requires |segments| >= 1
    requires forall i :: 0 <= i < |segments| ==> segments[i] != "" && '/' !in segments[i]
    ensures Render("/" + Text.Join(segments, '/')) ==
      if segments[0] == "dashboard" then None else Some(Items(segments))
  {
    PathnamesOfCanonicalPath(segments);
  }
}
