// src/lib/notion/helper.ts: the order of the projects page and the cards it shows. The
// comparator here is the mirror image of the one in server.ts. `Array.prototype.sort`
// is a stable sort; it is modelled by a stable insertion sort on a sequence.

module NotionHelper {
  import opened Common
  import NotionServer

  /** A project row of the Notion database, with the properties the page reads: its
    * `order`, the runs of its `Name` title and `description`, the URLs of its thumbnail
    * files, and its `link` and `source` URLs. */
  datatype ProjectResult = ProjectResult(
    order: Option<int>,
    name: seq<NotionServer.RichText>,
    description: seq<NotionServer.RichText>,
    thumbnail: seq<string>,
    link: string,
    source: string)

  /** The card `extractRelventPageData` makes of a project. */
  datatype Project = Project(title: string, description: string, thumbnail: string, link: string, source: string)

  /** The sort key: the order, MAX_SAFE_INTEGER when it is null. */
  function Key(p: ProjectResult): int {
    NotionServer.OrderKey(p.order)
  }

  /** `sortByOrder(a, b)`: `(b.order ?? MAX) - (a.order ?? MAX)`; negative puts `a` first,
    * so larger orders come first. */
  function SortByOrder(a: ProjectResult, b: ProjectResult): (r: int)
    ensures r < 0 <==> Key(a) > Key(b)
    ensures r == 0 <==> Key(a) == Key(b)
  {
    Key(b) - Key(a)
  }

  /** The comparator is the server's ascending one with its arguments swapped, and a
    * project without an order goes before every project with an order below MAX. */
  lemma SortByOrderMirrorsServer(a: ProjectResult, b: ProjectResult)
    ensures SortByOrder(a, b) == NotionServer.SortByOrder(b.order, a.order)
    ensures SortByOrder(a, b) == -SortByOrder(b, a)
    ensures a.order.None? && b.order.Some? && b.order.value < NotionServer.MaxSafeInteger ==> SortByOrder(a, b) < 0
  {
  }

  /** Every project is placed no later than the ones the comparator puts after it. */
  predicate SortedByOrder(s: seq<ProjectResult>) {
    forall i, j :: 0 <= i < j < |s| ==> SortByOrder(s[i], s[j]) <= 0
  }

  /** `p` placed before the first project of the sorted `s` that does not sort before it. */
  function Insert(p: ProjectResult, s: seq<ProjectResult>): (r: seq<ProjectResult>)
    requires SortedByOrder(s)
    ensures SortedByOrder(r) && multiset(r) == multiset(s) + multiset{p}
  {
    if s == [] || SortByOrder(p, s[0]) <= 0 then [p] + s
    else
      var rest := Insert(p, s[1..]);
      InsertAfterFirst(p, s, rest);
      [s[0]] + rest
  }

  /** The first project of a sorted sequence that sorts before `p` still sorts first
    * when `p` is inserted in the rest. */
  lemma InsertAfterFirst(p: ProjectResult, s: seq<ProjectResult>, rest: seq<ProjectResult>)
    requires |s| > 0 && SortedByOrder(s) && SortByOrder(p, s[0]) > 0
    requires SortedByOrder(rest) && multiset(rest) == multiset(s[1..]) + multiset{p}
    ensures SortedByOrder([s[0]] + rest) && multiset([s[0]] + rest) == multiset(s) + multiset{p}
  {
    assert s == [s[0]] + s[1..];
    forall x | x in rest
      ensures Key(s[0]) >= Key(x)
    {
      assert x in multiset(rest);
      if x != p {
        assert x in multiset(s[1..]);
        assert x in s[1..];
      }
    }
    var r := [s[0]] + rest;
    forall i, j | 0 <= i < j < |r|
      ensures SortByOrder(r[i], r[j]) <= 0
    {
      if i == 0 {
        assert r[j] == rest[j - 1] && r[j] in rest;
      } else {
        assert r[i] == rest[i - 1] && r[j] == rest[j - 1];
      }
    }
  }

  /** `projects.sort(sortByOrder)`: an ordered permutation of the projects; among projects
    * of the same order the earlier one stays first. */
  function Sort(projects: seq<ProjectResult>): (r: seq<ProjectResult>)
    ensures SortedByOrder(r) && multiset(r) == multiset(projects) && |r| == |projects|
  {
    if projects == [] then []
    else
      assert projects == [projects[0]] + projects[1..];
      Insert(projects[0], Sort(projects[1..]))
  }

  /** The projects of `s` whose key is `k`, in their order in `s`. */
  function WithKey(s: seq<ProjectResult>, k: int): seq<ProjectResult> {
    if s == [] then [] else (if Key(s[0]) == k then [s[0]] else []) + WithKey(s[1..], k)
  }

  /** Inserting `p` puts it before every project of its own key already there. */
  lemma {:induction false} InsertWithKey(p: ProjectResult, s: seq<ProjectResult>, k: int)
    requires SortedByOrder(s)
    ensures WithKey(Insert(p, s), k) == (if Key(p) == k then [p] else []) + WithKey(s, k)
  {
    if s == [] || SortByOrder(p, s[0]) <= 0 {
      assert Insert(p, s) == [p] + s;
      assert ([p] + s)[1..] == s;
    } else {
      var rest := Insert(p, s[1..]);
      assert Insert(p, s) == [s[0]] + rest;
      assert Key(s[0]) > Key(p);
      InsertWithKey(p, s[1..], k);
      assert ([s[0]] + rest)[1..] == rest;
      assert WithKey([s[0]] + rest, k) == (if Key(s[0]) == k then [s[0]] else []) + WithKey(rest, k);
    }
  }

  /** The sort is stable: the projects of each order keep their relative order. */
  lemma {:induction false} SortIsStable(projects: seq<ProjectResult>, k: int)
    ensures WithKey(Sort(projects), k) == WithKey(projects, k)
  {
    if projects != [] {
      SortIsStable(projects[1..], k);
      InsertWithKey(projects[0], Sort(projects[1..]), k);
    }
  }

  /** The card of one project: the first title run, the first description run, the
    * first thumbnail file; reading a missing first element throws. */
  function ToProject(p: ProjectResult): (r: Result<Project>)
    ensures r.Ok? <==> |p.name| > 0 && |p.description| > 0 && |p.thumbnail| > 0
    ensures r.Ok? ==> r.value.title == p.name[0].plainText && r.value.description == p.description[0].plainText
    ensures r.Ok? ==> r.value.thumbnail == p.thumbnail[0]
    ensures r.Ok? ==> r.value.link == p.link && r.value.source == p.source
  {
    if |p.name| == 0 || |p.description| == 0 || |p.thumbnail| == 0 then
      Err("TypeError: Cannot read properties of undefined")
    else
      Ok(Project(p.name[0].plainText, p.description[0].plainText, p.thumbnail[0], p.link, p.source))
  }

  /** `.map(...)`: the cards in order, or the error of the first project without one. */
  function MapProjects(s: seq<ProjectResult>): (r: Result<seq<Project>>)
    ensures r.Ok? <==> forall k :: 0 <= k < |s| ==> ToProject(s[k]).Ok?
    ensures r.Ok? ==> |r.value| == |s| && forall k :: 0 <= k < |s| ==> ToProject(s[k]) == Ok(r.value[k])
  {
    if s == [] then Ok([])
    else
      match ToProject(s[0])
      case Err(msg) => Err(msg)
      case Ok(first) =>
        match MapProjects(s[1..])
        case Err(msg) => Err(msg)
        case Ok(rest) =>
          assert forall k :: 1 <= k < |s| ==> s[k] == s[1..][k - 1];
          Ok([first] + rest)
  }

  /** `extractRelventPageData(projects)`: the projects sorted by order, each made into
    * its card; one card per project, in sorted order. It throws exactly when some
    * project lacks a title, a description or a thumbnail, wherever it stands. */
  function ExtractRelventPageData(projects: seq<ProjectResult>): (r: Result<seq<Project>>)
    ensures r.Ok? <==> forall p :: p in projects ==> ToProject(p).Ok?
    ensures r.Ok? ==> |r.value| == |projects|
    ensures r.Ok? ==> forall k :: 0 <= k < |projects| ==> ToProject(Sort(projects)[k]) == Ok(r.value[k])
  {
    var sorted := Sort(projects);
    assert forall p :: p in projects <==> p in sorted by {
      forall p ensures p in projects <==> p in sorted {
        assert p in projects <==> p in multiset(projects);
        assert p in sorted <==> p in multiset(sorted);
      }
    }
    MapProjects(sorted)
  }
}
