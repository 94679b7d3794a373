/** src/pages/Dashboard.tsx: the status-card reorder handler, the search
    box over the recent projects and all sites, and the two "recent" lists. */
module Dashboard {
  import opened Seqs
  import opened StatusModel
  import opened ListMoves
  import opened Entities
  import StatusList

  // -----------------------------------------------------------------------
  // `handleMoveStatus`

  /** `newIndex < 0 || newIndex >= updatedStatuses.length`. */
  predicate OutOfRange(n: nat, index: nat, direction: Direction) {
    Target(index, direction) < 0 || Target(index, direction) >= n
  }

  /** What the handler passes to `reorderProjectStatuses`: the cards at
      `index` and its neighbour exchange places and every card, whatever its
      type, gets its index as position. `None` is the early return. */
  function MoveCardResult(cards: seq<StatusDef>, index: nat, direction: Direction): (r: Option<seq<StatusDef>>)
    requires index < |cards|
    ensures r.None? <==> OutOfRange(|cards|, index, direction)
    ensures r.Some? ==> var j := Target(index, direction);
      && 0 <= j < |cards|
      && |r.value| == |cards|
      && r.value[j] == StatusAt(cards[index], j)
      && r.value[index] == StatusAt(cards[j], index)
      && (forall m :: 0 <= m < |cards| && m != index && m != j ==> r.value[m] == StatusAt(cards[m], m))
  {
    if OutOfRange(|cards|, index, direction) then None
    else
      var j: nat := Target(index, direction);
      Some(Renumbered(Swap(cards, index, j), 0, StatusAt))
  }

  /** The handler: swap two cells of a copy, then renumber it. */
  method HandleMoveStatus(movable: seq<StatusDef>, index: nat, direction: Direction) returns (reordered: Option<seq<StatusDef>>)
    requires index < |movable|
    ensures reordered == MoveCardResult(movable, index, direction)
  {
    var updated := Copy(movable);
    var newIndex := if direction == Up then index - 1 else index + 1;
    if newIndex < 0 || newIndex >= updated.Length {
      return None;
    }
    SwapCells(updated, index, newIndex);
    Renumber(updated, 0, StatusAt);
    reordered := Some(updated[..]);
  }

  function CardIds(cards: seq<StatusDef>): seq<string> {
    MapSeq(cards, (s: StatusDef) => s.id)
  }

  /** A card move keeps the set of cards: the ids are a permutation. */
  lemma MoveCardPermutation(cards: seq<StatusDef>, index: nat, direction: Direction)
    requires index < |cards|
    ensures var r := MoveCardResult(cards, index, direction);
      r.Some? ==> multiset(CardIds(r.value)) == multiset(CardIds(cards))
  {
    if !OutOfRange(|cards|, index, direction) {
      var j: nat := Target(index, direction);
      var r := MoveCardResult(cards, index, direction).value;
      assert CardIds(r) == Swap(CardIds(cards), index, j);
      SwapPermutation(CardIds(cards), index, j);
    }
  }

  /** The initial status is a card like any other: with it first, moving
      the first card down puts it second, ahead of none of the others. */
  lemma InitialCardMoves(cards: seq<StatusDef>)
    requires |cards| >= 2 && cards[0].kind == Initial
    ensures var r := MoveCardResult(cards, 0, Down);
      r.Some? && r.value[1].kind == Initial && r.value[1].id == cards[0].id && r.value[1].position == 1
  {
  }

  /** Moving a card back where it came from restores the list, renumbered
      from 0. */
  lemma MoveCardBack(cards: seq<StatusDef>, index: nat, direction: Direction)
    requires index < |cards| && !OutOfRange(|cards|, index, direction)
    ensures var j: nat := Target(index, direction);
      var once := MoveCardResult(cards, index, direction);
      && once.Some?
      && MoveCardResult(once.value, j, if direction == Up then Down else Up) == Some(Renumbered(cards, 0, StatusAt))
  {
    var j: nat := Target(index, direction);
    var back := if direction == Up then Down else Up;
    assert Target(j, back) == index;
    var once := Renumbered(Swap(cards, index, j), 0, StatusAt);
    assert MoveCardResult(cards, index, direction) == Some(once);
    assert MoveCardResult(once, j, back) == Some(Renumbered(Swap(once, j, index), 0, StatusAt));
    BackAfterSwap(cards, index, j);
  }

  lemma BackAfterSwap(cards: seq<StatusDef>, i: nat, j: nat)
    requires i < |cards| && j < |cards| && (j == i + 1 || i == j + 1)
    ensures var once := Renumbered(Swap(cards, i, j), 0, StatusAt);
      Renumbered(Swap(once, j, i), 0, StatusAt) == Renumbered(cards, 0, StatusAt)
  {
    var once := Renumbered(Swap(cards, i, j), 0, StatusAt);
    NeighbourMoveIsSwap(cards, i, j);
    NeighbourMoveIsSwap(once, j, i);
    StatusList.StatusAtKeepsId();
    RenumberedMoveBack(cards, i, j, 0, StatusAt);
  }

  // -----------------------------------------------------------------------
  // The recent lists.

  /** A project with the site its `siteId` refers to, when there is one. */
  datatype ProjectWithSite = ProjectWithSite(project: Project, site: Option<Site>)

  function JoinSite(p: Project, sites: seq<Site>): (r: ProjectWithSite)
    ensures r.project == p
    ensures r.site.None? <==> forall k :: 0 <= k < |sites| ==> sites[k].id != p.siteId
    ensures r.site.Some? ==> r.site.value in sites && r.site.value.id == p.siteId
  {
    ProjectWithSite(p, Find(sites, (s: Site) => s.id == p.siteId))
  }

  /** `projects.slice(0, 5)` joined with `sites.find(...)`. */
  function RecentProjects(projects: seq<Project>, sites: seq<Site>): (r: seq<ProjectWithSite>)
    ensures |r| == if |projects| < 5 then |projects| else 5
    ensures forall i :: 0 <= i < |r| ==> r[i] == JoinSite(projects[i], sites)
  {
    MapSeq(Take(projects, 5), (p: Project) => JoinSite(p, sites))
  }

  /** `sites.slice(0, 5)`. */
  function RecentSites(sites: seq<Site>): (r: seq<Site>)
    ensures |r| == if |sites| < 5 then |sites| else 5
    ensures r == sites[..|r|]
  {
    Take(sites, 5)
  }

  // -----------------------------------------------------------------------
  // `getSearchResults`

  datatype ResultKind = ProjectResult | SiteResult

  /** `SearchResult`. */
  datatype SearchResult = SearchResult(kind: ResultKind, id: string, title: string, subtitle: Option<string>, status: Option<string>)

  predicate ProjectMatches(p: ProjectWithSite, query: string) {
    || Contains(Lower(p.project.name), query)
    || (p.site.Some? && Contains(Lower(p.site.value.siteId), query))
    || (p.site.Some? && Contains(Lower(p.site.value.location), query))
  }

  predicate SiteMatches(s: Site, query: string) {
    Contains(Lower(s.siteId), query) || Contains(Lower(s.location), query)
  }

  function ProjectFilter(query: string): ProjectWithSite -> bool {
    p => ProjectMatches(p, query)
  }

  function SiteFilter(query: string): Site -> bool {
    s => SiteMatches(s, query)
  }

  function ProjectEntry(p: ProjectWithSite): SearchResult {
    SearchResult(ProjectResult, p.project.id, p.project.name,
      if p.site.Some? then Some(p.site.value.siteId + " - " + p.site.value.location) else None,
      Some(p.project.status))
  }

  function SiteEntry(s: Site): SearchResult {
    SearchResult(SiteResult, s.id, s.siteId, Some(s.location), None)
  }

  /** `recentProjects.filter(...).map(...)`: one entry for each matching
      project and for no other. */
  function ProjectHits(query: string, recent: seq<ProjectWithSite>): (r: seq<SearchResult>)
    ensures |r| == CountIf(recent, ProjectFilter(query))
    ensures forall i :: 0 <= i < |r| ==> exists p :: p in recent && ProjectMatches(p, query) && r[i] == ProjectEntry(p)
    ensures forall k :: 0 <= k < |recent| && ProjectMatches(recent[k], query) ==> ProjectEntry(recent[k]) in r
    ensures forall i :: 0 <= i < |r| ==> r[i].kind == ProjectResult
  {
    MapFilterShape(recent, ProjectFilter(query), ProjectEntry);
    MapSeq(Filter(recent, ProjectFilter(query)), ProjectEntry)
  }

  /** `allSites.filter(...).map(...)`. */
  function SiteHits(query: string, allSites: seq<Site>): (r: seq<SearchResult>)
    ensures |r| == CountIf(allSites, SiteFilter(query))
    ensures forall i :: 0 <= i < |r| ==> exists s :: s in allSites && SiteMatches(s, query) && r[i] == SiteEntry(s)
    ensures forall k :: 0 <= k < |allSites| && SiteMatches(allSites[k], query) ==> SiteEntry(allSites[k]) in r
    ensures forall i :: 0 <= i < |r| ==> r[i].kind == SiteResult
  {
    MapFilterShape(allSites, SiteFilter(query), SiteEntry);
    MapSeq(Filter(allSites, SiteFilter(query)), SiteEntry)
  }

  /** The results for the typed text: nothing for an empty query;
      otherwise the matching recent projects, then the matching sites. */
  function SearchResults(searchQuery: string, recent: seq<ProjectWithSite>, allSites: seq<Site>): (r: seq<SearchResult>)
    ensures Lower(searchQuery) == [] ==> r == []
    ensures Lower(searchQuery) != [] ==> r == ProjectHits(Lower(searchQuery), recent) + SiteHits(Lower(searchQuery), allSites)
  {
    var query := Lower(searchQuery);
    if query == [] then [] else ProjectHits(query, recent) + SiteHits(query, allSites)
  }

  /** No site entry comes before a project entry. */
  lemma SearchResultsGrouped(searchQuery: string, recent: seq<ProjectWithSite>, allSites: seq<Site>)
    ensures var r := SearchResults(searchQuery, recent, allSites);
      forall i, j :: 0 <= i < j < |r| ==> !(r[i].kind == SiteResult && r[j].kind == ProjectResult)
  {
    var q := Lower(searchQuery);
    if q != [] {
      KindsGrouped(ProjectHits(q, recent), SiteHits(q, allSites));
    }
  }

  lemma KindsGrouped(a: seq<SearchResult>, b: seq<SearchResult>)
    requires forall i :: 0 <= i < |a| ==> a[i].kind == ProjectResult
    requires forall i :: 0 <= i < |b| ==> b[i].kind == SiteResult
    ensures forall i, j :: 0 <= i < j < |a + b| ==> !((a + b)[i].kind == SiteResult && (a + b)[j].kind == ProjectResult)
  {
    var r := a + b;
    assert forall i :: 0 <= i < |r| ==> (r[i].kind == ProjectResult <==> i < |a|);
  }

  /** `filter(p).map(f)`: one image for each element that passes, and only
      those. */
  lemma {:induction false} MapFilterShape<T, K>(s: seq<T>, p: T -> bool, f: T -> K)
    ensures var r := MapSeq(Filter(s, p), f);
      && |r| == CountIf(s, p)
      && (forall i :: 0 <= i < |r| ==> exists x :: x in s && p(x) && r[i] == f(x))
      && (forall k :: 0 <= k < |s| && p(s[k]) ==> f(s[k]) in r)
  {
    CountIfIsFilterLength(s, p);
    var ps := Filter(s, p);
    var r := MapSeq(ps, f);
    forall i | 0 <= i < |r| ensures exists x :: x in s && p(x) && r[i] == f(x) {
      assert r[i] == f(ps[i]) && p(ps[i]) && ps[i] in s;
    }
    forall k | 0 <= k < |s| && p(s[k]) ensures f(s[k]) in r {
      var i :| 0 <= i < |ps| && ps[i] == s[k];
      assert r[i] == f(s[k]);
    }
  }

  /** `String.prototype.includes` is kept by dropping text from the end of
      the needle. */
  lemma {:induction false} ContainsPrefix(hay: string, q: string, extra: string)
    requires Contains(hay, q + extra)
    ensures Contains(hay, q)
    decreases |hay|
  {
    if IsPrefix(q + extra, hay) {
      assert hay[..|q|] == (q + extra)[..|q|] == q;
    } else {
      ContainsPrefix(hay[1..], q, extra);
    }
  }

  /** Typing more narrows the search: every entry for the longer query is an
      entry for the shorter one. */
  lemma SearchNarrows(searchQuery: string, more: string, recent: seq<ProjectWithSite>, allSites: seq<Site>)
    requires Lower(searchQuery) != []
    ensures forall e :: e in SearchResults(searchQuery + more, recent, allSites) ==> e in SearchResults(searchQuery, recent, allSites)
  {
    var q, q2 := Lower(searchQuery), Lower(searchQuery + more);
    LowerConcat(searchQuery, more);
    assert q2 == q + Lower(more);
    forall e | e in ProjectHits(q2, recent) ensures e in ProjectHits(q, recent) {
      var i :| 0 <= i < |ProjectHits(q2, recent)| && ProjectHits(q2, recent)[i] == e;
      var p :| p in recent && ProjectMatches(p, q2) && e == ProjectEntry(p);
      NarrowProject(p, q, Lower(more));
      var k :| 0 <= k < |recent| && recent[k] == p;
    }
    forall e | e in SiteHits(q2, allSites) ensures e in SiteHits(q, allSites) {
      var i :| 0 <= i < |SiteHits(q2, allSites)| && SiteHits(q2, allSites)[i] == e;
      var s :| s in allSites && SiteMatches(s, q2) && e == SiteEntry(s);
      NarrowSite(s, q, Lower(more));
      var k :| 0 <= k < |allSites| && allSites[k] == s;
    }
  }

  lemma NarrowProject(p: ProjectWithSite, q: string, extra: string)
    requires ProjectMatches(p, q + extra)
    ensures ProjectMatches(p, q)
  {
    if Contains(Lower(p.project.name), q + extra) {
      ContainsPrefix(Lower(p.project.name), q, extra);
    } else if p.site.Some? && Contains(Lower(p.site.value.siteId), q + extra) {
      ContainsPrefix(Lower(p.site.value.siteId), q, extra);
    } else {
      ContainsPrefix(Lower(p.site.value.location), q, extra);
    }
  }

  lemma NarrowSite(s: Site, q: string, extra: string)
    requires SiteMatches(s, q + extra)
    ensures SiteMatches(s, q)
  {
    if Contains(Lower(s.siteId), q + extra) {
      ContainsPrefix(Lower(s.siteId), q, extra);
    } else {
      ContainsPrefix(Lower(s.location), q, extra);
    }
  }
}
