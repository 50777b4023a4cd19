/** The per-page half of `export_app`: the route a Markdown page is served
    at, the sidebar it shows, and the audit of pages the nav never mentions.
    A page is given by the parts of its path below the pages folder, as
    `relative_to(pages_dir).parts` yields them. */
module Pages {
  import opened Wrappers
  import opened Text
  import opened Paths
  import opened Slug
  import opened Nav
  import opened SideDict
  import opened SidebarMap
  import opened Referenced
  import opened Menu

  // ---- routes ----

  /** `with_suffix("")` on the page's path, read as parts: the last part
      loses its suffix. */
  function StemParts(relParts: seq<string>): seq<string>
    requires |relParts| >= 1
  {
    relParts[..|relParts| - 1] + [PathStem(relParts[|relParts| - 1])]
  }

  /** The route before separators and underscores are rewritten: an
      `index.md` stands for its folder, any other page for its stemmed
      path. */
  function RawRoute(relParts: seq<string>): (r: string)
    requires |relParts| >= 1
    ensures r != [] && r[0] == '/'
    ensures relParts[|relParts| - 1] == "index.md" ==> r[|r| - 1] == '/'
  {
    var n := |relParts| - 1;
    if relParts[n] == "index.md" then
      if n == 0 then "/" else "/" + Join(relParts[..n]) + "/"
    else "/" + Join(StemParts(relParts))
  }

  /** The route the page is registered under. */
  function Route(relParts: seq<string>): string
    requires |relParts| >= 1
  {
    Hyphenate(ReplaceAll(RawRoute(relParts), "\\", "/"))
  }

  /** Every route is rooted, and holds neither an underscore nor a
      backslash. */
  lemma RouteShape(relParts: seq<string>)
    requires |relParts| >= 1
    ensures Route(relParts) != [] && Route(relParts)[0] == '/'
    ensures '_' !in Route(relParts) && '\\' !in Route(relParts)
  {
    var raw := RawRoute(relParts);
    var slashed := ReplaceAll(raw, "\\", "/");
    ReplaceCharPointwise(raw, '\\', '/');
    HyphenateAt(slashed);
    assert '\\' !in slashed by {
      forall i | 0 <= i < |slashed| ensures slashed[i] != '\\' {
        assert slashed[i] == if raw[i] == '\\' then '/' else raw[i];
      }
    }
    forall i | 0 <= i < |slashed| ensures Route(relParts)[i] != '\\' {
      assert slashed[i] != '\\';
    }
  }

  /** The parts of a path as `pathlib` yields them: none is empty, and none
      holds a separator. */
  predicate PathParts(relParts: seq<string>) {
    forall i :: 0 <= i < |relParts| ==> relParts[i] != [] && '/' !in relParts[i] && '\\' !in relParts[i]
  }

  /** A route ends in a separator exactly when the page is an `index.md`. */
  lemma RouteTrailingSlash(relParts: seq<string>)
    requires |relParts| >= 1 && PathParts(relParts)
    ensures var r := Route(relParts); r != [] && (r[|r| - 1] == '/' <==> relParts[|relParts| - 1] == "index.md")
  {
    RawRouteEnd(relParts);
    RewriteEnd(RawRoute(relParts));
  }

  /** Before the rewrite, the route ends in `/` exactly for an `index.md`,
      and never in a backslash. */
  lemma RawRouteEnd(relParts: seq<string>)
    requires |relParts| >= 1 && PathParts(relParts)
    ensures var raw := RawRoute(relParts);
      raw[|raw| - 1] != '\\' && (raw[|raw| - 1] == '/' <==> relParts[|relParts| - 1] == "index.md")
  {
    var raw := RawRoute(relParts);
    var n := |relParts| - 1;
    if relParts[n] != "index.md" {
      var name := relParts[n];
      var parts := StemParts(relParts);
      StemEnd(name);
      var c :| 0 <= c < |name| && PathStem(name)[|PathStem(name)| - 1] == name[c];
      assert name[c] != '/' && name[c] != '\\';
      JoinEnd(parts);
      var j := Join(parts);
      assert raw == "/" + j;
      assert raw[|raw| - 1] == j[|j| - 1];
    }
  }

  /** The rewrite turns a final backslash into `/` and leaves any other
      final character other than `_` as it is. */
  lemma RewriteEnd(raw: string)
    requires raw != []
    ensures var r := Hyphenate(ReplaceAll(raw, "\\", "/"));
      r != [] && (r[|r| - 1] == '/' <==> raw[|raw| - 1] == '/' || raw[|raw| - 1] == '\\')
  {
    var slashed := ReplaceAll(raw, "\\", "/");
    ReplaceCharPointwise(raw, '\\', '/');
    HyphenateAt(slashed);
    var k := |raw| - 1;
    assert slashed[k] == if raw[k] == '\\' then '/' else raw[k];
  }

  /** Routes need not be distinct: a page whose name holds an underscore is
      served at the same route as the page with hyphens in its place (for
      instance `a_b.md` and `a-b.md`, both at `/a-b`). */
  lemma RouteCollision(stem: string)
    requires stem != [] && '_' in stem && '/' !in stem && '\\' !in stem
    ensures stem + ".md" != Hyphenate(stem) + ".md"
    ensures Route([stem + ".md"]) == Route([Hyphenate(stem) + ".md"])
  {
    var h := Hyphenate(stem);
    HyphenateAt(stem);
    var u :| 0 <= u < |stem| && stem[u] == '_';
    assert (stem + ".md")[u] != (h + ".md")[u];
    NotIndexPage(stem, u);
    NotIndexPage(h, u);
    RouteOfPlainPage(stem);
    RouteOfPlainPage(h);
    var x, y := "/" + stem, "/" + h;
    forall i | 0 <= i < |x| ensures x[i] == y[i] || (x[i] == '_' && y[i] == '-') {
      if i > 0 { assert x[i] == stem[i - 1] && y[i] == h[i - 1]; }
    }
    HyphenateMerges(x, y);
  }

  /** A name with an underscore or a hyphen in its stem is not `index.md`. */
  lemma NotIndexPage(stem: string, u: nat)
    requires u < |stem| && (stem[u] == '_' || stem[u] == '-')
    ensures stem + ".md" != "index.md"
  {
    if |stem| == 5 {
      assert (stem + ".md")[u] != "index.md"[u];
    }
  }

  /** A single Markdown page other than `index.md`, with no backslash in its
      name, is served at its stem, underscores read as hyphens. */
  lemma RouteOfPlainPage(stem: string)
    requires stem != [] && stem + ".md" != "index.md"
    requires forall i :: 0 <= i < |stem| ==> stem[i] != '\\'
    ensures Route([stem + ".md"]) == Hyphenate("/" + stem)
  {
    PathStemMd(stem);
    var x := "/" + stem;
    assert RawRoute([stem + ".md"]) == x;
    assert '\\' !in x by {
      forall i | 0 <= i < |x| ensures x[i] != '\\' {
        if i > 0 { assert x[i] == stem[i - 1]; }
      }
    }
    ReplaceCharAbsent(x, '\\', '/');
  }

  /** Strings that differ only where one has `_` and the other `-` hyphenate
      alike. */
  lemma HyphenateMerges(x: string, y: string)
    requires |x| == |y|
    requires forall i :: 0 <= i < |x| ==> x[i] == y[i] || (x[i] == '_' && y[i] == '-')
    ensures Hyphenate(x) == Hyphenate(y)
  {
    HyphenateAt(x);
    HyphenateAt(y);
  }

  /** The top-level `index.md` is the site root, where the menu's home link
      points. */
  lemma HomeRoute()
    ensures Route(["index.md"]) == "/" == LinkFor(Bare("index.md")).url
  {
    assert RawRoute(["index.md"]) == "/";
    ReplaceCharAbsent("/", '\\', '/');
    ReplaceCharAbsent("/", '_', '-');
  }

  /** The menu link of a top-level branch with a plain title points at the
      route of the branch's `index.md`, the page kept in the folder named
      after the title. */
  lemma BranchLinkMatchesRoute(title: string, children: seq<NavItem>)
    requires PlainTitle(title)
    ensures LinkFor(Keyed(title, Section(children))).url == Route([FolderName(title), "index.md"])
  {
    var folder := FolderName(title);
    FolderNameAt(title);
    assert '\\' !in folder && '/' !in folder by {
      forall i | 0 <= i < |folder| ensures folder[i] != '\\' && folder[i] != '/' {
        assert folder[i] == if title[i] == ' ' then '_' else LowerChar(title[i]);
      }
    }
    var raw := RawRoute([folder, "index.md"]);
    assert [folder, "index.md"][..1] == [folder];
    assert raw == "/" + folder + "/";
    assert '\\' !in raw;
    ReplaceCharAbsent(raw, '\\', '/');
    ReplaceCharConcat("/" + folder, "/", '_', '-');
    ReplaceCharConcat("/", folder, '_', '-');
    ReplaceCharAbsent("/", '_', '-');
    FolderMatchesSlug(title);
  }

  // ---- the sidebar ----

  /** `rel_parts[0].replace("_", "-")`: the key of the page's sidebar, also
      shown as the sidebar's title. */
  function SidebarKey(relParts: seq<string>): string
    requires |relParts| >= 1
  {
    Hyphenate(StemParts(relParts)[0])
  }

  /** Python's truth of a sidebar value: a non-empty file name or a
      non-empty map. */
  predicate Truthy(v: SideValue) {
    match v
    case Link(f) => f != ""
    case Nested(es) => es != []
  }

  /** The sidebar of a page: the map's value under the page's key when it is
      there and true, otherwise an empty map. */
  function SidebarItems(clean: Dict, relParts: seq<string>): (r: SideValue)
    requires |relParts| >= 1
    ensures Truthy(r) <==> Get(clean, SidebarKey(relParts)).Some? && Truthy(Get(clean, SidebarKey(relParts)).value)
    ensures Truthy(r) ==> r == Get(clean, SidebarKey(relParts)).value
    ensures !Truthy(r) ==> r == Nested([])
  {
    match Get(clean, SidebarKey(relParts))
    case Some(v) => if Truthy(v) then v else Nested([])
    case None => Nested([])
  }

  /** Read against the nav: a page shows what the last top-level entry
      whose slug is its first folder put in the map, if that is true. */
  lemma SidebarFromNav(nav: seq<NavItem>, excl: set<string>, relParts: seq<string>)
    requires |relParts| >= 1
    ensures var c := LastFor(Contributions(Entries(nav), excl), SidebarKey(relParts));
      SidebarItems(CleanNav(nav, excl), relParts) == if c.Some? && Truthy(c.value) then c.value else Nested([])
  {
    CleanNavLastWins(nav, excl, SidebarKey(relParts));
  }

  /** A page inside the folder of a top-level branch with a plain title shows
      that branch's cleaned map, whenever the branch is the last entry with
      that slug. */
  lemma SidebarOfBranch(nav: seq<NavItem>, excl: set<string>, title: string, rest: seq<string>, sub: Dict)
    requires PlainTitle(title) && |rest| >= 1
    requires LastFor(Contributions(Entries(nav), excl), KebabCase(title)) == Some(Nested(sub))
    ensures SidebarItems(CleanNav(nav, excl), [FolderName(title)] + rest) == Nested(sub)
  {
    var relParts := [FolderName(title)] + rest;
    assert StemParts(relParts)[0] == FolderName(title);
    FolderMatchesSlug(title);
    CleanNavLastWins(nav, excl, KebabCase(title));
    var clean := CleanNav(nav, excl);
    CleanNavPruned(nav, excl);
    var i := Find(clean, KebabCase(title)).value;
    assert PrunedValue(clean[i].value, excl);
  }

  // ---- orphan pages ----

  /** `Path(p).parent.name`: the folder directly holding the file, or the
      empty name at the top. */
  function ParentName(p: string): string {
    var parts := Split(p);
    if |parts| >= 2 then parts[|parts| - 2] else ""
  }

  /** Exempt from the orphan report: an `index.md` whose parent folder,
      underscores read as hyphens and lower-cased, is a top-level key of the
      sidebar map. */
  predicate Exempt(o: string, clean: Dict) {
    Basename(o) == "index.md" && Lower(Hyphenate(ParentName(o))) in Keys(clean)
  }

  /** The orphan report: pages on disk that the nav does not reference,
      less the exempt ones. */
  function Orphans(allMd: set<string>, navMd: set<string>, clean: Dict): set<string> {
    set o | o in allMd && o !in navMd && !Exempt(o, clean)
  }

  /** The orphan audit, filter loop and all. */
  method AuditOrphans(allMd: set<string>, navMd: set<string>, clean: Dict) returns (orphans: set<string>)
    ensures orphans == Orphans(allMd, navMd, clean)
    ensures orphans <= allMd - navMd
  {
    var orphanFiles := allMd - navMd;
    var filtered: set<string> := {};
    var todo := orphanFiles;
    while todo != {}
      invariant todo <= orphanFiles
      invariant filtered == set o | o in orphanFiles - todo && !Exempt(o, clean)
      decreases |todo|
    {
      var orphan :| orphan in todo;
      var keep := true;
      if Basename(orphan) == "index.md" {
        var parentSlug := Lower(Hyphenate(ParentName(orphan)));
        if parentSlug in Keys(clean) {
          keep := false;
        }
      }
      if keep {
        filtered := filtered + {orphan};
      }
      todo := todo - {orphan};
    }
    orphans := filtered;
  }

  /** A plain title's folder name holds no separator of either kind. */
  lemma PlainFolder(title: string)
    requires PlainTitle(title)
    ensures '/' !in FolderName(title) && '\\' !in FolderName(title)
  {
    var folder := FolderName(title);
    FolderNameAt(title);
    forall i | 0 <= i < |folder| ensures folder[i] != '\\' && folder[i] != '/' {
      assert folder[i] == if title[i] == ' ' then '_' else LowerChar(title[i]);
    }
  }

  /** A file directly inside a folder: its name and its parent's name. */
  lemma FileInFolder(folder: string, name: string)
    requires '/' !in folder && '/' !in name
    ensures Basename(Join([folder, name])) == name && ParentName(Join([folder, name])) == folder
  {
    SplitJoin([folder, name]);
    BasenameOfJoin([folder, name]);
  }

  /** Read against the nav: a page is reported exactly when it is on disk,
      is the joined path of no leaf, and is not exempt. */
  lemma OrphansOfNav(allMd: set<string>, nav: seq<NavItem>, excl: set<string>, x: string)
    ensures x in Orphans(allMd, ReferencedFiles(nav), CleanNav(nav, excl)) <==>
      && x in allMd
      && (forall path :: LeafAt(nav, path) ==> x != Join(path))
      && !Exempt(x, CleanNav(nav, excl))
  {
    ReferencedExactlyLeaves(nav, x);
  }

  /** The index page in a plain title's folder is exempt under the title's
      slug. */
  lemma PlainIndexKey(title: string)
    requires PlainTitle(title)
    ensures var o := Join([FolderName(title), "index.md"]);
      Basename(o) == "index.md" && Lower(Hyphenate(ParentName(o))) == KebabCase(title)
  {
    var folder := FolderName(title);
    PlainFolder(title);
    FileInFolder(folder, "index.md");
    FolderMatchesSlug(title);
    LowerNoop(KebabCase(title));
  }

  /** A branch that keeps something puts its cleaned map under its slug. */
  lemma BranchContributes(title: string, children: seq<NavItem>, excl: set<string>)
    requires CleanNav(children, excl) != []
    ensures Contributes(Keyed(title, Section(children)), excl, KebabCase(title))
  {
    assert Contribution(Keyed(title, Section(children)), excl) == Some(SideEntry(KebabCase(title), Nested(CleanNav(children, excl))));
  }

  /** The index page of a top-level branch with a plain title that keeps
      something in the sidebar map is never reported. */
  lemma TopBranchIndexNotOrphan(allMd: set<string>, nav: seq<NavItem>, excl: set<string>, title: string, children: seq<NavItem>)
    requires PlainTitle(title)
    requires Keyed(title, Section(children)) in Entries(nav)
    requires CleanNav(children, excl) != []
    ensures Join([FolderName(title), "index.md"]) !in Orphans(allMd, ReferencedFiles(nav), CleanNav(nav, excl))
  {
    assert KebabCase(title) in Keys(CleanNav(nav, excl)) by {
      BranchContributes(title, children, excl);
      CleanNavKeys(nav, excl, KebabCase(title));
    }
    PlainIndexKey(title);
    assert Exempt(Join([FolderName(title), "index.md"]), CleanNav(nav, excl));
  }

  // ---- the index pages of branches, at every depth ----

  /** The `index.md` path of every branch below `base`: the pages the
      scaffold writes for branches, relative to the pages folder. */
  function BranchIndexItems(items: seq<NavItem>, base: seq<string>): set<string>
    decreases items
  {
    if |items| == 0 then {}
    else BranchIndexItems(items[..|items| - 1], base) + BranchIndexItem(items[|items| - 1], base)
  }

  function BranchIndexItem(item: NavItem, base: seq<string>): set<string>
    decreases item
  {
    match item
    case Mapping(ps) => BranchIndexPairs(ps, base)
    case _ => {}
  }

  function BranchIndexPairs(ps: seq<NavPair>, base: seq<string>): set<string>
    decreases ps
  {
    if |ps| == 0 then {}
    else BranchIndexPairs(ps[..|ps| - 1], base) + BranchIndexPair(ps[|ps| - 1], base)
  }

  function BranchIndexPair(p: NavPair, base: seq<string>): set<string>
    decreases p
  {
    match p.value
    case Section(children) =>
      var folder := FolderName(p.title);
      {Join(base + [folder, "index.md"])} + BranchIndexItems(children, base + [folder])
    case _ => {}
  }

  function BranchIndexes(nav: seq<NavItem>): set<string> {
    BranchIndexItems(nav, [])
  }

  function BranchIndexEntry(e: Entry, base: seq<string>): set<string> {
    match e
    case Bare(_) => {}
    case Keyed(t, v) => BranchIndexPair(NavPair(t, v), base)
  }

  lemma {:induction false} BranchIndexCoverEntries(items: seq<NavItem>, base: seq<string>, e: Entry)
    requires e in Entries(items)
    ensures BranchIndexEntry(e, base) <= BranchIndexItems(items, base)
    decreases |items|
  {
    var n := |items| - 1;
    if e in Entries(items[..n]) {
      BranchIndexCoverEntries(items[..n], base, e);
    } else {
      assert e in ItemEntries(items[n]);
      match items[n]
      case Mapping(ps) =>
        var j :| 0 <= j < |ps| && e == Keyed(ps[j].title, ps[j].value);
        BranchIndexPairsCover(ps, base, j);
      case _ =>
    }
  }

  lemma {:induction false} BranchIndexPairsCover(ps: seq<NavPair>, base: seq<string>, j: nat)
    requires j < |ps|
    ensures BranchIndexPair(ps[j], base) <= BranchIndexPairs(ps, base)
    decreases |ps|
  {
    var n := |ps| - 1;
    if j < n {
      BranchIndexPairsCover(ps[..n], base, j);
    }
  }

  /** Every branch, at any depth, has its index path in the set. */
  lemma {:induction false} BranchIndexed(items: seq<NavItem>, base: seq<string>, folders: seq<string>, title: string)
    requires BranchAt(items, folders, title)
    ensures Join(base + folders + ["index.md"]) in BranchIndexItems(items, base)
    decreases |folders|, 1
  {
    var e :| e in Entries(items) && EntryBranch(e, folders, title);
    BranchIndexCoverEntries(items, base, e);
    BranchIndexedEntry(e, base, folders, title);
  }

  lemma {:induction false} BranchIndexedEntry(e: Entry, base: seq<string>, folders: seq<string>, title: string)
    requires EntryBranch(e, folders, title)
    ensures Join(base + folders + ["index.md"]) in BranchIndexEntry(e, base)
    decreases |folders|, 0
  {
    var folder := folders[0];
    var children := e.value.children;
    assert BranchIndexEntry(e, base) == {Join(base + [folder, "index.md"])} + BranchIndexItems(children, base + [folder]);
    if |folders| == 1 {
      assert base + folders + ["index.md"] == base + [folder, "index.md"];
    } else {
      BranchIndexed(children, base + [folder], folders[1..], title);
      IndexPathSplit(base, folders);
    }
  }

  /** The index path below a chain of folders, read as below its first folder. */
  lemma IndexPathSplit(base: seq<string>, folders: seq<string>)
    requires folders != []
    ensures base + folders + ["index.md"] == (base + [folders[0]]) + folders[1..] + ["index.md"]
  {
    assert folders == [folders[0]] + folders[1..];
  }

  // ---- the audit with every branch's index exempt ----

  /** Exempt as before, or the index page of any branch of the nav. */
  predicate ExemptFixed(o: string, clean: Dict, indexes: set<string>) {
    Exempt(o, clean) || o in indexes
  }

  function OrphansFixed(allMd: set<string>, navMd: set<string>, clean: Dict, indexes: set<string>): set<string> {
    set o | o in allMd && o !in navMd && !ExemptFixed(o, clean, indexes)
  }

  /** With every branch's index exempt, the index page of a branch at any
      depth is never reported, and nothing is reported that the original
      audit would not report. */
  lemma BranchIndexNeverOrphan(allMd: set<string>, nav: seq<NavItem>, excl: set<string>, folders: seq<string>, title: string)
    requires BranchAt(nav, folders, title)
    ensures var fixed := OrphansFixed(allMd, ReferencedFiles(nav), CleanNav(nav, excl), BranchIndexes(nav));
      && Join(folders + ["index.md"]) !in fixed
      && fixed <= Orphans(allMd, ReferencedFiles(nav), CleanNav(nav, excl))
  {
    BranchIndexed(nav, [], folders, title);
    assert [] + folders + ["index.md"] == folders + ["index.md"];
  }

  /** A nav whose only entry is the branch `outer`, holding the branch
      `inner`, holding the page `page`. */
  function NestedNav(outer: string, inner: string, page: string): seq<NavItem> {
    [Mapping([NavPair(outer, Section([Mapping([NavPair(inner, Section([Name(page)]))])]))])]
  }

  /** A title of lower-case letters is its own folder name and its own slug. */
  predicate LowerWord(w: string) {
    forall i :: 0 <= i < |w| ==> 'a' <= w[i] <= 'z'
  }

  lemma LowerWordFixed(w: string)
    requires LowerWord(w)
    ensures Lower(w) == w && FolderName(w) == w && Hyphenate(w) == w
  {
    LowerNoop(w);
    ReplaceCharAbsent(w, ' ', '_');
    ReplaceCharAbsent(w, '_', '-');
  }

  lemma LowerWordSlug(w: string)
    requires LowerWord(w)
    ensures KebabCase(w) == w
  {
    LowerWordFixed(w);
    assert PlainTitle(w);
    FolderMatchesSlug(w);
  }

  lemma NestedPaths(outer: string, inner: string, page: string)
    requires LowerWord(outer) && LowerWord(inner)
    ensures ReferencedFiles(NestedNav(outer, inner, page)) == {Join([outer, inner, page])}
    ensures Join([outer, inner, "index.md"]) in BranchIndexes(NestedNav(outer, inner, page))
  {
    LowerWordFixed(outer);
    LowerWordFixed(inner);
    var innerPair := NavPair(inner, Section([Name(page)]));
    var outerPair := NavPair(outer, Section([Mapping([innerPair])]));
    SinglePair(outerPair, []);
    SinglePair(innerPair, [outer]);
    assert [] + [outer] == [outer];
    assert [outer] + [inner] == [outer, inner];
    assert [outer, inner] + [page] == [outer, inner, page];
    assert RefItems([Name(page)], [outer, inner]) == {Join([outer, inner, page])} by {
      assert [Name(page)][..0] == [];
      assert RefItems([Name(page)], [outer, inner]) == RefItems([], [outer, inner]) + RefItem(Name(page), [outer, inner]);
    }
    assert [outer] + [inner, "index.md"] == [outer, inner, "index.md"];
  }

  lemma SinglePair(p: NavPair, base: seq<string>)
    ensures RefItems([Mapping([p])], base) == RefPair(p, base)
    ensures BranchIndexItems([Mapping([p])], base) == BranchIndexPair(p, base)
  {
    var items := [Mapping([p])];
    assert items[..0] == [];
    assert [p][..0] == [];
    assert RefItems(items, base) == RefItems([], base) + RefItem(items[0], base);
    assert RefPairs([p], base) == RefPairs([], base) + RefPair(p, base);
    assert BranchIndexItems(items, base) == BranchIndexItems([], base) + BranchIndexItem(items[0], base);
    assert BranchIndexPairs([p], base) == BranchIndexPairs([], base) + BranchIndexPair(p, base);
  }

  lemma NestedKeys(outer: string, inner: string, page: string)
    requires LowerWord(outer) && inner != [] && outer != inner
    ensures inner !in Keys(CleanNav(NestedNav(outer, inner, page), {}))
  {
    LowerWordSlug(outer);
    var nav := NestedNav(outer, inner, page);
    CleanNavKeys(nav, {}, inner);
    assert Entries(nav) == [Keyed(outer, nav[0].pairs[0].value)];
  }

  lemma NestedIndexParent(outer: string, inner: string, page: string)
    requires LowerWord(outer) && LowerWord(inner)
    requires '/' !in page && page != "index.md"
    ensures Basename(Join([outer, inner, "index.md"])) == "index.md"
    ensures Lower(Hyphenate(ParentName(Join([outer, inner, "index.md"])))) == inner
    ensures Join([outer, inner, "index.md"]) != Join([outer, inner, page])
  {
    assert NoSlash([outer, inner, "index.md"]);
    assert NoSlash([outer, inner, page]);
    SplitJoin([outer, inner, "index.md"]);
    BasenameOfJoin([outer, inner, "index.md"]);
    SplitJoin([outer, inner, page]);
    LowerWordFixed(inner);
  }

  /** The original audit reports the index page of a branch nested in a
      top-level branch, the very page the scaffold writes for it (with
      `outer = "guide"`, `inner = "advanced"` and `page = "setup.md"`, the
      page `guide/advanced/index.md`); the fixed audit does not. */
  lemma NestedIndexReported(outer: string, inner: string, page: string)
    requires LowerWord(outer) && LowerWord(inner) && inner != [] && outer != inner
    requires '/' !in page && page != "index.md"
    ensures var o := Join([outer, inner, "index.md"]);
      o in Orphans({o}, ReferencedFiles(NestedNav(outer, inner, page)), CleanNav(NestedNav(outer, inner, page), {}))
    ensures var o := Join([outer, inner, "index.md"]);
      o !in OrphansFixed({o}, ReferencedFiles(NestedNav(outer, inner, page)), CleanNav(NestedNav(outer, inner, page), {}), BranchIndexes(NestedNav(outer, inner, page)))
  {
    NestedPaths(outer, inner, page);
    NestedKeys(outer, inner, page);
    NestedIndexParent(outer, inner, page);
    assert !Exempt(Join([outer, inner, "index.md"]), CleanNav(NestedNav(outer, inner, page), {}));
  }
}
