/** The scaffolding half of the command-line tool: where the app's main
    folder is, the starter `index.md` of the pages folder, and the
    placeholder `index.md` written for every nav branch that has none.
    The file system is the `Workspace` below: the files under the pages
    folder by path relative to it, and the log of paths written. */
module Scaffold {
  import opened Wrappers
  import opened Paths
  import opened Slug
  import opened Nav
  import opened SidebarMap
  import opened Referenced
  import opened Pages

  // ---- the main app folder ----

  /** `get_main_app_folder`: the app name under the target, or else the
      target's own last component under the target. An empty name counts as
      no name. */
  function MainAppFolder(target: string, appName: Option<string>): string {
    if appName.Some? && appName.value != [] then PathJoin(target, appName.value)
    else PathJoin(target, Basename(NormPath(target)))
  }

  /** A relative name goes directly under a target that does not end in a
      separator. */
  lemma MainAppFolderNamed(target: string, name: string)
    requires target != [] && target[|target| - 1] != '/'
    requires name != [] && name[0] != '/'
    ensures MainAppFolder(target, Some(name)) == target + "/" + name
  {
  }

  /** Without a name, a relative target of plain components gets a folder
      named after its last component inside it. */
  lemma MainAppFolderDefault(parts: seq<string>, appName: Option<string>)
    requires parts != [] && PlainParts(parts)
    requires appName.None? || appName.value == []
    ensures MainAppFolder(Join(parts), appName) == Join(parts + [parts[|parts| - 1]])
  {
    var target := Join(parts);
    var last := parts[|parts| - 1];
    NormPathPlain(parts);
    assert Slashes(0) + target == target;
    BasenameOfNormal(0, parts);
    assert Basename(NormPath(target)) == last;
    JoinEnd(parts);
    assert last != [] && last[0] != '/' && last[|last| - 1] != '/';
    assert MainAppFolder(target, appName) == target + "/" + last;
    JoinAppend(parts, [last]);
  }

  /** With the default target `.` and no name, the main app folder is
      `./.`, the target itself, and not a folder named after it. */
  lemma MainAppFolderDot()
    ensures MainAppFolder(".", None) == "./."
  {
    assert Split(".") == ["."];
    assert NormComps(["."], false) == [];
    assert NormPath(".") == ".";
    assert Basename(".") == ".";
  }

  // ---- the pages folder as the scaffold sees it ----

  /** The pages folder: its files by path relative to it, and the paths
      written so far, in order (the tool reports each creation). */
  datatype Disk = Disk(files: map<string, string>, written: seq<string>)

  /** The content of a branch's placeholder index. */
  function Placeholder(title: string): string {
    "# " + title + " Index\n"
  }

  /** Write `content` to `path` unless a file is already there. */
  function WriteIfAbsent(st: Disk, path: string, content: string): (r: Disk)
    ensures path in r.files
    ensures path in st.files ==> r == st
    ensures path !in st.files ==> r.files == st.files[path := content] && r.written == st.written + [path]
  {
    if path in st.files then st else Disk(st.files[path := content], st.written + [path])
  }

  // ---- specification of the nav walk, in the shape of the source's loops ----

  function SynthItems(items: seq<NavItem>, base: seq<string>, st: Disk): Disk
    decreases items
  {
    if |items| == 0 then st
    else SynthItem(items[|items| - 1], base, SynthItems(items[..|items| - 1], base, st))
  }

  function SynthItem(item: NavItem, base: seq<string>, st: Disk): Disk
    decreases item
  {
    match item
    case Mapping(ps) => SynthPairs(ps, base, st)
    case _ => st
  }

  function SynthPairs(ps: seq<NavPair>, base: seq<string>, st: Disk): Disk
    decreases ps
  {
    if |ps| == 0 then st
    else SynthPair(ps[|ps| - 1], base, SynthPairs(ps[..|ps| - 1], base, st))
  }

  /** A branch gets its index if it has none, and its children are walked
      either way; a page or any other value leaves the folder alone. */
  function SynthPair(p: NavPair, base: seq<string>, st: Disk): Disk
    decreases p
  {
    match p.value
    case Section(children) =>
      var folder := FolderName(p.title);
      var st' := WriteIfAbsent(st, Join(base + [folder, "index.md"]), Placeholder(p.title));
      SynthItems(children, base + [folder], st')
    case _ => st
  }

  // ---- the file system ----

  class Workspace {
    /** The files under the pages folder, by path relative to it. */
    var files: map<string, string>
    /** The paths written, in order. */
    var written: seq<string>

    function State(): Disk
      reads this
    {
      Disk(files, written)
    }

    constructor(existing: map<string, string>)
      ensures files == existing && written == []
    {
      files := existing;
      written := [];
    }

    /** `create_pages_folder_with_index`: a starter `index.md` unless one is
        there. */
    method CreatePagesFolderWithIndex()
      modifies this
      ensures State() == WriteIfAbsent(old(State()), "index.md", "# Index")
    {
      var indexMdPath := "index.md";
      if indexMdPath !in files {
        files := files[indexMdPath := "# Index"];
        written := written + [indexMdPath];
      }
    }

    /** `traverse_nav`; an absent `base_parts` is the empty list. */
    method TraverseNav(navList: seq<NavItem>, baseParts: seq<string>)
      modifies this
      ensures State() == SynthItems(navList, baseParts, old(State()))
      decreases navList
    {
      ghost var start := State();
      for i := 0 to |navList|
        invariant State() == SynthItems(navList[..i], baseParts, start)
      {
        assert navList[..i + 1][..i] == navList[..i];
        match navList[i]
        case Mapping(ps) =>
          ghost var before := State();
          for j := 0 to |ps|
            invariant State() == SynthPairs(ps[..j], baseParts, before)
          {
            assert ps[..j + 1][..j] == ps[..j];
            var title, val := ps[j].title, ps[j].value;
            match val
            case Section(children) =>
              var folderName := FolderName(title);
              var indexFile := Join(baseParts + [folderName, "index.md"]);
              if indexFile !in files {
                files := files[indexFile := Placeholder(title)];
                written := written + [indexFile];
              }
              TraverseNav(children, baseParts + [folderName]);
            case Page(_) =>
            case Other =>
          }
          assert ps[..|ps|] == ps;
        case Name(_) =>
        case Unknown =>
      }
      assert navList[..|navList|] == navList;
    }

    /** `create_missing_indexes`: nothing when the config file is missing
        (`None`), otherwise the walk of its nav from the pages folder. */
    method CreateMissingIndexes(config: Option<SiteConfig>)
      modifies this
      ensures config.None? ==> State() == old(State())
      ensures config.Some? ==> State() == SynthItems(NavOf(config.value), [], old(State()))
    {
      if config.None? {
        return;
      }
      var nav := NavOf(config.value);
      TraverseNav(nav, []);
    }
  }

  // ---- what the walk does ----

  /** `b` extends `a`: no file is lost or rewritten, the log only grows,
      and the new log entries are the new files, each once. */
  predicate Grows(a: Disk, b: Disk) {
    && a.files.Keys <= b.files.Keys
    && (forall p :: p in a.files ==> b.files[p] == a.files[p])
    && |a.written| <= |b.written| && b.written[..|a.written|] == a.written
    && (forall i :: |a.written| <= i < |b.written| ==> b.written[i] in b.files && b.written[i] !in a.files)
    && (forall p :: p in b.files && p !in a.files ==> exists i :: |a.written| <= i < |b.written| && b.written[i] == p)
    && (forall i, j :: |a.written| <= i < j < |b.written| ==> b.written[i] != b.written[j])
  }

  lemma GrowsTrans(a: Disk, b: Disk, c: Disk)
    requires Grows(a, b) && Grows(b, c)
    ensures Grows(a, c)
  {
    assert c.written[..|a.written|] == c.written[..|b.written|][..|a.written|];
    forall i | |a.written| <= i < |b.written|
      ensures c.written[i] == b.written[i]
    {
      assert c.written[..|b.written|][i] == b.written[i];
    }
    forall p | p in c.files && p !in a.files
      ensures exists i :: |a.written| <= i < |c.written| && c.written[i] == p
    {
      if p in b.files {
        var i :| |a.written| <= i < |b.written| && b.written[i] == p;
        assert c.written[i] == p;
      }
    }
  }

  lemma GrowsWrite(st: Disk, path: string, content: string)
    ensures Grows(st, WriteIfAbsent(st, path, content))
  {
    var r := WriteIfAbsent(st, path, content);
    if path !in st.files {
      assert r.written[|st.written|] == path;
    }
  }

  /** The walk keeps every existing file as it is, logs each file it
      creates once, and creates exactly the indexes of the branches below
      `base`. */
  lemma {:induction false} SynthItemsSpec(items: seq<NavItem>, base: seq<string>, st: Disk)
    ensures Grows(st, SynthItems(items, base, st))
    ensures SynthItems(items, base, st).files.Keys == st.files.Keys + BranchIndexItems(items, base)
    decreases items
  {
    if |items| != 0 {
      var n := |items| - 1;
      var mid := SynthItems(items[..n], base, st);
      SynthItemsSpec(items[..n], base, st);
      SynthItemSpec(items[n], base, mid);
      GrowsTrans(st, mid, SynthItem(items[n], base, mid));
    }
  }

  lemma {:induction false} SynthItemSpec(item: NavItem, base: seq<string>, st: Disk)
    ensures Grows(st, SynthItem(item, base, st))
    ensures SynthItem(item, base, st).files.Keys == st.files.Keys + BranchIndexItem(item, base)
    decreases item
  {
    match item
    case Mapping(ps) => SynthPairsSpec(ps, base, st);
    case _ =>
  }

  lemma {:induction false} SynthPairsSpec(ps: seq<NavPair>, base: seq<string>, st: Disk)
    ensures Grows(st, SynthPairs(ps, base, st))
    ensures SynthPairs(ps, base, st).files.Keys == st.files.Keys + BranchIndexPairs(ps, base)
    decreases ps
  {
    if |ps| != 0 {
      var n := |ps| - 1;
      var mid := SynthPairs(ps[..n], base, st);
      SynthPairsSpec(ps[..n], base, st);
      SynthPairSpec(ps[n], base, mid);
      GrowsTrans(st, mid, SynthPair(ps[n], base, mid));
    }
  }

  lemma {:induction false} SynthPairSpec(p: NavPair, base: seq<string>, st: Disk)
    ensures Grows(st, SynthPair(p, base, st))
    ensures SynthPair(p, base, st).files.Keys == st.files.Keys + BranchIndexPair(p, base)
    decreases p
  {
    match p.value
    case Section(children) =>
      var folder := FolderName(p.title);
      var path := Join(base + [folder, "index.md"]);
      var st' := WriteIfAbsent(st, path, Placeholder(p.title));
      SynthItemsSpec(children, base + [folder], st');
      GrowsAfterWrite(st, path, Placeholder(p.title), BranchIndexItems(children, base + [folder]),
        SynthItems(children, base + [folder], st'));
    case _ =>
      GrowsRefl(st);
  }

  lemma GrowsRefl(st: Disk)
    ensures Grows(st, st)
  {
    assert st.written[..|st.written|] == st.written;
  }

  /** Writing one file and then growing by `more` grows by both. */
  lemma GrowsAfterWrite(st: Disk, path: string, content: string, more: set<string>, final: Disk)
    requires Grows(WriteIfAbsent(st, path, content), final)
    requires final.files.Keys == WriteIfAbsent(st, path, content).files.Keys + more
    ensures Grows(st, final)
    ensures final.files.Keys == st.files.Keys + ({path} + more)
  {
    GrowsWrite(st, path, content);
    GrowsTrans(st, WriteIfAbsent(st, path, content), final);
  }

  /** When every branch below `base` already has its index, the walk
      changes nothing. */
  lemma {:induction false} SynthItemsNoop(items: seq<NavItem>, base: seq<string>, st: Disk)
    requires BranchIndexItems(items, base) <= st.files.Keys
    ensures SynthItems(items, base, st) == st
    decreases items
  {
    if |items| != 0 {
      var n := |items| - 1;
      SynthItemsNoop(items[..n], base, st);
      SynthItemNoop(items[n], base, st);
    }
  }

  lemma {:induction false} SynthItemNoop(item: NavItem, base: seq<string>, st: Disk)
    requires BranchIndexItem(item, base) <= st.files.Keys
    ensures SynthItem(item, base, st) == st
    decreases item
  {
    match item
    case Mapping(ps) => SynthPairsNoop(ps, base, st);
    case _ =>
  }

  lemma {:induction false} SynthPairsNoop(ps: seq<NavPair>, base: seq<string>, st: Disk)
    requires BranchIndexPairs(ps, base) <= st.files.Keys
    ensures SynthPairs(ps, base, st) == st
    decreases ps
  {
    if |ps| != 0 {
      var n := |ps| - 1;
      SynthPairsNoop(ps[..n], base, st);
      SynthPairNoop(ps[n], base, st);
    }
  }

  lemma {:induction false} SynthPairNoop(p: NavPair, base: seq<string>, st: Disk)
    requires BranchIndexPair(p, base) <= st.files.Keys
    ensures SynthPair(p, base, st) == st
    decreases p
  {
    match p.value
    case Section(children) =>
      SynthItemsNoop(children, base + [FolderName(p.title)], st);
    case _ =>
  }

  /** A second walk of the same nav writes nothing. */
  lemma SecondWalkWritesNothing(nav: seq<NavItem>, st: Disk)
    ensures var once := SynthItems(nav, [], st);
      SynthItems(nav, [], once) == once
  {
    SynthItemsSpec(nav, [], st);
    SynthItemsNoop(nav, [], SynthItems(nav, [], st));
  }

  /** After the walk, every branch at any depth has an `index.md` in the
      folder its ancestors' titles and its own title name, whether it was
      there before or not. */
  lemma BranchHasIndex(nav: seq<NavItem>, st: Disk, folders: seq<string>, title: string)
    requires BranchAt(nav, folders, title)
    ensures Join(folders + ["index.md"]) in SynthItems(nav, [], st).files
  {
    SynthItemsSpec(nav, [], st);
    BranchIndexed(nav, [], folders, title);
    assert [] + folders + ["index.md"] == folders + ["index.md"];
  }

  /** The indexes the walk creates are exactly the ones the audit, with
      every branch's index exempt, leaves out of its report. */
  lemma CreatedIndexNotOrphan(nav: seq<NavItem>, excl: set<string>, st: Disk, allMd: set<string>, path: string)
    requires path in SynthItems(nav, [], st).files && path !in st.files
    ensures path in BranchIndexes(nav)
    ensures path !in OrphansFixed(allMd, ReferencedFiles(nav), CleanNav(nav, excl), BranchIndexes(nav))
  {
    SynthItemsSpec(nav, [], st);
  }

  /** Every file the walk creates is the index of a branch, at the path its
      folders give, holding that branch's placeholder. */
  lemma NewFilesArePlaceholders(nav: seq<NavItem>, st: Disk, path: string)
    requires path in SynthItems(nav, [], st).files && path !in st.files
    ensures exists folders, title ::
      && BranchAt(nav, folders, title)
      && path == Join(folders + ["index.md"])
      && SynthItems(nav, [], st).files[path] == Placeholder(title)
  {
    var folders, title := SynthItemsNew(nav, [], st, path);
    assert [] + folders + ["index.md"] == folders + ["index.md"];
  }

  lemma SynthItemsKeeps(items: seq<NavItem>, base: seq<string>, st: Disk, path: string)
    requires path in st.files
    ensures path in SynthItems(items, base, st).files && SynthItems(items, base, st).files[path] == st.files[path]
  {
    SynthItemsSpec(items, base, st);
  }

  lemma {:induction false} SynthItemsNew(items: seq<NavItem>, base: seq<string>, st: Disk, path: string)
    returns (folders: seq<string>, title: string)
    requires path in SynthItems(items, base, st).files && path !in st.files
    ensures BranchAt(items, folders, title) && path == Join(base + folders + ["index.md"])
    ensures SynthItems(items, base, st).files[path] == Placeholder(title)
    decreases items
  {
    var n := |items| - 1;
    var mid := SynthItems(items[..n], base, st);
    SynthItemSpec(items[n], base, mid);
    assert Entries(items) == Entries(items[..n]) + ItemEntries(items[n]);
    if path in mid.files {
      folders, title := SynthItemsNew(items[..n], base, st, path);
      var e :| e in Entries(items[..n]) && EntryBranch(e, folders, title);
      assert e in Entries(items);
    } else {
      var e;
      e, folders, title := SynthItemNew(items[n], base, mid, path);
      assert e in Entries(items);
    }
  }

  lemma {:induction false} SynthItemNew(item: NavItem, base: seq<string>, st: Disk, path: string)
    returns (e: Entry, folders: seq<string>, title: string)
    requires path in SynthItem(item, base, st).files && path !in st.files
    ensures e in ItemEntries(item) && EntryBranch(e, folders, title) && path == Join(base + folders + ["index.md"])
    ensures SynthItem(item, base, st).files[path] == Placeholder(title)
    decreases item
  {
    match item
    case Mapping(ps) =>
      var j;
      j, folders, title := SynthPairsNew(ps, base, st, path);
      e := Keyed(ps[j].title, ps[j].value);
      assert ItemEntries(item)[j] == e;
  }

  lemma {:induction false} SynthPairsNew(ps: seq<NavPair>, base: seq<string>, st: Disk, path: string)
    returns (j: nat, folders: seq<string>, title: string)
    requires path in SynthPairs(ps, base, st).files && path !in st.files
    ensures j < |ps| && EntryBranch(Keyed(ps[j].title, ps[j].value), folders, title)
    ensures path == Join(base + folders + ["index.md"])
    ensures SynthPairs(ps, base, st).files[path] == Placeholder(title)
    decreases ps
  {
    var n := |ps| - 1;
    var mid := SynthPairs(ps[..n], base, st);
    SynthPairSpec(ps[n], base, mid);
    if path in mid.files {
      j, folders, title := SynthPairsNew(ps[..n], base, st, path);
      assert ps[..n][j] == ps[j];
    } else {
      j := n;
      folders, title := SynthPairNew(ps[n], base, mid, path);
    }
  }

  lemma {:induction false} SynthPairNew(p: NavPair, base: seq<string>, st: Disk, path: string)
    returns (folders: seq<string>, title: string)
    requires path in SynthPair(p, base, st).files && path !in st.files
    ensures EntryBranch(Keyed(p.title, p.value), folders, title) && path == Join(base + folders + ["index.md"])
    ensures SynthPair(p, base, st).files[path] == Placeholder(title)
    decreases p
  {
    match p.value
    case Section(children) =>
      var folder := FolderName(p.title);
      var index := Join(base + [folder, "index.md"]);
      var st' := WriteIfAbsent(st, index, Placeholder(p.title));
      if path in st'.files {
        folders, title := PairNewIndex(p, base, st, path);
      } else {
        var rest;
        rest, title := SynthItemsNew(children, base + [folder], st', path);
        folders := [folder] + rest;
        assert folders[1..] == rest;
        assert base + folders + ["index.md"] == base + [folder] + rest + ["index.md"];
      }
  }

  /** The one file a branch writes itself is its own index. */
  lemma PairNewIndex(p: NavPair, base: seq<string>, st: Disk, path: string)
    returns (folders: seq<string>, title: string)
    requires p.value.Section? && path !in st.files
    requires path == Join(base + [FolderName(p.title), "index.md"])
    ensures path in SynthPair(p, base, st).files
    ensures EntryBranch(Keyed(p.title, p.value), folders, title) && path == Join(base + folders + ["index.md"])
    ensures SynthPair(p, base, st).files[path] == Placeholder(title)
  {
    var folder := FolderName(p.title);
    var st' := WriteIfAbsent(st, path, Placeholder(p.title));
    SynthItemsKeeps(p.value.children, base + [folder], st', path);
    folders, title := [folder], p.title;
    assert base + folders + ["index.md"] == base + [folder, "index.md"];
  }
}
