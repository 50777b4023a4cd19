/** The authored navigation tree of `config.yml` and the two ways of reading
    it that all walks share: the entries of one list level in authored order,
    and the paths of leaves and branches below it. */
module Nav {
  import opened Wrappers
  import opened Paths
  import opened Slug

  /** One element of a nav list: a bare file name, a mapping of titles to
      values (YAML keeps its key order), or anything else, which every walk
      skips. */
  datatype NavItem = Name(file: string) | Mapping(pairs: seq<NavPair>) | Unknown

  datatype NavPair = NavPair(title: string, value: NavValue)

  /** What a title maps to: a page file, a nested list (a branch), or a value
      of another type. */
  datatype NavValue = Page(file: string) | Section(children: seq<NavItem>) | Other

  /** The loaded configuration: `nav` and `exclude_from_nav` may be absent. */
  datatype SiteConfig = SiteConfig(nav: Option<seq<NavItem>>, exclude: Option<seq<string>>)

  /** `config.get("nav", [])` */
  function NavOf(config: SiteConfig): seq<NavItem> {
    if config.nav.Some? then config.nav.value else []
  }

  /** `set(config.get("exclude_from_nav", []))` */
  function ExcludeOf(config: SiteConfig): set<string> {
    if config.exclude.Some? then set f | f in config.exclude.value else {}
  }

  /** A top-level entry as every walk meets it: a bare string item, or one
      (title, value) pair of a mapping item. */
  datatype Entry = Bare(file: string) | Keyed(title: string, value: NavValue)

  function ItemEntries(item: NavItem): (r: seq<Entry>)
    ensures item.Name? ==> r == [Bare(item.file)]
    ensures item.Mapping? ==> |r| == |item.pairs|
    ensures item.Mapping? ==>
      forall j :: 0 <= j < |r| ==> r[j] == Keyed(item.pairs[j].title, item.pairs[j].value)
    ensures item.Unknown? ==> r == []
  {
    match item
    case Name(f) => [Bare(f)]
    case Mapping(ps) => seq(|ps|, j requires 0 <= j < |ps| => Keyed(ps[j].title, ps[j].value))
    case Unknown => []
  }

  /** The entries of one list level, in authored order. */
  function Entries(items: seq<NavItem>): seq<Entry>
    decreases |items|
  {
    if items == [] then [] else Entries(items[..|items| - 1]) + ItemEntries(items[|items| - 1])
  }

  lemma EntriesSnoc(items: seq<NavItem>, i: nat)
    requires i < |items|
    ensures Entries(items[..i + 1]) == Entries(items[..i]) + ItemEntries(items[i])
  {
    assert items[..i + 1][..i] == items[..i];
  }

  lemma EntriesWhole(items: seq<NavItem>)
    ensures Entries(items[..|items|]) == Entries(items)
  {
    assert items[..|items|] == items;
  }

  /** `Join(base + [leaf])`, the joined path of a file below some folders. */
  function Under(base: seq<string>, leaf: string): string {
    Join(base + [leaf])
  }

  /** The file a leaf entry names, if it is a leaf. */
  function LeafFile(e: Entry): Option<string> {
    match e
    case Bare(f) => Some(f)
    case Keyed(_, v) => if v.Page? then Some(v.file) else None
  }

  /** `path` (folder names, then a file) reaches a leaf of `items`; a branch
      titled t contributes the folder `FolderName(t)`. */
  ghost predicate LeafAt(items: seq<NavItem>, path: seq<string>)
    decreases |path|, 1
  {
    exists e :: e in Entries(items) && EntryLeaf(e, path)
  }

  ghost predicate EntryLeaf(e: Entry, path: seq<string>)
    decreases |path|, 0
  {
    || (|path| == 1 && LeafFile(e) == Some(path[0]))
    || (|path| > 1 && e.Keyed? && e.value.Section? && FolderName(e.title) == path[0]
        && LeafAt(e.value.children, path[1..]))
  }

  /** `folders` leads to a branch of `items` whose own title is `title`. */
  ghost predicate BranchAt(items: seq<NavItem>, folders: seq<string>, title: string)
    decreases |folders|, 1
  {
    exists e :: e in Entries(items) && EntryBranch(e, folders, title)
  }

  ghost predicate EntryBranch(e: Entry, folders: seq<string>, title: string)
    decreases |folders|, 0
  {
    && |folders| >= 1 && e.Keyed? && e.value.Section? && FolderName(e.title) == folders[0]
    && (if |folders| == 1 then e.title == title else BranchAt(e.value.children, folders[1..], title))
  }
}
