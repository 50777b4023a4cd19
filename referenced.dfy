/** `flatten_nav`: the set of page files the nav refers to, as paths under
    the pages folder. Exclusions play no part here. */
module Referenced {
  import opened Wrappers
  import opened Paths
  import opened Slug
  import opened Nav

  // ---- specification, in the shape of the source's loops ----

  function RefItems(items: seq<NavItem>, base: seq<string>): set<string>
    decreases items
  {
    if |items| == 0 then {}
    else RefItems(items[..|items| - 1], base) + RefItem(items[|items| - 1], base)
  }

  function RefItem(item: NavItem, base: seq<string>): set<string>
    decreases item
  {
    match item
    case Name(f) => {Under(base, f)}
    case Mapping(ps) => RefPairs(ps, base)
    case Unknown => {}
  }

  function RefPairs(ps: seq<NavPair>, base: seq<string>): set<string>
    decreases ps
  {
    if |ps| == 0 then {}
    else RefPairs(ps[..|ps| - 1], base) + RefPair(ps[|ps| - 1], base)
  }

  function RefPair(p: NavPair, base: seq<string>): set<string>
    decreases p
  {
    match p.value
    case Section(children) => RefItems(children, base + [FolderName(p.title)])
    case Page(f) => {Under(base, f)}
    case Other => {}
  }

  /** The referenced files of a whole nav. */
  function ReferencedFiles(nav: seq<NavItem>): set<string> {
    RefItems(nav, [])
  }

  // ---- the method ----

  /** `flatten_nav`; an absent `base_parts` is the empty list. */
  method FlattenNav(navList: seq<NavItem>, baseParts: seq<string>) returns (paths: set<string>)
    ensures paths == RefItems(navList, baseParts)
    decreases navList
  {
    paths := {};
    for i := 0 to |navList|
      invariant paths == RefItems(navList[..i], baseParts)
    {
      assert navList[..i + 1][..i] == navList[..i];
      match navList[i]
      case Mapping(ps) =>
        ghost var before := paths;
        for j := 0 to |ps|
          invariant paths == before + RefPairs(ps[..j], baseParts)
        {
          assert ps[..j + 1][..j] == ps[..j];
          var title, val := ps[j].title, ps[j].value;
          match val
          case Section(children) =>
            var folderName := FolderName(title);
            var sub := FlattenNav(children, baseParts + [folderName]);
            paths := paths + sub;
          case Page(f) =>
            paths := paths + {Join(baseParts + [f])};
          case Other =>
        }
        assert ps[..|ps|] == ps;
      case Name(item) =>
        paths := paths + {Join(baseParts + [item])};
      case Unknown =>
    }
    assert navList[..|navList|] == navList;
  }

  // ---- characterisation by leaf paths ----

  /** What a single top-level entry refers to. */
  function RefEntry(e: Entry, base: seq<string>): set<string> {
    match e
    case Bare(f) => {Under(base, f)}
    case Keyed(t, v) => RefPair(NavPair(t, v), base)
  }

  lemma {:induction false} RefItemsCoverEntries(items: seq<NavItem>, base: seq<string>, e: Entry)
    requires e in Entries(items)
    ensures RefEntry(e, base) <= RefItems(items, base)
    decreases |items|
  {
    var n := |items| - 1;
    if e in Entries(items[..n]) {
      RefItemsCoverEntries(items[..n], base, e);
    } else {
      assert e in ItemEntries(items[n]);
      match items[n]
      case Name(f) =>
      case Mapping(ps) =>
        var j :| 0 <= j < |ps| && e == Keyed(ps[j].title, ps[j].value);
        RefPairsCover(ps, base, j);
      case Unknown =>
    }
  }

  lemma {:induction false} RefPairsCover(ps: seq<NavPair>, base: seq<string>, j: nat)
    requires j < |ps|
    ensures RefPair(ps[j], base) <= RefPairs(ps, base)
    decreases |ps|
  {
    var n := |ps| - 1;
    if j < n {
      RefPairsCover(ps[..n], base, j);
    }
  }

  lemma LeafFileReferenced(e: Entry, base: seq<string>, f: string)
    requires LeafFile(e) == Some(f)
    ensures Under(base, f) in RefEntry(e, base)
  {
  }

  /** Every leaf reached by a path of folders is referenced. */
  lemma {:induction false} LeafReferenced(items: seq<NavItem>, base: seq<string>, path: seq<string>)
    requires LeafAt(items, path)
    ensures Join(base + path) in RefItems(items, base)
    decreases |path|, 1
  {
    var e :| e in Entries(items) && EntryLeaf(e, path);
    RefItemsCoverEntries(items, base, e);
    EntryLeafReferenced(e, base, path);
  }

  lemma {:induction false} EntryLeafReferenced(e: Entry, base: seq<string>, path: seq<string>)
    requires EntryLeaf(e, path)
    ensures Join(base + path) in RefEntry(e, base)
    decreases |path|, 0
  {
    if |path| == 1 && LeafFile(e) == Some(path[0]) {
      assert path == [path[0]];
      LeafFileReferenced(e, base, path[0]);
    } else {
      var base' := base + [path[0]];
      LeafReferenced(e.value.children, base', path[1..]);
      assert base + path == base' + path[1..];
    }
  }

  /** Only leaves are referenced: each path is the folders of the leaf's
      ancestors followed by its file. */
  lemma {:induction false} ReferencedIsLeaf(items: seq<NavItem>, base: seq<string>, x: string)
    requires x in RefItems(items, base)
    ensures exists path :: LeafAt(items, path) && x == Join(base + path)
    decreases items
  {
    var n := |items| - 1;
    if x in RefItems(items[..n], base) {
      ReferencedIsLeaf(items[..n], base, x);
      var path :| LeafAt(items[..n], path) && x == Join(base + path);
      var e :| e in Entries(items[..n]) && EntryLeaf(e, path);
      assert e in Entries(items);
      assert LeafAt(items, path);
    } else {
      match items[n]
      case Name(f) =>
        assert EntryLeaf(Bare(f), [f]);
        assert Bare(f) in Entries(items);
        assert LeafAt(items, [f]);
      case Mapping(ps) =>
        var j := RefPairsWitness(ps, base, x);
        ReferencedPairIsLeaf(ps[j], base, x);
        var path :| EntryLeaf(Keyed(ps[j].title, ps[j].value), path) && x == Join(base + path);
        assert ItemEntries(items[n])[j] == Keyed(ps[j].title, ps[j].value);
        assert Keyed(ps[j].title, ps[j].value) in Entries(items);
        assert LeafAt(items, path);
      case Unknown =>
    }
  }

  lemma {:induction false} RefPairsWitness(ps: seq<NavPair>, base: seq<string>, x: string) returns (j: nat)
    requires x in RefPairs(ps, base)
    ensures j < |ps| && x in RefPair(ps[j], base)
    decreases |ps|
  {
    var n := |ps| - 1;
    if x in RefPair(ps[n], base) {
      j := n;
    } else {
      j := RefPairsWitness(ps[..n], base, x);
    }
  }

  lemma {:induction false} ReferencedPairIsLeaf(p: NavPair, base: seq<string>, x: string)
    requires x in RefPair(p, base)
    ensures exists path :: EntryLeaf(Keyed(p.title, p.value), path) && x == Join(base + path)
    decreases p
  {
    match p.value
    case Page(f) =>
      assert EntryLeaf(Keyed(p.title, p.value), [f]);
    case Section(children) =>
      var folder := FolderName(p.title);
      ReferencedIsLeaf(children, base + [folder], x);
      var rest :| LeafAt(children, rest) && x == Join(base + [folder] + rest);
      var path := [folder] + rest;
      assert path[1..] == rest;
      assert base + path == base + [folder] + rest;
      assert EntryLeaf(Keyed(p.title, p.value), path);
  }

  /** The referenced set is exactly the joined leaf paths. */
  lemma ReferencedExactlyLeaves(nav: seq<NavItem>, x: string)
    ensures x in ReferencedFiles(nav) <==> exists path :: LeafAt(nav, path) && x == Join(path)
  {
    if x in ReferencedFiles(nav) {
      ReferencedIsLeaf(nav, [], x);
      var path :| LeafAt(nav, path) && x == Join([] + path);
      assert [] + path == path;
    }
    if exists path :: LeafAt(nav, path) && x == Join(path) {
      var path :| LeafAt(nav, path) && x == Join(path);
      LeafReferenced(nav, [], path);
      assert [] + path == path;
    }
  }
}
