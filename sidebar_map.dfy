/** `clean_nav`: the sidebar map, keyed by slug, that drops excluded pages
    and branches left empty. */
module SidebarMap {
  import opened Wrappers
  import opened Slug
  import opened Nav
  import opened SideDict

  // ---- specification: a fold in the shape of the source's loops ----

  function CleanItems(acc: Dict, items: seq<NavItem>, excl: set<string>): (r: Dict)
    requires DistinctKeys(acc)
    ensures DistinctKeys(r)
    decreases items
  {
    if |items| == 0 then acc
    else CleanItem(CleanItems(acc, items[..|items| - 1], excl), items[|items| - 1], excl)
  }

  function CleanItem(acc: Dict, item: NavItem, excl: set<string>): (r: Dict)
    requires DistinctKeys(acc)
    ensures DistinctKeys(r)
    decreases item
  {
    match item
    case Name(f) => if f in excl then acc else Put(acc, KebabCase(f), Link(f))
    case Mapping(ps) => CleanPairs(acc, ps, excl)
    case Unknown => acc
  }

  function CleanPairs(acc: Dict, ps: seq<NavPair>, excl: set<string>): (r: Dict)
    requires DistinctKeys(acc)
    ensures DistinctKeys(r)
    decreases ps
  {
    if |ps| == 0 then acc
    else CleanPair(CleanPairs(acc, ps[..|ps| - 1], excl), ps[|ps| - 1], excl)
  }

  function CleanPair(acc: Dict, p: NavPair, excl: set<string>): (r: Dict)
    requires DistinctKeys(acc)
    ensures DistinctKeys(r)
    decreases p
  {
    match p.value
    case Page(f) => if f in excl then acc else Put(acc, KebabCase(p.title), Link(f))
    case Section(children) =>
      var sub := CleanItems([], children, excl);
      if sub != [] then Put(acc, KebabCase(p.title), Nested(sub)) else acc
    case Other => acc
  }

  /** The sidebar map of a nav list. */
  function CleanNav(nav: seq<NavItem>, excl: set<string>): Dict {
    CleanItems([], nav, excl)
  }

  // ---- the method, loop for loop ----

  /** `clean_nav` */
  method BuildSidebarMap(nav: seq<NavItem>, excl: set<string>) returns (navDict: Dict)
    ensures navDict == CleanNav(nav, excl)
    decreases nav
  {
    navDict := [];
    for i := 0 to |nav|
      invariant navDict == CleanItems([], nav[..i], excl)
    {
      CleanItemsStep([], nav, i, excl);
      match nav[i]
      case Mapping(ps) =>
        ghost var before := navDict;
        for j := 0 to |ps|
          invariant DistinctKeys(before)
          invariant navDict == CleanPairs(before, ps[..j], excl)
        {
          CleanPairsStep(before, ps, j, excl);
          var title, val := ps[j].title, ps[j].value;
          match val
          case Page(f) =>
            if f !in excl {
              navDict := Put(navDict, KebabCase(title), Link(f));
            }
          case Section(children) =>
            var subDict := BuildSidebarMap(children, excl);
            if subDict != [] {
              navDict := Put(navDict, KebabCase(title), Nested(subDict));
            }
          case Other =>
        }
        assert ps[..|ps|] == ps;
      case Name(item) =>
        if item !in excl {
          navDict := Put(navDict, KebabCase(item), Link(item));
        }
      case Unknown =>
    }
    assert nav[..|nav|] == nav;
  }

  lemma CleanItemsStep(acc: Dict, items: seq<NavItem>, i: nat, excl: set<string>)
    requires DistinctKeys(acc) && i < |items|
    ensures CleanItems(acc, items[..i + 1], excl) == CleanItem(CleanItems(acc, items[..i], excl), items[i], excl)
  {
    assert items[..i + 1][..i] == items[..i];
  }

  lemma CleanPairsStep(acc: Dict, ps: seq<NavPair>, j: nat, excl: set<string>)
    requires DistinctKeys(acc) && j < |ps|
    ensures CleanPairs(acc, ps[..j + 1], excl) == CleanPair(CleanPairs(acc, ps[..j], excl), ps[j], excl)
  {
    assert ps[..j + 1][..j] == ps[..j];
  }

  // ---- the same map, read entry by entry ----

  /** What one top-level entry assigns to the map, if anything. */
  function Contribution(e: Entry, excl: set<string>): Option<SideEntry> {
    match e
    case Bare(f) => if f in excl then None else Some(SideEntry(KebabCase(f), Link(f)))
    case Keyed(t, v) =>
      match v
      case Page(f) => if f in excl then None else Some(SideEntry(KebabCase(t), Link(f)))
      case Section(children) =>
        var sub := CleanNav(children, excl);
        if sub != [] then Some(SideEntry(KebabCase(t), Nested(sub))) else None
      case Other => None
  }

  /** The contribution as a list of zero or one assignments. */
  function Assigned(e: Entry, excl: set<string>): seq<SideEntry> {
    var c := Contribution(e, excl);
    if c.Some? then [c.value] else []
  }

  function Contributions(es: seq<Entry>, excl: set<string>): seq<SideEntry>
    decreases |es|
  {
    if es == [] then []
    else Contributions(es[..|es| - 1], excl) + Assigned(es[|es| - 1], excl)
  }

  lemma ContributionsSingle(e: Entry, excl: set<string>)
    ensures Contributions([e], excl) == Assigned(e, excl)
  {
    assert [e][..0] == [];
  }

  /** An assignment carries the slug of the entry's title or bare file. */
  lemma ContributionKey(e: Entry, excl: set<string>)
    requires Contribution(e, excl).Some?
    ensures Contribution(e, excl).value.key == KebabCase(if e.Bare? then e.file else e.title)
  {
  }

  lemma {:induction false} ContributionsAppend(a: seq<Entry>, b: seq<Entry>, excl: set<string>)
    ensures Contributions(a + b, excl) == Contributions(a, excl) + Contributions(b, excl)
    decreases |b|
  {
    if b == [] {
      assert a + b == a;
    } else {
      var n := |b| - 1;
      assert (a + b)[..|a + b| - 1] == a + b[..n];
      assert (a + b)[|a + b| - 1] == b[n];
      ContributionsAppend(a, b[..n], excl);
      var ca, cb, x := Contributions(a, excl), Contributions(b[..n], excl), Assigned(b[n], excl);
      assert Contributions(a + b, excl) == (ca + cb) + x;
      assert Contributions(b, excl) == cb + x;
      assert (ca + cb) + x == ca + (cb + x);
    }
  }

  function PairEntries(ps: seq<NavPair>): seq<Entry> {
    ItemEntries(Mapping(ps))
  }

  lemma CleanPairAssigns(acc: Dict, p: NavPair, excl: set<string>)
    requires DistinctKeys(acc)
    ensures CleanPair(acc, p, excl) == PutAll(acc, Assigned(Keyed(p.title, p.value), excl))
  {
  }

  lemma PairEntriesSnoc(ps: seq<NavPair>)
    requires ps != []
    ensures PairEntries(ps) == PairEntries(ps[..|ps| - 1]) + [Keyed(ps[|ps| - 1].title, ps[|ps| - 1].value)]
  {
  }

  lemma {:induction false} CleanPairsFold(acc: Dict, ps: seq<NavPair>, excl: set<string>)
    requires DistinctKeys(acc)
    ensures CleanPairs(acc, ps, excl) == PutAll(acc, Contributions(PairEntries(ps), excl))
    decreases |ps|
  {
    if ps != [] {
      var n := |ps| - 1;
      var e := Keyed(ps[n].title, ps[n].value);
      var before := Contributions(PairEntries(ps[..n]), excl);
      CleanPairsFold(acc, ps[..n], excl);
      PairEntriesSnoc(ps);
      ContributionsAppend(PairEntries(ps[..n]), [e], excl);
      ContributionsSingle(e, excl);
      PutAllAppend(acc, before, Assigned(e, excl));
      CleanPairAssigns(PutAll(acc, before), ps[n], excl);
    }
  }

  /** The loops assign exactly the contributions of the top-level entries,
      in authored order. */
  lemma {:induction false} CleanItemsFold(acc: Dict, items: seq<NavItem>, excl: set<string>)
    requires DistinctKeys(acc)
    ensures CleanItems(acc, items, excl) == PutAll(acc, Contributions(Entries(items), excl))
    decreases |items|
  {
    if items != [] {
      var n := |items| - 1;
      var prev := CleanItems(acc, items[..n], excl);
      CleanItemsFold(acc, items[..n], excl);
      ContributionsAppend(Entries(items[..n]), ItemEntries(items[n]), excl);
      PutAllAppend(acc, Contributions(Entries(items[..n]), excl), Contributions(ItemEntries(items[n]), excl));
      CleanItemAssigns(prev, items[n], excl);
    }
  }

  lemma CleanItemAssigns(acc: Dict, item: NavItem, excl: set<string>)
    requires DistinctKeys(acc)
    ensures CleanItem(acc, item, excl) == PutAll(acc, Contributions(ItemEntries(item), excl))
  {
    match item
    case Mapping(ps) => CleanPairsFold(acc, ps, excl);
    case Name(f) => ContributionsSingle(Bare(f), excl);
    case Unknown =>
  }

  // ---- properties ----

  /** The keys are exactly the slugs of the entries that contribute: a page
      not excluded, a branch whose own map is not empty. */
  lemma CleanNavKeys(nav: seq<NavItem>, excl: set<string>, k: string)
    ensures k in Keys(CleanNav(nav, excl)) <==> exists e :: e in Entries(nav) && Contributes(e, excl, k)
  {
    var cs := Contributions(Entries(nav), excl);
    CleanItemsFold([], nav, excl);
    assert Keys([]) == {};
    PutAllKeys([], cs);
    ContributionsMembers(Entries(nav), excl, k);
  }

  /** Entry `e` assigns something to key `k`. */
  predicate Contributes(e: Entry, excl: set<string>, k: string) {
    Contribution(e, excl).Some? && Contribution(e, excl).value.key == k
  }

  lemma AssignedKeys(e: Entry, excl: set<string>, k: string)
    ensures k in Keys(Assigned(e, excl)) <==> Contributes(e, excl, k)
  {
    if Contribution(e, excl).Some? {
      assert Assigned(e, excl)[0].key == Contribution(e, excl).value.key;
    }
  }

  lemma {:induction false} ContributionsMembers(es: seq<Entry>, excl: set<string>, k: string)
    ensures k in Keys(Contributions(es, excl)) <==> exists e :: e in es && Contributes(e, excl, k)
    decreases |es|
  {
    if es != [] {
      var n := |es| - 1;
      var pre := es[..n];
      ContributionsMembers(pre, excl, k);
      KeysAppend(Contributions(pre, excl), Assigned(es[n], excl));
      AssignedKeys(es[n], excl, k);
      if k in Keys(Contributions(es, excl)) {
        if k in Keys(Contributions(pre, excl)) {
          var e :| e in pre && Contributes(e, excl, k);
          InPrefix(es, n, e);
        } else {
          assert Contributes(es[n], excl, k);
        }
      }
      if exists e :: e in es && Contributes(e, excl, k) {
        var e :| e in es && Contributes(e, excl, k);
        if e != es[n] {
          InPrefixOrLast(es, e);
        }
      }
    }
  }

  lemma InPrefix<T>(s: seq<T>, n: nat, x: T)
    requires n <= |s| && x in s[..n]
    ensures x in s
  {
    var i :| 0 <= i < n && s[..n][i] == x;
    assert s[i] == x;
  }

  lemma InPrefixOrLast<T>(s: seq<T>, x: T)
    requires x in s && x != s[|s| - 1]
    ensures x in s[..|s| - 1]
  {
    var i :| 0 <= i < |s| && s[i] == x;
    assert s[..|s| - 1][i] == x;
  }

  /** A later entry with the same slug overwrites an earlier one. */
  lemma CleanNavLastWins(nav: seq<NavItem>, excl: set<string>, k: string)
    ensures Get(CleanNav(nav, excl), k) == LastFor(Contributions(Entries(nav), excl), k)
  {
    CleanItemsFold([], nav, excl);
    PutAllGet([], Contributions(Entries(nav), excl), k);
  }

  /** A map in which, at every depth, no link names an excluded file and no
      nested map is empty. */
  predicate Pruned(d: Dict, excl: set<string>)
    decreases d
  {
    forall i :: 0 <= i < |d| ==> PrunedValue(d[i].value, excl)
  }

  predicate PrunedValue(v: SideValue, excl: set<string>)
    decreases v
  {
    match v
    case Link(f) => f !in excl
    case Nested(sub) => sub != [] && Pruned(sub, excl)
  }

  lemma PutPruned(d: Dict, k: string, v: SideValue, excl: set<string>)
    requires DistinctKeys(d) && Pruned(d, excl) && PrunedValue(v, excl)
    ensures Pruned(Put(d, k, v), excl)
  {
  }

  lemma {:induction false} CleanItemsPruned(acc: Dict, items: seq<NavItem>, excl: set<string>)
    requires DistinctKeys(acc) && Pruned(acc, excl)
    ensures Pruned(CleanItems(acc, items, excl), excl)
    decreases items
  {
    if |items| != 0 {
      var n := |items| - 1;
      CleanItemsPruned(acc, items[..n], excl);
      CleanItemPruned(CleanItems(acc, items[..n], excl), items[n], excl);
    }
  }

  lemma {:induction false} CleanItemPruned(acc: Dict, item: NavItem, excl: set<string>)
    requires DistinctKeys(acc) && Pruned(acc, excl)
    ensures Pruned(CleanItem(acc, item, excl), excl)
    decreases item
  {
    match item
    case Name(f) =>
      if f !in excl {
        PutPruned(acc, KebabCase(f), Link(f), excl);
      }
    case Mapping(ps) => CleanPairsPruned(acc, ps, excl);
    case Unknown =>
  }

  lemma {:induction false} CleanPairsPruned(acc: Dict, ps: seq<NavPair>, excl: set<string>)
    requires DistinctKeys(acc) && Pruned(acc, excl)
    ensures Pruned(CleanPairs(acc, ps, excl), excl)
    decreases ps
  {
    if |ps| != 0 {
      var n := |ps| - 1;
      CleanPairsPruned(acc, ps[..n], excl);
      CleanPairPruned(CleanPairs(acc, ps[..n], excl), ps[n], excl);
    }
  }

  lemma {:induction false} CleanPairPruned(acc: Dict, p: NavPair, excl: set<string>)
    requires DistinctKeys(acc) && Pruned(acc, excl)
    ensures Pruned(CleanPair(acc, p, excl), excl)
    decreases p
  {
    match p.value
    case Page(f) =>
      if f !in excl {
        PutPruned(acc, KebabCase(p.title), Link(f), excl);
      }
    case Section(children) =>
      var sub := CleanItems([], children, excl);
      CleanItemsPruned([], children, excl);
      if sub != [] {
        PutPruned(acc, KebabCase(p.title), Nested(sub), excl);
      }
    case Other =>
  }

  /** The sidebar map never links an excluded file and never keeps an empty
      branch, at any depth. */
  lemma CleanNavPruned(nav: seq<NavItem>, excl: set<string>)
    ensures Pruned(CleanNav(nav, excl), excl)
  {
    CleanItemsPruned([], nav, excl);
  }

  /** Every key of the map is a slug, unchanged by `kebab_case`. */
  lemma CleanNavKeysAreSlugs(nav: seq<NavItem>, excl: set<string>, k: string)
    requires k in Keys(CleanNav(nav, excl))
    ensures KebabCase(k) == k
  {
    CleanNavKeys(nav, excl, k);
    var e :| e in Entries(nav) && Contributes(e, excl, k);
    ContributionKey(e, excl);
    KebabCaseIdempotent(if e.Bare? then e.file else e.title);
  }
}
