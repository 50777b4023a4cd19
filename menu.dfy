/** `build_main_nav`: the top menu, one link per top-level entry of the nav. */
module Menu {
  import opened Text
  import opened Slug
  import opened Nav

  datatype MenuLink = MenuLink(title: string, url: string)

  /** An entry that names the home page. */
  predicate IsHome(e: Entry) {
    e == Bare("index.md") || (e.Keyed? && e.value == Page("index.md"))
  }

  /** The text a link's slug comes from: a bare file name without ".md", or
      the title of a pair. */
  function Label(e: Entry): string {
    match e
    case Bare(f) => ReplaceAll(f, ".md", "")
    case Keyed(t, _) => t
  }

  /** The menu link of one entry; the specification `BuildMainNav` meets. */
  function LinkFor(e: Entry): MenuLink {
    match e
    case Bare(f) => MenuLink(Capitalize(Label(e)), if f == "index.md" then "/" else "/" + KebabCase(Label(e)) + "/")
    case Keyed(t, v) => MenuLink(t, if v == Page("index.md") then "/" else "/" + KebabCase(t) + "/")
  }

  /** A link goes to the site root exactly when its entry names `index.md`;
      every other link is the slug of its label between slashes, and so is
      never the root. */
  lemma LinkUrl(e: Entry)
    ensures LinkFor(e).url == "/" <==> IsHome(e)
    ensures !IsHome(e) ==> LinkFor(e).url == "/" + KebabCase(Label(e)) + "/"
  {
    if !IsHome(e) {
      assert |LinkFor(e).url| >= 2;
    }
  }

  /** A bare file shows its name without ".md", capitalised; a pair shows its
      title untouched. */
  lemma LinkTitle(e: Entry)
    ensures e.Bare? ==> LinkFor(e).title == Capitalize(ReplaceAll(e.file, ".md", ""))
    ensures e.Keyed? ==> LinkFor(e).title == e.title
  {
  }

  function Links(es: seq<Entry>): (r: seq<MenuLink>)
    ensures |r| == |es| && forall k :: 0 <= k < |es| ==> r[k] == LinkFor(es[k])
  {
    seq(|es|, k requires 0 <= k < |es| => LinkFor(es[k]))
  }

  lemma LinksAppend(a: seq<Entry>, b: seq<Entry>)
    ensures Links(a + b) == Links(a) + Links(b)
  {
  }

  /** The menu of a nav: one link per top-level entry, in authored order. */
  function MainNav(nav: seq<NavItem>): seq<MenuLink> {
    Links(Entries(nav))
  }

  /** `build_main_nav`, loop for loop. */
  method BuildMainNav(nav: seq<NavItem>) returns (links: seq<MenuLink>)
    ensures links == MainNav(nav)
    ensures |links| == |Entries(nav)|
    ensures forall k :: 0 <= k < |links| ==> links[k] == LinkFor(Entries(nav)[k])
  {
    links := [];
    for i := 0 to |nav|
      invariant links == MainNav(nav[..i])
    {
      MainNavStep(nav, i);
      match nav[i]
      case Mapping(ps) =>
        ghost var done := links;
        ghost var more := ItemEntries(nav[i]);
        for j := 0 to |ps|
          invariant links == done + Links(more[..j])
        {
          var title, val := ps[j].title, ps[j].value;
          var urlPart := KebabCase(title);
          var url;
          if val.Page? {
            if val.file == "index.md" {
              url := "/";
            } else {
              url := "/" + urlPart + "/";
            }
          } else {
            url := "/" + urlPart + "/";
          }
          LinksStep(done, more, j, MenuLink(title, url));
          links := links + [MenuLink(title, url)];
        }
        assert more[..|ps|] == more;
      case Name(item) =>
        var title := ReplaceAll(item, ".md", "");
        var urlPart := KebabCase(title);
        var url;
        if item == "index.md" {
          url := "/";
        } else {
          url := "/" + urlPart + "/";
        }
        links := links + [MenuLink(Capitalize(title), url)];
      case Unknown =>
    }
    assert nav[..|nav|] == nav;
  }

  lemma MainNavStep(nav: seq<NavItem>, i: nat)
    requires i < |nav|
    ensures MainNav(nav[..i + 1]) == MainNav(nav[..i]) + Links(ItemEntries(nav[i]))
  {
    EntriesSnoc(nav, i);
    LinksAppend(Entries(nav[..i]), ItemEntries(nav[i]));
  }

  lemma LinksStep(done: seq<MenuLink>, more: seq<Entry>, j: nat, link: MenuLink)
    requires j < |more| && link == LinkFor(more[j])
    ensures (done + Links(more[..j])) + [link] == done + Links(more[..j + 1])
  {
    assert more[..j + 1] == more[..j] + [more[j]];
    LinksAppend(more[..j], [more[j]]);
  }

  /** Nav with every branch's children cut away. */
  function Prune(nav: seq<NavItem>): (r: seq<NavItem>)
    ensures |r| == |nav|
  {
    seq(|nav|, i requires 0 <= i < |nav| => PruneItem(nav[i]))
  }

  function PruneItem(item: NavItem): NavItem {
    match item
    case Mapping(ps) => Mapping(seq(|ps|, j requires 0 <= j < |ps| => PrunePair(ps[j])))
    case _ => item
  }

  function PrunePair(p: NavPair): NavPair {
    if p.value.Section? then NavPair(p.title, Section([])) else p
  }

  lemma MainNavSnoc(nav: seq<NavItem>)
    requires nav != []
    ensures MainNav(nav) == MainNav(nav[..|nav| - 1]) + Links(ItemEntries(nav[|nav| - 1]))
  {
    LinksAppend(Entries(nav[..|nav| - 1]), ItemEntries(nav[|nav| - 1]));
  }

  lemma PruneItemLinks(item: NavItem)
    ensures Links(ItemEntries(PruneItem(item))) == Links(ItemEntries(item))
  {
  }

  /** The menu never looks below the top level: cutting every branch's
      children leaves it unchanged. */
  lemma {:induction false} MainNavTopLevelOnly(nav: seq<NavItem>)
    ensures MainNav(Prune(nav)) == MainNav(nav)
    decreases |nav|
  {
    if nav != [] {
      var n := |nav| - 1;
      assert Prune(nav)[..n] == Prune(nav[..n]);
      MainNavTopLevelOnly(nav[..n]);
      MainNavSnoc(nav);
      MainNavSnoc(Prune(nav));
      PruneItemLinks(nav[n]);
    }
  }
}
