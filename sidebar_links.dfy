/** `create_url_path`: the link a sidebar entry points at, built from the
    sidebar's key and the entry's file. */
module SidebarLinks {
  import opened Text
  import opened Paths
  import opened Slug
  import opened Pages

  /** The file's name without its folders or its extension. */
  function ChildSlug(childFile: string): (r: string)
    ensures '/' !in r
  {
    SplitextRoot(Basename(childFile))
  }

  /** `create_url_path`: the site root for an `index` file, otherwise
      `/parent/slug` with each doubled separator folded once. */
  function CreateUrlPath(parent: string, childFile: string): string {
    var childSlug := ChildSlug(childFile);
    if childSlug == "index" then "/"
    else ReplaceAll("/" + parent + "/" + childSlug, "//", "/")
  }

  /** Folding doubled separators keeps a leading separator. */
  lemma FoldKeepsRoot(s: string)
    requires s != [] && s[0] == '/'
    ensures var r := ReplaceAll(s, "//", "/"); r != [] && r[0] == '/'
  {
  }

  /** A string with no two separators in a row has nothing to fold. */
  lemma FoldNoop(s: string)
    requires forall i :: 0 <= i < |s| - 1 ==> !(s[i] == '/' && s[i + 1] == '/')
    ensures ReplaceAll(s, "//", "/") == s
  {
    forall i | 0 <= i < |s| ensures !OccursAt(s, "//", i) {
      if i + 2 <= |s| {
        assert s[i..i + 2] == [s[i], s[i + 1]];
      }
    }
    ReplaceAllNoMatch(s, "//", "/");
  }

  /** Every link is rooted. */
  lemma UrlPathRooted(parent: string, childFile: string)
    ensures var r := CreateUrlPath(parent, childFile); r != [] && r[0] == '/'
  {
    if ChildSlug(childFile) != "index" {
      FoldKeepsRoot("/" + parent + "/" + ChildSlug(childFile));
    }
  }

  /** Only the file's name counts: folders in front of it change nothing. */
  lemma UrlPathIgnoresFolders(parent: string, dir: string, name: string)
    requires '/' !in name
    ensures CreateUrlPath(parent, dir + "/" + name) == CreateUrlPath(parent, name)
  {
    BasenameAfterSlash(dir, name);
    assert Split(name) == [name];
  }

  /** Under a plain parent the link is exactly `/parent/slug`; an `index`
      file links to the site root. */
  lemma UrlPathPlain(parent: string, childFile: string)
    requires parent != [] && '/' !in parent
    ensures CreateUrlPath(parent, childFile) ==
      if ChildSlug(childFile) == "index" then "/" else "/" + parent + "/" + ChildSlug(childFile)
  {
    var slug := ChildSlug(childFile);
    var s := "/" + parent + "/" + slug;
    forall i | 0 <= i < |s| - 1 ensures !(s[i] == '/' && s[i + 1] == '/') {
      if i == 0 {
        assert s[1] == parent[0];
      } else if i <= |parent| {
        assert s[i] == parent[i - 1];
      } else {
        assert s[i + 1] == slug[i - |parent| - 1];
      }
    }
    FoldNoop(s);
  }

  /** With an empty parent, the doubled separator folds away: the link is
      `/slug`. */
  lemma UrlPathEmptyParent(childFile: string)
    ensures CreateUrlPath("", childFile) ==
      if ChildSlug(childFile) == "index" then "/" else "/" + ChildSlug(childFile)
  {
    var slug := ChildSlug(childFile);
    var s := "/" + "" + "/" + slug;
    assert s[..2] == "//" && s[2..] == slug;
    forall i | 0 <= i < |slug| - 1 ensures !(slug[i] == '/' && slug[i + 1] == '/') {
      assert slug[i] != '/';
    }
    FoldNoop(slug);
  }

  /** `os.path.splitext` of a Markdown name that does not start with a dot
      loses exactly the `.md`. */
  lemma SplitextMd(stem: string)
    requires stem != [] && stem[0] != '.'
    ensures SplitextRoot(stem + ".md") == stem
  {
    var name := stem + ".md";
    assert name[|name| - 3] == '.';
    var i := LastDot(name).value;
    assert i == |name| - 3;
    assert name[0] != '.';
    assert name[..i] == stem;
  }

  /** The link a sidebar keyed by a top-level folder gives one of its pages,
      and the route that page is served at: the route is the link's raw
      path with every underscore read as a hyphen, while the link rewrites
      the folder's underscores only. */
  lemma LinkAndRoute(folder: string, stem: string)
    requires folder != [] && '/' !in folder && '\\' !in folder
    requires stem != [] && stem[0] != '.' && stem != "index" && '/' !in stem && '\\' !in stem
    ensures CreateUrlPath(Hyphenate(folder), stem + ".md") == "/" + Hyphenate(folder) + "/" + stem
    ensures Route([folder, stem + ".md"]) == Hyphenate("/" + folder + "/" + stem)
  {
    var file := stem + ".md";
    assert '/' !in file by {
      forall i | 0 <= i < |file| ensures file[i] != '/' {
        if i < |stem| { assert file[i] == stem[i]; }
      }
    }
    assert Split(file) == [file];
    SplitextMd(stem);
    var parent := Hyphenate(folder);
    HyphenateAt(folder);
    assert '/' !in parent by {
      forall i | 0 <= i < |parent| ensures parent[i] != '/' {
        assert parent[i] == if folder[i] == '_' then '-' else folder[i];
      }
    }
    UrlPathPlain(parent, file);
    PathStemMd(stem);
    RouteOfPage(folder, stem);
  }

  /** A sidebar link to a page in a top-level folder, with the sidebar's key
      as the parent, is the route the page is registered under, provided
      the page's name holds no underscore. */
  lemma UrlPathMatchesRoute(folder: string, stem: string)
    requires folder != [] && '/' !in folder && '\\' !in folder
    requires stem != [] && stem[0] != '.' && stem != "index"
    requires '/' !in stem && '\\' !in stem && '_' !in stem
    ensures CreateUrlPath(Hyphenate(folder), stem + ".md") == Route([folder, stem + ".md"])
  {
    LinkAndRoute(folder, stem);
    var link := "/" + Hyphenate(folder) + "/" + stem;
    LinkMergesRaw(folder, stem);
    HyphenateAt(folder);
    assert '_' !in link by {
      forall i | 0 <= i < |link| ensures link[i] != '_' {
        if 0 < i <= |folder| { assert link[i] == Hyphenate(folder)[i - 1]; }
        else if i > |folder| + 1 { assert link[i] == stem[i - |folder| - 2]; }
      }
    }
    ReplaceCharAbsent(link, '_', '-');
  }

  /** The link's path and the route's raw path differ only where the
      folder's underscores became hyphens, so they hyphenate alike. */
  lemma LinkMergesRaw(folder: string, stem: string)
    ensures Hyphenate("/" + Hyphenate(folder) + "/" + stem) == Hyphenate("/" + folder + "/" + stem)
  {
    var x, y := "/" + folder + "/" + stem, "/" + Hyphenate(folder) + "/" + stem;
    HyphenateAt(folder);
    forall i | 0 <= i < |x| ensures x[i] == y[i] || (x[i] == '_' && y[i] == '-') {
      if 0 < i <= |folder| { assert x[i] == folder[i - 1] && y[i] == Hyphenate(folder)[i - 1]; }
      else if i > |folder| + 1 { assert x[i] == stem[i - |folder| - 2] && y[i] == stem[i - |folder| - 2]; }
    }
    HyphenateMerges(x, y);
  }

  /** As written, a page whose name holds an underscore gets a sidebar link
      that is not its route: the link keeps the underscore, the route reads
      it as a hyphen (`guide/getting_started.md` is linked as
      `/guide/getting_started` but served at `/guide/getting-started`). */
  lemma UrlPathMissesRoute(folder: string, stem: string)
    requires folder != [] && '/' !in folder && '\\' !in folder
    requires stem != [] && stem[0] != '.'
    requires '/' !in stem && '\\' !in stem && '_' in stem
    ensures CreateUrlPath(Hyphenate(folder), stem + ".md") != Route([folder, stem + ".md"])
  {
    var u :| 0 <= u < |stem| && stem[u] == '_';
    NotIndexPage(stem, u);
    LinkAndRoute(folder, stem);
    var link := "/" + Hyphenate(folder) + "/" + stem;
    HyphenateAt(folder);
    assert link[|folder| + 2 + u] == '_';
    HyphenateAt("/" + folder + "/" + stem);
  }

  /** The link with the route's underscore rewrite applied to the whole
      path, the way the page's route is derived. */
  function CreateUrlPathHyphenated(parent: string, childFile: string): (r: string)
    ensures r != [] && r[0] == '/' && '_' !in r
  {
    UrlPathRooted(parent, childFile);
    var link := CreateUrlPath(parent, childFile);
    HyphenateAt(link);
    Hyphenate(link)
  }

  /** With the rewrite applied, every page of a top-level folder other than
      its index is linked at the route it is served at, underscores or not. */
  lemma HyphenatedUrlPathMatchesRoute(folder: string, stem: string)
    requires folder != [] && '/' !in folder && '\\' !in folder
    requires stem != [] && stem[0] != '.' && stem != "index"
    requires '/' !in stem && '\\' !in stem
    ensures CreateUrlPathHyphenated(Hyphenate(folder), stem + ".md") == Route([folder, stem + ".md"])
  {
    LinkAndRoute(folder, stem);
    LinkMergesRaw(folder, stem);
  }

  /** The route of `folder/stem.md`: its raw path with underscores read as
      hyphens. */
  lemma RouteOfPage(folder: string, stem: string)
    requires folder != [] && '/' !in folder && '\\' !in folder
    requires stem != [] && stem != "index" && '/' !in stem && '\\' !in stem
    requires PathStem(stem + ".md") == stem
    ensures Route([folder, stem + ".md"]) == Hyphenate("/" + folder + "/" + stem)
  {
    var parts := [folder, stem + ".md"];
    assert parts[1] != "index.md" by {
      assert (stem + ".md")[..|stem|] == stem;
      assert "index.md"[..5] == "index";
    }
    assert StemParts(parts) == [folder, stem];
    assert [folder, stem][1..] == [stem];
    assert Join([folder, stem]) == folder + "/" + stem;
    var raw := "/" + folder + "/" + stem;
    assert RawRoute(parts) == raw;
    assert '\\' !in raw;
    ReplaceCharAbsent(raw, '\\', '/');
  }

  /** An index file links to the site root, not to its folder's route. */
  lemma IndexLinksToRoot(folder: string)
    requires folder != [] && '/' !in folder && '\\' !in folder
    ensures CreateUrlPath(Hyphenate(folder), "index.md") == "/"
    ensures Route([folder, "index.md"]) != "/"
  {
    assert Split("index.md") == ["index.md"];
    assert SplitextRoot("index.md") == "index" by {
      var name := "index.md";
      assert name[5] == '.';
      assert LastDot(name).value == 5;
      assert name[0] != '.';
    }
    var parts := [folder, "index.md"];
    assert parts[..1] == [folder];
    assert RawRoute(parts) == "/" + folder + "/";
    assert |Route(parts)| == |folder| + 2 by {
      ReplaceCharPointwise(RawRoute(parts), '\\', '/');
      ReplaceCharPointwise(ReplaceAll(RawRoute(parts), "\\", "/"), '_', '-');
    }
  }
}
