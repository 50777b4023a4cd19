# Navigation and scaffolding of a Markdown site generator, in Dafny

The site generator turns a folder of Markdown pages and a `config.yml`
holding a nested `nav` list into a Reflex web app. This project models
the part of it that works out the navigation, plus the command-line
scaffolding that prepares the pages folder:

- **Slugs.** `kebab_case` turns titles into URL slugs. A branch's folder
  name is its lower-cased title with spaces read as underscores (modules
  `Text`, `Slug`).
- **Nav tree.** The nav list is modelled as a datatype, with the three walks
  the exporter makes over it:
  - the top menu (`build_main_nav`, module `Menu`);
  - the sidebar map (`clean_nav`, modules `SideDict` and `SidebarMap`), an
    insertion-ordered dictionary where a later key overwrites an earlier one
    in place;
  - the set of referenced files (`flatten_nav`, module `Referenced`).
- **Table of contents.** `extract_toc` is modelled with the heading pattern
  `^(#{1,2})\s+(.+)` as written, including the ways `\s+` can cross a line
  break (module `Toc`).
- **Per-page assembly** in `export_app` (module `Pages`):
  - the route each page is served at;
  - the sidebar it shows;
  - the orphan audit: pages on disk that the nav never mentions.
- **Scaffolding** in the command-line tool (module `Scaffold`):
  - where the main app folder is;
  - the starter `index.md`;
  - the placeholder `index.md` written for every nav branch that lacks one.

  The file system is a `Workspace` class. It holds the files under the
  pages folder and a log of the paths written.
- **Sidebar links.** `create_url_path` turns a sidebar entry into a link
  (module `SidebarLinks`).

Loops in the source are methods with loop invariants, each proved equal to
a specification function: `BuildMainNav`, `BuildSidebarMap`, `FlattenNav`,
`ExtractToc`, `AuditOrphans` and `Workspace.TraverseNav`. The properties
are then proved about those functions.

Two facts about the code are easy to miss:

- **Sidebar keys.** The sidebar map is keyed by `kebab_case` of the title
  (`intro`), not by the title itself.
- **Placeholder indexes.** Placeholder `index.md` files are written by the
  command-line tool (`create_missing_indexes`), not by `export_app`.

## Model

| member | source | states |
|---|---|---|
| Slug.KebabCase | sandbox/app/export.py:15-20 | the slug is no longer than the text, and holds only word characters and hyphens, none of them upper-case or whitespace |
| Slug.KebabCaseIdempotent | sandbox/app/export.py:15-20 | a slug is a fixed point of kebab_case |
| Text.Strip | sandbox/app/export.py:17 | str.strip: the result is no longer than the input and, when non-empty, neither starts nor ends with a stripped character |
| Text.StripIsSlice | sandbox/app/export.py:17 | what stripping leaves is one contiguous slice of the input |
| Text.StripKeeps | sandbox/app/export.py:17 | a character that is not stripped survives stripping |
| Text.ReplaceRuns | sandbox/app/export.py:18 | re.sub of a run pattern: no longer than the input, and every character left in it is either outside the run class or the replacement |
| Text.ReplaceRunsSeparated | sandbox/app/export.py:18 | after the replacement no two run characters stand next to each other |
| Text.ReplaceRunsKeeps | sandbox/app/export.py:18 | a character outside the run class survives the replacement |
| Text.ReplaceRunsNoop | sandbox/app/export.py:18 | a string without run characters is left unchanged |
| Text.Filter | sandbox/app/export.py:19 | re.sub of a single-character class with "": every remaining character is a kept one |
| Text.FilterKeeps | sandbox/app/export.py:19 | every kept character of the input survives the filter |
| Text.FilterNoop | sandbox/app/export.py:19 | a string of kept characters is left unchanged |
| Text.Lower | sandbox/app/export.py:20 | str.lower: same length, each character lower-cased on its own |
| Text.ReplaceCharPointwise | sandbox/app/export.py:84 | str.replace of one character by another maps each character independently and keeps the length |
| Text.Capitalize | sandbox/app/export.py:52 | str.capitalize: the first character upper-cased, the rest lower-cased |
| Slug.FolderMatchesSlug | sandbox/app/export.py:84 | for a title of letters, digits, hyphens and single inner spaces, the folder name with underscores read as hyphens equals the slug |
| Slug.FolderDivergesFromSlug | sandbox/app/export.py:84 | a title holding an underscore, or a character that is neither a slug character nor whitespace, has a folder name that does not read back as its slug |
| Menu.LinkUrl | sandbox/app/export.py:31-51 | a menu link points at "/" exactly when its entry's value (or bare item) is "index.md", and otherwise at "/" + slug + "/" |
| Menu.LinkTitle | sandbox/app/export.py:43-52 | a bare item's link shows the item without ".md", capitalised; a pair's link shows its title unchanged |
| Menu.BuildMainNav | sandbox/app/export.py:22-54 | one link per top-level bare item or mapping pair, in authored order, the k-th link being that of the k-th entry |
| Menu.MainNavTopLevelOnly | sandbox/app/export.py:22-54 | the menu never looks inside a branch: cutting away every branch's children leaves the menu unchanged |
| SideDict.Put | sandbox/app/export.py:65-72 | dict assignment: the key maps to the new value, every other key keeps its value, a present key stays in place and a new key is appended |
| SideDict.PutAllGet | sandbox/app/export.py:59-72 | after a series of assignments a key holds the value of the last assignment to it, or what it held before |
| SidebarMap.BuildSidebarMap | sandbox/app/export.py:56-74 | clean_nav, loop for loop and recursion for recursion: the result equals the specification CleanNav |
| SidebarMap.CleanNavKeys | sandbox/app/export.py:56-74 | a key is in the map exactly when some top-level entry assigns it: a non-excluded leaf, or a branch whose cleaned children are non-empty |
| SidebarMap.CleanNavLastWins | sandbox/app/export.py:56-74 | the value under a key is the one from the last top-level entry that assigns that key |
| SidebarMap.CleanNavPruned | sandbox/app/export.py:62-72 | at every depth the map holds no excluded file and no empty branch |
| SidebarMap.CleanNavKeysAreSlugs | sandbox/app/export.py:65-72 | every key of the map is a slug (a fixed point of kebab_case) |
| Referenced.FlattenNav | sandbox/app/export.py:76-91 | flatten_nav, loop for loop: the result equals the specification RefItems |
| Referenced.ReferencedExactlyLeaves | sandbox/app/export.py:76-91 | a path is referenced exactly when it is the folders of some leaf's ancestors followed by the leaf's file, joined with "/"; exclusions play no part |
| Toc.ExtractToc | sandbox/app/export.py:120-127 | the scan loop returns the specification TableOfContents, and every entry has level 1 or 2 and the anchor of its text |
| Toc.ScanWellFormed | sandbox/app/export.py:120-127 | every entry the scan finds from any position has level 1 or 2 and carries the anchor of its own text |
| Toc.MatchAt | sandbox/app/export.py:122 | a match of the heading pattern starts at a line start, with one or two hashes, and its text lies after them |
| Toc.Anchor | sandbox/app/export.py:125 | an anchor holds only lower-case letters, digits and hyphens, and neither starts nor ends with a hyphen |
| Toc.AnchorIdempotent | sandbox/app/export.py:125 | anchoring an anchor gives it back |
| Toc.TableOfContentsByLines | sandbox/app/export.py:120-127 | on a page with no blank heading line, the table of contents is the concatenation, in line order, of each line's own entry |
| Toc.HeadingShape | sandbox/app/export.py:122-123 | a line is a heading exactly when it starts with one or two hashes, then whitespace, then some non-space text; its level is the number of hashes |
| Toc.NotHeadings | sandbox/app/export.py:122 | a line starting with three hashes, or with no hash, contributes nothing |
| Toc.HeadingTextShape | sandbox/app/export.py:124 | a heading's text is non-empty and has no surrounding whitespace |
| Toc.DuplicatesKept | sandbox/app/export.py:120-127 | a heading repeated on two lines gives two identical entries: anchors are not de-duplicated |
| Toc.BareHashQuirk | sandbox/app/export.py:122 | a line holding only "#" followed by a line "foo" yields the level-1 entry "foo", since the whitespace run crosses the line break |
| Pages.RawRoute | sandbox/app/export.py:239-246 | every route starts with "/" before separators and underscores are rewritten, and an index.md page's route ends with "/" |
| Pages.RouteTrailingSlash | sandbox/app/export.py:239-248 | for path parts that are non-empty and hold no separator, the final route ends with "/" exactly when the page is an index.md |
| Pages.RouteCollision | sandbox/app/export.py:248 | routes are not unique: a page whose name holds an underscore and the page with hyphens in its place (`a_b.md`, `a-b.md`) are distinct files served at the same route |
| Pages.RouteShape | sandbox/app/export.py:239-248 | the final route starts with "/" and holds neither an underscore nor a backslash |
| Pages.HomeRoute | sandbox/app/export.py:240-242 | the top-level index.md is served at "/", where the menu's home link points |
| Pages.BranchLinkMatchesRoute | sandbox/app/export.py:239-248 | the menu link of a top-level branch with a plain title is the route of the index.md in that branch's folder |
| Pages.SidebarItems | sandbox/app/export.py:217-223 | a page shows the map's value under its first path part (underscores as hyphens) when that key is present and truthy, and an empty map otherwise |
| Pages.SidebarFromNav | sandbox/app/export.py:217-223 | the sidebar of a page, read against the nav: the last top-level entry assigning the page's key decides it |
| Pages.SidebarOfBranch | sandbox/app/export.py:217-223 | a page in the folder of a top-level branch with a plain title shows that branch's cleaned map |
| Pages.AuditOrphans | sandbox/app/export.py:182-198 | the filter loop returns the pages on disk that are not referenced, less each index.md whose parent folder name (underscores as hyphens, lower-cased) is a top-level key; the result is a subset of disk minus referenced |
| Pages.OrphansOfNav | sandbox/app/export.py:182-198 | a page is reported exactly when it is on disk, is the joined path of no leaf, and is not exempt |
| Pages.TopBranchIndexNotOrphan | sandbox/app/export.py:188-195 | the index.md of a top-level branch with a plain title that keeps something in the map is never reported |
| Pages.NestedIndexReported | sandbox/app/export.py:188-195 | as written, for any two distinct non-empty lower-case folder names, the index.md of a branch nested in a top-level branch is reported as an orphan |
| Pages.BranchIndexed | sandbox/app/export.py:188-195 | every branch at any depth has its index path among the branch indexes |
| Pages.BranchIndexNeverOrphan | sandbox/app/export.py:188-195 | with every branch's index exempt, no branch's index.md is reported, and nothing is reported that the original audit would not report |
| Scaffold.MainAppFolderNamed | src/cli.py:33-35 | with a non-empty relative app name and a non-empty target that does not end in "/", the main folder is the name directly under the target |
| Scaffold.MainAppFolderDefault | src/cli.py:33-37 | without a name (or with an empty one), a relative target of plain components gets a folder named after its last component inside it |
| Scaffold.MainAppFolderDot | src/cli.py:36-37 | the default target "." with no name gives "./.", the target itself |
| Scaffold.Workspace.CreatePagesFolderWithIndex | src/cli.py:88-99 | pages/index.md gets "# Index" and is logged only when it is absent; otherwise nothing changes |
| Scaffold.Workspace.TraverseNav | src/cli.py:135-158 | traverse_nav, loop for loop and recursion for recursion: the new state equals the specification SynthItems |
| Scaffold.Workspace.CreateMissingIndexes | src/cli.py:121-160 | a missing config changes nothing; otherwise the walk of the config's nav (empty when absent) from the pages folder |
| Scaffold.SynthItemsSpec | src/cli.py:135-158 | no existing file is lost or rewritten, each created file is logged once, and the created files are exactly the index paths of the branches below the base, at every depth, leaves creating none |
| Scaffold.NewFilesArePlaceholders | src/cli.py:141-152 | every created file is the index of a branch, at the path of its ancestors' folders and its own, holding "# {title} Index\n" |
| Scaffold.BranchHasIndex | src/cli.py:141-152 | after the walk, every branch at any depth has an index.md in its folder |
| Scaffold.SynthItemsNoop | src/cli.py:146 | when every branch already has its index the walk changes nothing |
| Scaffold.SecondWalkWritesNothing | src/cli.py:121-160 | a second walk of the same nav writes nothing |
| Scaffold.CreatedIndexNotOrphan | src/cli.py:141-152 | every index the walk creates is a branch index, and so is exempt from the audit once every branch's index is exempt |
| SidebarLinks.UrlPathRooted | src/core/sidebar.py:8-17 | every link starts with "/" |
| SidebarLinks.UrlPathIgnoresFolders | src/core/sidebar.py:10 | only the file's name counts: folders in front of it change nothing |
| SidebarLinks.UrlPathPlain | src/core/sidebar.py:8-17 | under a non-empty parent without separators the link is "/" + parent + "/" + stem, and an index file links to "/" |
| SidebarLinks.UrlPathEmptyParent | src/core/sidebar.py:16-17 | with an empty parent the doubled separator folds away and the link is "/" + stem |
| SidebarLinks.UrlPathMatchesRoute | src/core/sidebar.py:8-17 | for page names without underscores, a sidebar link to a page in a top-level folder, with the sidebar's key as parent, is the route that page is served at |
| SidebarLinks.UrlPathMissesRoute | src/core/sidebar.py:8-17 | as written, a page whose name holds an underscore is linked at a path that is not its route: the link keeps the underscore, the route reads it as a hyphen |
| SidebarLinks.CreateUrlPathHyphenated | src/core/sidebar.py:8-17 | the link with the route's underscore rewrite applied: rooted, with no underscore |
| SidebarLinks.HyphenatedUrlPathMatchesRoute | src/core/sidebar.py:8-17 | with that rewrite, every page of a top-level folder other than its index is linked at exactly the route it is served at, underscores or not |
| SidebarLinks.IndexLinksToRoot | src/core/sidebar.py:12-14 | an index file links to the site root, which differs from its folder's route |

## Left out

- Reading `config.yml`, the YAML parser, `rglob`, file reads and writes, `mkdir` and logging are left out. The config is a `SiteConfig` value (or `None` when the file is missing), and the list of pages on disk is a set parameter. The written files are the `Workspace`'s map, with a write log that stands in for the printed reports.
- `process_nav`/`create_page` (sandbox/app/export.py:151-176) are not modelled. They create a stub for each nav leaf before the audit, so in a run the referenced files exist on disk; the audit model takes the files on disk as a parameter instead.
- The Markdown block parser (`DelimiterParser`), `load_components_from_blocks`, `ensure_blocks_folder_for_page`, the page template and all Reflex UI are not part of this model. That includes the `sidebar` component of src/core/sidebar.py:20-66 and the rendering, `add_page` and `site_name`.
- The CLI's `reflex init` subprocess, file and folder copying, `argparse` and the check for an installed `reflex` are left out.
- Characters are classified as ASCII only: Unicode whitespace, word characters and case mappings are not modelled.
- A nav list item that is neither a string nor a mapping is the inert `Unknown` item, which every walk skips. A pair's value that is neither a string nor a list (a mapping, a number, null) is `Other`: the top menu still links it at `/slug/`, as the source does, and every other walk skips it. Mapping keys are always strings.
- A `Mapping` stands for a loaded YAML dict, so its titles are taken to be distinct. A `Mapping` with a repeated title is not a dict the loader can return, and for it the walks would meet both pairs where Python keeps one.
- Nav.NavOf: a `nav:` or `exclude_from_nav:` key that is present but null makes `config.get` return `None`, and the source then raises `TypeError` (in `process_nav`, in `traverse_nav` and in `set(None)`). The model cannot tell a null key from an absent one and reads both as empty; the same holds for `Nav.ExcludeOf`.
- Pages.Route: distinct pages are not promised distinct routes. The underscore rewrite merges names that differ only in `_` versus `-`, which `Pages.RouteCollision` proves; which page the app then serves there is not modelled.
- Scaffold.Workspace.TraverseNav: paths are joined as strings. The model does not capture any `pathlib` normalisation of a folder name: an empty, `.` or absolute name, or a title whose folder name holds doubled or trailing separators, is joined as it stands. An existing directory, rather than a file, named `index.md` is not modelled either.
- Scaffold.MainAppFolderDefault: stated only for relative targets of plain components. For other targets the model follows `normpath` but proves nothing about them.
- Paths are POSIX: Windows separators are only modelled where the route rewrites backslashes.

## Findings

| source | as written | input that shows it | evidently intended | confidence | as-written member | corrected member |
|---|---|---|---|---|---|---|
| sandbox/app/export.py:188-195 | an index.md is exempt from the orphan report only if its immediate parent folder, read as a slug, is a top-level key of the sidebar map | nav `[{guide: [{advanced: [setup.md]}]}]` with `guide/advanced/index.md` on disk; the command-line tool writes exactly this file | no branch's index.md, at any depth, is reported as an orphan ("index.md files inside nav folders") | not executed; the loop's comment and the tool that writes these files both point this way | Pages.NestedIndexReported | Pages.BranchIndexNeverOrphan |
| src/core/sidebar.py:10-17 | the link's slug is the file's stem as it stands, while the page's route (sandbox/app/export.py:248) reads every underscore as a hyphen | nav `[{guide: [getting_started.md]}]`: the sidebar links `/guide/getting_started`, the page is served at `/guide/getting-started` | a sidebar link reaches the page it names | not executed; the route rewrite and the link are built from the same file and are evidently meant to meet | SidebarLinks.UrlPathMissesRoute | SidebarLinks.HyphenatedUrlPathMatchesRoute |
