/** `extract_toc`: the level-1 and level-2 headings of a Markdown page, found
    with the multiline pattern `^(#{1,2})\s+(.+)`, each with an anchor. The
    pattern is modelled as Python's `re` runs it, not as Markdown defines
    headings. */
module Toc {
  import opened Wrappers
  import opened Text

  datatype TocEntry = TocEntry(level: nat, text: string, anchor: string)

  /** Where one match of the pattern lies: the `#` count, and the bounds of
      the second group. */
  datatype TocMatch = TocMatch(level: nat, start: nat, end: nat)

  // ---- the pattern, piece by piece ----

  /** `^` under MULTILINE: the start of the text or just after a newline. */
  predicate LineStart(s: string, p: nat)
    requires p <= |s|
  {
    p == 0 || s[p - 1] == '\n'
  }

  /** `#{1,2}` at `p`: greedy, and a retry with one `#` after two cannot
      succeed, because `\s` never matches `#`. */
  function Hashes(s: string, p: nat): (h: nat)
    requires p <= |s|
    ensures h <= 2 && p + h <= |s|
    ensures forall i :: p <= i < p + h ==> s[i] == '#'
  {
    if p + 1 < |s| && s[p] == '#' && s[p + 1] == '#' then 2
    else if p < |s| && s[p] == '#' then 1
    else 0
  }

  /** The length of the greedy `\s+` run at `q` (newlines included). */
  function SpaceRun(s: string, q: nat): (w: nat)
    requires q <= |s|
    ensures q + w <= |s|
    ensures forall i :: q <= i < q + w ==> IsSpace(s[i])
    ensures q + w == |s| || !IsSpace(s[q + w])
    decreases |s| - q
  {
    if q < |s| && IsSpace(s[q]) then 1 + SpaceRun(s, q + 1) else 0
  }

  /** Backtracking `\s+` into `.+`: the longest whitespace prefix of length
      1..k after which a character other than a newline follows; the body
      starts there. */
  function BodyStart(s: string, q: nat, k: nat): (r: Option<nat>)
    requires q + k <= |s|
    ensures r.Some? ==> q < r.value < |s| && r.value <= q + k && s[r.value] != '\n'
    ensures r.Some? ==> forall i :: r.value < i <= q + k && i < |s| ==> s[i] == '\n'
    ensures r.None? ==> forall i :: q < i <= q + k && i < |s| ==> s[i] == '\n'
    decreases k
  {
    if k == 0 then None
    else if q + k < |s| && s[q + k] != '\n' then Some(q + k)
    else BodyStart(s, q, k - 1)
  }

  /** Where the greedy `.+` stops: the next newline, or the end. */
  function LineEnd(s: string, b: nat): (e: nat)
    requires b <= |s|
    ensures b <= e <= |s|
    ensures forall i :: b <= i < e ==> s[i] != '\n'
    ensures e == |s| || s[e] == '\n'
    decreases |s| - b
  {
    if b < |s| && s[b] != '\n' then LineEnd(s, b + 1) else b
  }

  /** The match of the pattern that starts at `p`, if any. */
  function MatchAt(s: string, p: nat): (r: Option<TocMatch>)
    requires p <= |s|
    ensures r.Some? ==> LineStart(s, p) && 1 <= r.value.level <= 2
    ensures r.Some? ==> p + r.value.level < r.value.start < r.value.end <= |s|
  {
    if !LineStart(s, p) then None
    else
      var h := Hashes(s, p);
      if h == 0 then None
      else
        var w := SpaceRun(s, p + h);
        if w == 0 then None
        else
          match BodyStart(s, p + h, w)
          case None => None
          case Some(b) => Some(TocMatch(h, b, LineEnd(s, b)))
  }

  // ---- one entry per match ----

  /** `re.sub(r'[^a-z0-9]+', '-', text.lower()).strip('-')` */
  function Anchor(text: string): (r: string)
    ensures forall i :: 0 <= i < |r| ==> IsLowerAlnum(r[i]) || r[i] == '-'
    ensures r != [] ==> r[0] != '-' && r[|r| - 1] != '-'
  {
    var runs := ReplaceRuns(Lower(text), NotLowerAlnum, '-');
    StripPreserves(runs, IsHyphen, AnchorChar);
    Strip(runs, IsHyphen)
  }

  predicate NotLowerAlnum(c: char) { !IsLowerAlnum(c) }

  predicate AnchorChar(c: char) { IsLowerAlnum(c) || c == '-' }

  predicate IsHyphen(c: char) { c == '-' }

  function EntryOf(s: string, m: TocMatch): TocEntry
    requires m.start <= m.end <= |s|
  {
    var text := Strip(s[m.start..m.end], IsSpace);
    TocEntry(m.level, text, Anchor(text))
  }

  /** The entries `finditer` yields from position `pos` on: after a match it
      resumes at the match's end, otherwise one character further. */
  function ScanFrom(s: string, pos: nat): seq<TocEntry>
    requires pos <= |s|
    decreases |s| - pos, 1
  {
    if pos == |s| then [] else ScanAt(s, pos)
  }

  /** One step of the scan at a position inside the text. */
  function ScanAt(s: string, pos: nat): seq<TocEntry>
    requires pos < |s|
    decreases |s| - pos, 0
  {
    match MatchAt(s, pos)
    case Some(m) => [EntryOf(s, m)] + ScanFrom(s, m.end)
    case None => ScanFrom(s, pos + 1)
  }

  /** The table of contents of a page. */
  function TableOfContents(content: string): seq<TocEntry> {
    ScanFrom(content, 0)
  }

  /** A heading of level one or two, carrying the anchor of its text. */
  predicate WellFormed(e: TocEntry) {
    1 <= e.level <= 2 && e.anchor == Anchor(e.text)
  }

  /** `extract_toc` */
  method ExtractToc(content: string) returns (toc: seq<TocEntry>)
    ensures toc == TableOfContents(content)
    ensures forall i :: 0 <= i < |toc| ==> WellFormed(toc[i])
  {
    toc := [];
    var pos := 0;
    while pos < |content|
      invariant pos <= |content|
      invariant toc + ScanFrom(content, pos) == TableOfContents(content)
      decreases |content| - pos
    {
      match MatchAt(content, pos) {
        case Some(m) =>
          var text := Strip(content[m.start..m.end], IsSpace);
          var entry := TocEntry(m.level, text, Anchor(text));
          ScanMatchedAfter(content, pos, m, entry, toc);
          toc := toc + [entry];
          pos := m.end;
        case None =>
          ScanUnmatchedAfter(content, pos, toc);
          pos := pos + 1;
      }
    }
    assert toc == TableOfContents(content);
    ScanWellFormed(content, 0);
  }

  /** Every entry the scan yields is a heading of level one or two carrying
      the anchor of its text. */
  lemma {:induction false} ScanWellFormed(s: string, pos: nat)
    requires pos <= |s|
    ensures forall i :: 0 <= i < |ScanFrom(s, pos)| ==> WellFormed(ScanFrom(s, pos)[i])
    decreases |s| - pos
  {
    if pos < |s| {
      match MatchAt(s, pos) {
        case Some(m) =>
          ScanMatched(s, pos, m, EntryOf(s, m));
          ScanWellFormed(s, m.end);
        case None =>
          ScanUnmatched(s, pos);
          ScanWellFormed(s, pos + 1);
      }
    }
  }

  /** A match at `pos` moves its entry from the rest of the scan to the
      entries found so far. */
  lemma ScanMatchedAfter(s: string, pos: nat, m: TocMatch, e: TocEntry, found: seq<TocEntry>)
    requires pos < |s| && MatchAt(s, pos) == Some(m) && EntryOf(s, m) == e
    ensures m.end <= |s| && (found + [e]) + ScanFrom(s, m.end) == found + ScanFrom(s, pos)
  {
    ScanMatched(s, pos, m, e);
    assert (found + [e]) + ScanFrom(s, m.end) == found + ([e] + ScanFrom(s, m.end));
  }

  /** Without a match at `pos` the scan goes on at the next position. */
  lemma ScanUnmatchedAfter(s: string, pos: nat, found: seq<TocEntry>)
    requires pos < |s| && MatchAt(s, pos).None?
    ensures found + ScanFrom(s, pos + 1) == found + ScanFrom(s, pos)
  {
    ScanUnmatched(s, pos);
  }

  lemma ScanStep(s: string, pos: nat)
    requires pos < |s|
    ensures MatchAt(s, pos).Some? ==>
      ScanFrom(s, pos) == [EntryOf(s, MatchAt(s, pos).value)] + ScanFrom(s, MatchAt(s, pos).value.end)
    ensures MatchAt(s, pos).None? ==> ScanFrom(s, pos) == ScanFrom(s, pos + 1)
  {
    assert ScanFrom(s, pos) == ScanAt(s, pos);
  }

  // ---- properties of anchors ----

  /** An anchor has no two hyphens in a row. */
  lemma AnchorSeparated(text: string)
    ensures Separated(Anchor(text), IsHyphen)
  {
    var runs := ReplaceRuns(Lower(text), NotLowerAlnum, '-');
    ReplaceRunsSeparated(Lower(text), NotLowerAlnum, '-');
    var r := Anchor(text);
    assert r == Strip(runs, IsHyphen);
    var off := StripIsSlice(runs, IsHyphen);
    forall i, j | 0 <= i < |r| && 0 <= j < |r| && j == i + 1
      ensures !(IsHyphen(r[i]) && IsHyphen(r[j]))
    {
      assert r[i] == runs[off + i] && r[j] == runs[off + j];
      assert !(NotLowerAlnum(runs[off + i]) && NotLowerAlnum(runs[off + j]));
    }
  }

  /** A string already in anchor form is its own anchor. */
  lemma AnchorFixed(a: string)
    requires forall i :: 0 <= i < |a| ==> IsLowerAlnum(a[i]) || a[i] == '-'
    requires Separated(a, IsHyphen)
    requires a != [] ==> a[0] != '-' && a[|a| - 1] != '-'
    ensures Anchor(a) == a
  {
    LowerNoop(a);
    assert Separated(a, NotLowerAlnum) by {
      forall i, j | 0 <= i < |a| && 0 <= j < |a| && j == i + 1
        ensures !(NotLowerAlnum(a[i]) && NotLowerAlnum(a[j]))
      {
        assert !(IsHyphen(a[i]) && IsHyphen(a[j]));
      }
    }
    ReplaceRunsSingles(a, NotLowerAlnum, '-');
    assert ReplaceRuns(a, NotLowerAlnum, '-') == a;
    StripEndsKept(a, IsHyphen);
  }

  /** An anchor is its own anchor, so anchors are stable names. */
  lemma {:induction false} AnchorIdempotent(text: string)
    ensures Anchor(Anchor(text)) == Anchor(text)
  {
    AnchorSeparated(text);
    AnchorFixed(Anchor(text));
  }

  // ---- line by line ----

  /** Where a line's text begins: after its `#`s and the whitespace run. */
  function BodyOffset(line: string): (k: nat)
    ensures k <= |line|
  {
    Hashes(line, 0) + SpaceRun(line, Hashes(line, 0))
  }

  /** A line (no newline in it) that the pattern reads as a heading: one or
      two `#`, at least one whitespace character, then something else. */
  predicate IsHeading(line: string) {
    Hashes(line, 0) >= 1 && Hashes(line, 0) < BodyOffset(line) < |line|
  }

  /** `#` or `##` followed by nothing but whitespace: the one kind of line
      where `\s+` runs on past the newline into the next line. */
  predicate IsBlankHeading(line: string) {
    Hashes(line, 0) >= 1 && BodyOffset(line) == |line|
  }

  /** The text of a heading line: the rest of the line, stripped. */
  function HeadingText(line: string): string {
    Strip(line[BodyOffset(line)..], IsSpace)
  }

  /** The entry a heading line yields. */
  function LineEntry(line: string): TocEntry {
    TocEntry(Hashes(line, 0), HeadingText(line), Anchor(HeadingText(line)))
  }

  function LineToc(line: string): seq<TocEntry> {
    if IsHeading(line) then [LineEntry(line)] else []
  }

  predicate NoNewline(line: string) {
    forall i :: 0 <= i < |line| ==> line[i] != '\n'
  }

  /** The page whose lines are `lines`, joined by newlines. */
  function Page(lines: seq<string>): string
    decreases |lines|
  {
    if lines == [] then ""
    else if |lines| == 1 then lines[0]
    else lines[0] + "\n" + Page(lines[1..])
  }

  /** The entries of the lines, in order. */
  function LinesToc(lines: seq<string>): seq<TocEntry>
    decreases |lines|
  {
    if lines == [] then [] else LineToc(lines[0]) + LinesToc(lines[1..])
  }

  /** `line` sits at `a` in `s` as a whole line. */
  predicate LineAt(s: string, a: nat, line: string) {
    && a + |line| <= |s|
    && (forall i :: 0 <= i < |line| ==> s[a + i] == line[i])
    && LineStart(s, a)
    && NoNewline(line)
    && (a + |line| == |s| || s[a + |line|] == '\n')
  }

  /** Positions that are not line starts yield nothing. */
  lemma {:induction false} Skip(s: string, p: nat, e: nat)
    requires 0 < p <= e <= |s|
    requires forall i :: p - 1 <= i < e - 1 ==> s[i] != '\n'
    ensures ScanFrom(s, p) == ScanFrom(s, e)
    decreases e - p
  {
    if p < e {
      assert !LineStart(s, p);
      Skip(s, p + 1, e);
    }
  }

  lemma HashesLocal(s: string, a: nat, line: string)
    requires LineAt(s, a, line)
    ensures Hashes(s, a) == Hashes(line, 0)
  {
    if |line| >= 1 { assert s[a] == line[0]; }
    if |line| >= 2 { assert s[a + 1] == line[1]; }
  }

  lemma {:induction false} SpaceRunLocal(s: string, a: nat, line: string, q: nat)
    requires LineAt(s, a, line)
    requires q <= |line| && q + SpaceRun(line, q) < |line|
    ensures SpaceRun(s, a + q) == SpaceRun(line, q)
    decreases |line| - q
  {
    assert s[a + q] == line[q];
    if IsSpace(line[q]) {
      SpaceRunLocal(s, a, line, q + 1);
    }
  }

  lemma {:induction false} LineEndLocal(s: string, a: nat, line: string, b: nat)
    requires LineAt(s, a, line)
    requires a <= b <= a + |line|
    ensures LineEnd(s, b) == a + |line|
    decreases a + |line| - b
  {
    if b < a + |line| {
      assert s[b] == line[b - a];
      LineEndLocal(s, a, line, b + 1);
    }
  }

  /** The pattern matches at the start of a whole line exactly when the line
      is a heading, and the match covers the rest of that line. */
  lemma MatchAtLine(s: string, a: nat, line: string)
    requires LineAt(s, a, line) && !IsBlankHeading(line)
    ensures IsHeading(line) ==>
      MatchAt(s, a) == Some(TocMatch(Hashes(line, 0), a + BodyOffset(line), a + |line|))
    ensures !IsHeading(line) ==> MatchAt(s, a).None?
  {
    HashesLocal(s, a, line);
    var h := Hashes(line, 0);
    if h >= 1 {
      var w := SpaceRun(line, h);
      assert h + w == BodyOffset(line) < |line|;
      SpaceRunLocal(s, a, line, h);
      assert s[a + (h + w)] == line[h + w];
      if w >= 1 {
        LineEndLocal(s, a, line, a + h + w);
      }
      MatchAtParts(s, a, h, w);
    }
  }

  /** The match at a line start, from its parts. */
  lemma MatchAtParts(s: string, a: nat, h: nat, w: nat)
    requires a + h + w < |s| && LineStart(s, a)
    requires Hashes(s, a) == h >= 1 && SpaceRun(s, a + h) == w
    ensures w == 0 ==> MatchAt(s, a).None?
    ensures w >= 1 && s[a + h + w] != '\n' ==>
      MatchAt(s, a) == Some(TocMatch(h, a + h + w, LineEnd(s, a + h + w)))
  {
  }

  /** Characters and tails of a whole line read the same in the page. */
  lemma InLine(s: string, a: nat, line: string, x: nat)
    requires LineAt(s, a, line) && a <= x <= a + |line|
    ensures s[x..a + |line|] == line[x - a..]
    ensures x < a + |line| ==> s[x] == line[x - a]
  {
    if x < a + |line| {
      assert s[x] == line[x - a];
    }
    var u, v := s[x..a + |line|], line[x - a..];
    forall i | 0 <= i < |u| ensures u[i] == v[i] {
      assert s[x + i] == line[x - a + i];
    }
  }

  lemma EntryOfLine(s: string, m: TocMatch, line: string)
    requires m.level == Hashes(line, 0)
    requires m.start <= m.end <= |s| && s[m.start..m.end] == line[BodyOffset(line)..]
    ensures EntryOf(s, m) == LineEntry(line)
  {
  }

  /** At the start of a heading line the pattern matches the whole line
      and yields the line's entry. */
  lemma HeadingMatch(s: string, a: nat, line: string)
    requires LineAt(s, a, line) && IsHeading(line)
    ensures var m := TocMatch(Hashes(line, 0), a + BodyOffset(line), a + |line|);
      m.start <= m.end <= |s| && MatchAt(s, a) == Some(m) && EntryOf(s, m) == LineEntry(line)
    ensures a + |line| < |s| ==> s[a + |line| - 1] != '\n'
  {
    MatchAtLine(s, a, line);
    var m := MatchAt(s, a).value;
    InLine(s, a, line, m.start);
    EntryOfLine(s, m, line);
    InLine(s, a, line, a + |line| - 1);
  }

  lemma ScanUnmatched(s: string, a: nat)
    requires a < |s| && MatchAt(s, a).None?
    ensures ScanFrom(s, a) == ScanFrom(s, a + 1)
  {
    assert ScanFrom(s, a) == ScanAt(s, a);
  }

  lemma ScanMatched(s: string, a: nat, m: TocMatch, e: TocEntry)
    requires a < |s| && MatchAt(s, a) == Some(m) && EntryOf(s, m) == e
    ensures m.end <= |s| && ScanFrom(s, a) == [e] + ScanFrom(s, m.end)
  {
    assert ScanFrom(s, a) == ScanAt(s, a);
  }

  lemma HeadingScanFrom(s: string, a: nat, line: string, m: TocMatch)
    requires IsHeading(line) && a < |s| && MatchAt(s, a) == Some(m) && EntryOf(s, m) == LineEntry(line)
    requires m.end == a + |line|
    requires a + |line| < |s| ==> 0 < a + |line| && s[a + |line| - 1] != '\n'
    ensures a + |line| == |s| ==> ScanFrom(s, a) == LineToc(line)
    ensures a + |line| < |s| ==> ScanFrom(s, a) == LineToc(line) + ScanFrom(s, a + |line| + 1)
  {
    var e := a + |line|;
    ScanMatched(s, a, m, LineEntry(line));
    if e < |s| {
      Skip(s, e, e + 1);
    }
  }

  lemma HeadingScan(s: string, a: nat, line: string)
    requires LineAt(s, a, line) && IsHeading(line)
    ensures a + |line| == |s| ==> ScanFrom(s, a) == LineToc(line)
    ensures a + |line| < |s| ==> ScanFrom(s, a) == LineToc(line) + ScanFrom(s, a + |line| + 1)
  {
    HeadingMatch(s, a, line);
    HeadingScanFrom(s, a, line, TocMatch(Hashes(line, 0), a + BodyOffset(line), a + |line|));
  }

  lemma PlainScan(s: string, a: nat, line: string)
    requires LineAt(s, a, line) && !IsBlankHeading(line) && !IsHeading(line)
    ensures a + |line| == |s| ==> ScanFrom(s, a) == []
    ensures a + |line| < |s| ==> ScanFrom(s, a) == ScanFrom(s, a + |line| + 1)
  {
    MatchAtLine(s, a, line);
    NoNewlineInLine(s, a, line);
    PlainScanFrom(s, a, a + |line|);
  }

  lemma NoNewlineInLine(s: string, a: nat, line: string)
    requires LineAt(s, a, line)
    ensures forall i :: a <= i < a + |line| ==> s[i] != '\n'
  {
    forall i | a <= i < a + |line| ensures s[i] != '\n' {
      assert s[a + (i - a)] == line[i - a];
    }
  }

  lemma PlainScanFrom(s: string, a: nat, e: nat)
    requires a <= e <= |s| && (a < |s| ==> MatchAt(s, a).None?)
    requires forall i :: a <= i < e ==> s[i] != '\n'
    ensures e == |s| ==> ScanFrom(s, a) == []
    ensures e < |s| ==> ScanFrom(s, a) == ScanFrom(s, e + 1)
  {
    if a < |s| {
      ScanUnmatched(s, a);
      if e < |s| {
        Skip(s, a + 1, e + 1);
      } else {
        Skip(s, a + 1, e);
      }
    }
  }

  /** A whole line contributes its own entries and hands over to the next
      line. */
  lemma LineScan(s: string, a: nat, line: string)
    requires LineAt(s, a, line) && !IsBlankHeading(line)
    ensures a + |line| == |s| ==> ScanFrom(s, a) == LineToc(line)
    ensures a + |line| < |s| ==> ScanFrom(s, a) == LineToc(line) + ScanFrom(s, a + |line| + 1)
  {
    if IsHeading(line) {
      HeadingScan(s, a, line);
    } else {
      PlainScan(s, a, line);
    }
  }

  lemma PageTail(s: string, a: nat, lines: seq<string>)
    requires a <= |s| && s[a..] == Page(lines) && |lines| > 1
    ensures a + |lines[0]| < |s| && s[a + |lines[0]|] == '\n'
    ensures s[a + |lines[0]| + 1..] == Page(lines[1..])
    ensures forall i :: 0 <= i < |lines[0]| ==> s[a + i] == lines[0][i]
  {
    var n := |lines[0]|;
    var t := s[a..];
    assert t == lines[0] + "\n" + Page(lines[1..]);
    assert t[n] == '\n';
    assert s[a + n + 1..] == t[n + 1..];
    forall i | 0 <= i < n ensures s[a + i] == lines[0][i] {
      assert s[a + i] == t[i];
    }
  }

  /** The last line of a page. */
  lemma LastLineScan(s: string, a: nat, line: string)
    requires a <= |s| && s[a..] == line && LineStart(s, a)
    requires NoNewline(line) && !IsBlankHeading(line)
    ensures ScanFrom(s, a) == LinesToc([line])
  {
    forall i | 0 <= i < |line| ensures s[a + i] == line[i] {
      assert s[a + i] == s[a..][i];
    }
    assert LineAt(s, a, line);
    LineScan(s, a, line);
    assert LinesToc([line]) == LineToc(line) + LinesToc([]);
  }

  /** The first of several lines hands over to the page of the rest. */
  lemma FirstLineScan(s: string, a: nat, lines: seq<string>) returns (b: nat)
    requires a <= |s| && s[a..] == Page(lines) && LineStart(s, a) && |lines| > 1
    requires NoNewline(lines[0]) && !IsBlankHeading(lines[0])
    ensures b == a + |lines[0]| + 1 <= |s| && s[b..] == Page(lines[1..]) && LineStart(s, b)
    ensures ScanFrom(s, a) == LineToc(lines[0]) + ScanFrom(s, b)
  {
    PageTail(s, a, lines);
    assert LineAt(s, a, lines[0]);
    LineScan(s, a, lines[0]);
    b := a + |lines[0]| + 1;
  }

  lemma {:induction false} PageScan(s: string, a: nat, lines: seq<string>)
    requires a <= |s| && s[a..] == Page(lines) && LineStart(s, a)
    requires forall i :: 0 <= i < |lines| ==> NoNewline(lines[i]) && !IsBlankHeading(lines[i])
    ensures ScanFrom(s, a) == LinesToc(lines)
    decreases |lines|
  {
    if |lines| == 1 {
      LastLineScan(s, a, lines[0]);
    } else if |lines| > 1 {
      var b := FirstLineScan(s, a, lines);
      PageScan(s, b, lines[1..]);
    }
  }

  /** On a page without blank `#`/`##` lines, the table of contents has one
      entry per heading line, in page order: deeper headings and other lines
      yield nothing, and repeated headings are all kept. */
  lemma TableOfContentsByLines(lines: seq<string>)
    requires forall i :: 0 <= i < |lines| ==> NoNewline(lines[i]) && !IsBlankHeading(lines[i])
    ensures TableOfContents(Page(lines)) == LinesToc(lines)
  {
    var s := Page(lines);
    assert s[0..] == s;
    PageScan(s, 0, lines);
  }

  // ---- what a heading line is ----

  /** The number of leading `#` the pattern takes: two when the line opens
      with `##`, otherwise one. */
  function Level(line: string): nat {
    if |line| > 1 && line[1] == '#' then 2 else 1
  }

  /** A line is a heading exactly when it opens with `#`, one or two `#` are
      followed by whitespace, and something other than whitespace comes
      after. A line opening with `###` is never one. */
  lemma HeadingShape(line: string)
    ensures IsHeading(line) <==>
      && line != [] && line[0] == '#'
      && Level(line) < |line| && IsSpace(line[Level(line)])
      && exists i :: Level(line) < i < |line| && !IsSpace(line[i])
    ensures IsHeading(line) ==> LineEntry(line).level == Level(line)
  {
    if line != [] && line[0] == '#' && Level(line) < |line| && IsSpace(line[Level(line)]) {
      var h := Level(line);
      assert Hashes(line, 0) == h;
      if exists i :: h < i < |line| && !IsSpace(line[i]) {
        var i :| h < i < |line| && !IsSpace(line[i]);
        assert h + SpaceRun(line, h) <= i;
      }
      if IsHeading(line) {
        assert !IsSpace(line[BodyOffset(line)]);
      }
    }
  }

  /** Lines opening with `###` or not opening with `#` yield nothing. */
  lemma NotHeadings(line: string)
    ensures |line| >= 3 && line[..3] == "###" ==> LineToc(line) == []
    ensures (line == [] || line[0] != '#') ==> LineToc(line) == []
  {
    if |line| >= 3 && line[..3] == "###" {
      assert line[2] == '#';
      assert Hashes(line, 0) == 2;
      assert SpaceRun(line, 2) == 0;
    }
  }

  /** The text of a heading is never empty and has no surrounding
      whitespace. */
  lemma HeadingTextShape(line: string)
    requires IsHeading(line)
    ensures HeadingText(line) != []
    ensures !IsSpace(HeadingText(line)[0]) && !IsSpace(HeadingText(line)[|HeadingText(line)| - 1])
  {
    var k := BodyOffset(line);
    assert !IsSpace(line[k]);
    assert line[k] in line[k..];
    StripKeeps(line[k..], IsSpace, line[k]);
  }

  /** A heading repeated on two lines is listed twice. */
  lemma DuplicatesKept(line: string)
    requires NoNewline(line) && IsHeading(line)
    ensures TableOfContents(line + "\n" + line) == [LineEntry(line), LineEntry(line)]
  {
    var lines := [line, line];
    assert lines[1..] == [line];
    assert Page(lines) == line + "\n" + line;
    assert !IsBlankHeading(line);
    TableOfContentsByLines(lines);
    var one := LineToc(line);
    assert one == [LineEntry(line)];
    assert LinesToc([line]) == one by {
      assert LinesToc([line]) == one + LinesToc([]);
      assert one + [] == one;
    }
    assert LinesToc(lines) == one + one;
  }

  /** Because `\s` also matches a newline, a bare `#` line takes the next
      line as its heading text. */
  lemma BareHashQuirk()
    ensures TableOfContents("#\nfoo") == [TocEntry(1, "foo", "foo")]
  {
    var s := "#\nfoo";
    assert Hashes(s, 0) == 1;
    assert SpaceRun(s, 1) == 1 by {
      assert SpaceRun(s, 2) == 0;
    }
    assert BodyStart(s, 1, 1) == Some(2);
    assert LineEnd(s, 2) == 5 by {
      assert LineEnd(s, 5) == 5;
      assert LineEnd(s, 4) == 5;
      assert LineEnd(s, 3) == 5;
    }
    var m := TocMatch(1, 2, 5);
    assert MatchAt(s, 0) == Some(m);
    assert s[2..5] == "foo";
    StripEndsKept("foo", IsSpace);
    assert Anchor("foo") == "foo" by {
      assert Separated("foo", IsHyphen);
      AnchorFixed("foo");
    }
    ScanStep(s, 0);
    assert ScanFrom(s, 5) == [];
  }
}
