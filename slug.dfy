/** The two title normalisations of the site generator: the kebab slug used
    for sidebar keys, menu links and routes, and the underscored folder name
    used for directories on disk. */
module Slug {
  import opened Text

  /** Characters `kebab_case` keeps: `\w` and the hyphen. */
  predicate IsSlugChar(c: char) { IsWordChar(c) || c == '-' }

  /** `kebab_case`: strip, turn each whitespace run into one hyphen, drop every
      character that is neither a word character nor a hyphen, lower-case. */
  function KebabCase(text: string): (r: string)
    ensures |r| <= |text|
    ensures forall i :: 0 <= i < |r| ==> IsSlugChar(r[i]) && !IsUpper(r[i]) && !IsSpace(r[i])
  {
    Lower(Filter(ReplaceRuns(Strip(text, IsSpace), IsSpace, '-'), IsSlugChar))
  }

  /** A slug is a fixed point of `kebab_case`. */
  lemma {:induction false} KebabCaseIdempotent(text: string)
    ensures KebabCase(KebabCase(text)) == KebabCase(text)
  {
    var r := KebabCase(text);
    StripNoop(r, IsSpace);
    ReplaceRunsNoop(r, IsSpace, '-');
    FilterNoop(r, IsSlugChar);
    LowerNoop(r);
  }

  /** `s.replace("_", "-")` */
  function Hyphenate(s: string): string {
    ReplaceAll(s, "_", "-")
  }

  /** `title.lower().replace(" ", "_")`: the folder that holds a branch's pages. */
  function FolderName(title: string): string {
    ReplaceAll(Lower(title), " ", "_")
  }

  lemma {:induction false} FolderNameAt(title: string)
    ensures |FolderName(title)| == |title|
    ensures forall i :: 0 <= i < |title| ==>
      FolderName(title)[i] == if title[i] == ' ' then '_' else LowerChar(title[i])
  {
    ReplaceCharPointwise(Lower(title), ' ', '_');
  }

  lemma {:induction false} HyphenateAt(s: string)
    ensures |Hyphenate(s)| == |s|
    ensures forall i :: 0 <= i < |s| ==> Hyphenate(s)[i] == if s[i] == '_' then '-' else s[i]
    ensures '_' !in Hyphenate(s)
  {
    ReplaceCharPointwise(s, '_', '-');
  }

  /** A title the two normalisations agree on: ASCII letters, digits and
      hyphens, separated by single interior spaces. */
  predicate PlainTitle(title: string) {
    && (forall i :: 0 <= i < |title| ==>
          'a' <= title[i] <= 'z' || 'A' <= title[i] <= 'Z' || '0' <= title[i] <= '9'
          || title[i] == '-' || title[i] == ' ')
    && (title != [] ==> title[0] != ' ' && title[|title| - 1] != ' ')
    && (forall i, j :: 0 <= i < |title| && 0 <= j < |title| && j == i + 1 ==> !(title[i] == ' ' && title[j] == ' '))
  }

  /** For plain titles the folder name, read back with underscores as hyphens,
      is exactly the kebab slug: the on-disk folder of a branch and its
      sidebar key name the same thing. */
  lemma {:induction false} FolderMatchesSlug(title: string)
    requires PlainTitle(title)
    ensures Hyphenate(FolderName(title)) == KebabCase(title)
  {
    KebabOfPlainTitle(title);
    HyphenatedFolderOfPlainTitle(title);
  }

  lemma {:induction false} HyphenatedFolderOfPlainTitle(title: string)
    requires PlainTitle(title)
    ensures |Hyphenate(FolderName(title))| == |title|
    ensures forall i :: 0 <= i < |title| ==>
      Hyphenate(FolderName(title))[i] == if title[i] == ' ' then '-' else LowerChar(title[i])
  {
    var f := FolderName(title);
    FolderNameAt(title);
    HyphenateAt(f);
    forall i | 0 <= i < |title|
      ensures Hyphenate(f)[i] == if title[i] == ' ' then '-' else LowerChar(title[i])
    {
      assert f[i] == if title[i] == ' ' then '_' else LowerChar(title[i]);
    }
  }

  lemma PlainTitleSpaces(title: string)
    requires PlainTitle(title)
    ensures forall i :: 0 <= i < |title| ==> (IsSpace(title[i]) <==> title[i] == ' ')
    ensures Separated(title, IsSpace)
  {
  }

  lemma {:induction false} KebabOfPlainTitle(title: string)
    requires PlainTitle(title)
    ensures |KebabCase(title)| == |title|
    ensures forall i :: 0 <= i < |title| ==>
      KebabCase(title)[i] == if title[i] == ' ' then '-' else LowerChar(title[i])
  {
    var runs := ReplaceRuns(title, IsSpace, '-');
    assert KebabCase(title) == Lower(runs) by {
      assert Strip(title, IsSpace) == title by {
        assert StripLeft(title, IsSpace) == title;
        assert StripRight(title, IsSpace) == title;
      }
      PlainTitleRuns(title);
    }
    PlainTitleRuns(title);
    forall i | 0 <= i < |title|
      ensures KebabCase(title)[i] == if title[i] == ' ' then '-' else LowerChar(title[i])
    {
      assert KebabCase(title)[i] == LowerChar(runs[i]);
    }
  }

  lemma {:induction false} PlainTitleRuns(title: string)
    requires PlainTitle(title)
    ensures |ReplaceRuns(title, IsSpace, '-')| == |title|
    ensures forall i :: 0 <= i < |title| ==>
      ReplaceRuns(title, IsSpace, '-')[i] == if title[i] == ' ' then '-' else title[i]
    ensures Filter(ReplaceRuns(title, IsSpace, '-'), IsSlugChar) == ReplaceRuns(title, IsSpace, '-')
  {
    var runs := ReplaceRuns(title, IsSpace, '-');
    PlainTitleSpaces(title);
    ReplaceRunsSingles(title, IsSpace, '-');
    forall i | 0 <= i < |title|
      ensures runs[i] == if title[i] == ' ' then '-' else title[i]
    {
      assert IsSpace(title[i]) <==> title[i] == ' ';
    }
    FilterNoop(runs, IsSlugChar);
  }

  /** Outside plain titles they part: a title holding an underscore, or a
      character that is neither a slug character nor whitespace (an
      apostrophe, say), gets a folder whose hyphenated name is not its slug. */
  lemma {:induction false} FolderDivergesFromSlug(title: string, i: nat)
    requires i < |title|
    requires title[i] == '_' || (!IsSlugChar(title[i]) && !IsSpace(title[i]))
    ensures Hyphenate(FolderName(title)) != KebabCase(title)
  {
    var c := title[i];
    var k := KebabCase(title);
    FolderNameAt(title);
    HyphenateAt(FolderName(title));
    if c == '_' {
      var stripped := Strip(title, IsSpace);
      StripKeeps(title, IsSpace, c);
      var runs := ReplaceRuns(stripped, IsSpace, '-');
      ReplaceRunsKeeps(stripped, IsSpace, '-', c);
      var kept := Filter(runs, IsSlugChar);
      FilterKeeps(runs, IsSlugChar, c);
      var j :| 0 <= j < |kept| && kept[j] == c;
      assert k[j] == '_';
      assert '_' in k;
    } else {
      assert Hyphenate(FolderName(title))[i] == c;
      assert c !in k;
    }
  }
}
