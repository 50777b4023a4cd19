/** The path operations of Python's `os.path` and `pathlib` that the site
    generator uses, on POSIX `/`-separated strings. */
module Paths {
  import opened Wrappers

  /** `"/".join(parts)` */
  function Join(parts: seq<string>): (r: string)
    ensures parts != [] && |parts| > 0 && parts[0] != [] ==> r != [] && r[0] == parts[0][0]
    decreases |parts|
  {
    if parts == [] then ""
    else if |parts| == 1 then parts[0]
    else parts[0] + "/" + Join(parts[1..])
  }

  lemma {:induction false} JoinAppend(a: seq<string>, b: seq<string>)
    requires a != [] && b != []
    ensures Join(a + b) == Join(a) + "/" + Join(b)
    decreases |a|
  {
    if |a| == 1 {
      assert (a + b)[1..] == b;
    } else {
      assert (a + b)[1..] == a[1..] + b;
      JoinAppend(a[1..], b);
    }
  }

  predicate NoSlash(parts: seq<string>) {
    forall i :: 0 <= i < |parts| ==> '/' !in parts[i]
  }

  function IndexOfSlash(s: string): (i: nat)
    requires '/' in s
    ensures i < |s| && s[i] == '/' && '/' !in s[..i]
    decreases |s|
  {
    if s[0] == '/' then 0 else 1 + IndexOfSlash(s[1..])
  }

  /** `s.split("/")`: always at least one (possibly empty) component. */
  function Split(s: string): (r: seq<string>)
    ensures |r| >= 1 && NoSlash(r)
    decreases |s|
  {
    if '/' !in s then [s]
    else
      var i := IndexOfSlash(s);
      [s[..i]] + Split(s[i + 1..])
  }

  /** Joining what was split gives back the string. */
  lemma {:induction false} JoinSplit(s: string)
    ensures Join(Split(s)) == s
    decreases |s|
  {
    if '/' in s {
      var i := IndexOfSlash(s);
      var rest := Split(s[i + 1..]);
      assert Split(s) == [s[..i]] + rest;
      assert ([s[..i]] + rest)[1..] == rest;
      assert Join(Split(s)) == s[..i] + "/" + Join(rest);
      JoinSplit(s[i + 1..]);
      assert s == s[..i] + "/" + s[i + 1..];
    }
  }

  /** Splitting what was joined gives back the components, provided none of
      them holds a separator. */
  lemma {:induction false} SplitJoin(parts: seq<string>)
    requires parts != [] && NoSlash(parts)
    ensures Split(Join(parts)) == parts
    decreases |parts|
  {
    if |parts| > 1 {
      var s := Join(parts);
      var p0 := parts[0];
      assert s == p0 + "/" + Join(parts[1..]);
      assert '/' in s by { assert s[|p0|] == '/'; }
      assert IndexOfSlash(s) == |p0| by {
        assert s[..|p0|] == p0;
        IndexOfSlashUnique(s, |p0|);
      }
      assert s[|p0| + 1..] == Join(parts[1..]);
      SplitJoin(parts[1..]);
    }
  }

  lemma IndexOfSlashUnique(s: string, i: nat)
    requires i < |s| && s[i] == '/' && '/' !in s[..i]
    ensures IndexOfSlash(s) == i
  {
    var j := IndexOfSlash(s);
  }

  /** `os.path.basename`: what follows the last separator. */
  function Basename(p: string): (r: string)
    ensures '/' !in r
    decreases |p|
  {
    if '/' !in p then p else Basename(p[IndexOfSlash(p) + 1..])
  }

  lemma {:induction false} BasenameAfterSlash(x: string, y: string)
    requires '/' !in y
    ensures Basename(x + "/" + y) == y
    decreases |x|
  {
    var s := x + "/" + y;
    assert '/' in s by { assert s[|x|] == '/'; }
    var i := IndexOfSlash(s);
    if i == |x| {
      assert s[i + 1..] == y;
    } else {
      assert i < |x|;
      assert x[i] == '/';
      assert s[i + 1..] == x[i + 1..] + "/" + y;
      BasenameAfterSlash(x[i + 1..], y);
    }
  }

  /** The base name of joined components is the last component. */
  lemma {:induction false} BasenameOfJoin(parts: seq<string>)
    requires parts != [] && NoSlash(parts)
    ensures Basename(Join(parts)) == parts[|parts| - 1]
    decreases |parts|
  {
    if |parts| > 1 {
      var s := Join(parts);
      var p0 := parts[0];
      assert s == p0 + "/" + Join(parts[1..]);
      assert '/' in s by { assert s[|p0|] == '/'; }
      assert IndexOfSlash(s) == |p0| by {
        assert s[..|p0|] == p0;
        IndexOfSlashUnique(s, |p0|);
      }
      assert s[|p0| + 1..] == Join(parts[1..]);
      BasenameOfJoin(parts[1..]);
    } else {
      assert '/' !in parts[0];
    }
  }

  /** Joined components end where the last one ends. */
  lemma JoinEnd(parts: seq<string>)
    requires parts != [] && parts[|parts| - 1] != []
    ensures var j := Join(parts); var last := parts[|parts| - 1];
      j != [] && j[|j| - 1] == last[|last| - 1]
  {
    var last := parts[|parts| - 1];
    if |parts| > 1 {
      var init := parts[..|parts| - 1];
      assert parts == init + [last];
      JoinAppend(init, [last]);
    }
  }

  /** `os.path.join(a, b)` for two POSIX components. */
  function PathJoin(a: string, b: string): (r: string)
    ensures b != [] && b[0] == '/' ==> r == b
    ensures (b == [] || b[0] != '/') && a != [] && a[|a| - 1] != '/' ==> r == a + "/" + b
  {
    if b != [] && b[0] == '/' then b
    else if a == [] || a[|a| - 1] == '/' then a + b
    else a + "/" + b
  }

  /** `pathlib.PurePath.stem`: the name without its last suffix, where a
      suffix needs a dot that is neither the first nor the last character. */
  function PathStem(name: string): (r: string)
    ensures |r| <= |name|
    ensures '/' !in name ==> '/' !in r
  {
    match LastDot(name)
    case Some(i) => if 0 < i < |name| - 1 then name[..i] else name
    case None => name
  }

  function LastDot(s: string): (r: Option<nat>)
    ensures r.Some? ==> r.value < |s| && s[r.value] == '.' && forall k :: r.value < k < |s| ==> s[k] != '.'
    ensures r.None? ==> forall k :: 0 <= k < |s| ==> s[k] != '.'
    decreases |s|
  {
    if s == [] then None
    else if s[|s| - 1] == '.' then Some(|s| - 1)
    else LastDot(s[..|s| - 1])
  }

  /** The stem of a non-empty name is non-empty and ends in one of the
      name's own characters. */
  lemma StemEnd(name: string)
    requires name != []
    ensures var r := PathStem(name); r != [] && exists k :: 0 <= k < |name| && r[|r| - 1] == name[k]
  {
    var r := PathStem(name);
    match LastDot(name)
    case Some(i) =>
      if 0 < i < |name| - 1 {
        assert r[|r| - 1] == name[i - 1];
      } else {
        assert r[|r| - 1] == name[|name| - 1];
      }
    case None =>
      assert r[|r| - 1] == name[|name| - 1];
  }

  /** A Markdown file name loses exactly its `.md`. */
  lemma PathStemMd(base: string)
    requires base != []
    ensures PathStem(base + ".md") == base
  {
    var name := base + ".md";
    assert name[|name| - 3] == '.';
    var i := LastDot(name).value;
    assert i == |name| - 3;
    assert name[..i] == base;
  }

  /** `os.path.splitext(name)[0]`: the name without its last extension; dots
      that only lead the name do not start an extension. */
  function SplitextRoot(name: string): (r: string)
    ensures |r| <= |name|
    ensures '/' !in name ==> '/' !in r
  {
    match LastDot(name)
    case Some(i) => if exists k :: 0 <= k < i && name[k] != '.' then name[..i] else name
    case None => name
  }

  // ---- os.path.normpath ----

  /** One step of `normpath`'s component loop: drop empty and `.`
      components, let `..` cancel the previous one where it can. */
  function NormStep(acc: seq<string>, comp: string, rooted: bool): seq<string> {
    if comp == "" || comp == "." then acc
    else if comp != ".." || (!rooted && acc == []) || (acc != [] && acc[|acc| - 1] == "..") then acc + [comp]
    else if acc != [] then acc[..|acc| - 1]
    else acc
  }

  function NormComps(comps: seq<string>, rooted: bool): seq<string>
    decreases |comps|
  {
    if comps == [] then []
    else NormStep(NormComps(comps[..|comps| - 1], rooted), comps[|comps| - 1], rooted)
  }

  /** `normpath` keeps two leading slashes, but folds one or three and more into one. */
  function LeadingSlashes(p: string): nat {
    if |p| >= 2 && p[0] == '/' && p[1] == '/' && (|p| == 2 || p[2] != '/') then 2
    else if p != [] && p[0] == '/' then 1
    else 0
  }

  function Slashes(k: nat): (r: string)
    ensures |r| == k && forall i :: 0 <= i < k ==> r[i] == '/'
  {
    if k == 0 then "" else "/" + Slashes(k - 1)
  }

  /** `os.path.normpath` */
  function NormPath(p: string): (r: string)
    ensures r != []
  {
    if p == "" then "."
    else
      var k := LeadingSlashes(p);
      var r := Slashes(k) + Join(NormComps(Split(p), k > 0));
      if r == "" then "." else r
  }

  /** Components that `normpath` passes through unchanged. */
  predicate PlainParts(parts: seq<string>) {
    forall i :: 0 <= i < |parts| ==> parts[i] != "" && parts[i] != "." && parts[i] != ".." && '/' !in parts[i]
  }

  lemma {:induction false} NormCompsPlain(parts: seq<string>, rooted: bool)
    requires PlainParts(parts)
    ensures NormComps(parts, rooted) == parts
    decreases |parts|
  {
    if parts != [] {
      NormCompsPlain(parts[..|parts| - 1], rooted);
      assert parts == parts[..|parts| - 1] + [parts[|parts| - 1]];
    }
  }

  /** A relative path of plain components is already normal. */
  lemma {:induction false} NormPathPlain(parts: seq<string>)
    requires parts != [] && PlainParts(parts)
    ensures NormPath(Join(parts)) == Join(parts)
  {
    var p := Join(parts);
    assert NoSlash(parts);
    SplitJoin(parts);
    NormCompsPlain(parts, false);
    assert p != [] && p[0] != '/';
    assert LeadingSlashes(p) == 0;
    assert Slashes(0) + Join(NormComps(Split(p), false)) == p;
  }

  /** Under a root, `normpath` leaves no empty, `.` or `..` component and no
      separator inside a component. */
  lemma {:induction false} NormCompsRooted(comps: seq<string>)
    requires NoSlash(comps)
    ensures PlainParts(NormComps(comps, true))
    decreases |comps|
  {
    if comps != [] {
      NormCompsRooted(comps[..|comps| - 1]);
    }
  }

  lemma {:induction false} BasenameOfNormal(k: nat, comps: seq<string>)
    requires comps != [] && NoSlash(comps)
    ensures Basename(Slashes(k) + Join(comps)) == comps[|comps| - 1]
  {
    var last := comps[|comps| - 1];
    if |comps| == 1 {
      if k == 0 {
        assert Slashes(k) + Join(comps) == last;
        assert Split(last) == [last];
      } else {
        assert Slashes(k) + Join(comps) == Slashes(k - 1) + "/" + last;
        BasenameAfterSlash(Slashes(k - 1), last);
      }
    } else {
      var init := comps[..|comps| - 1];
      assert comps == init + [last];
      JoinAppend(init, [last]);
      assert Slashes(k) + Join(comps) == (Slashes(k) + Join(init)) + "/" + last;
      BasenameAfterSlash(Slashes(k) + Join(init), last);
    }
  }
}
