/** String primitives of the Python runtime that the site generator leans on:
    ASCII character classes as Python's `re` and `str` methods see them,
    `str.lower`, `str.capitalize`, `str.strip`, `str.replace` and the
    run-replacing form of `re.sub`. Strings are `seq<char>`; only the ASCII
    range is classified (see README, "Left out"). */
module Text {

  /** `\s` of Python's `re` and `str.isspace`, restricted to ASCII:
      space, \t \n \v \f \r and the four separators \x1c..\x1f. */
  predicate IsSpace(c: char) {
    c == ' ' || 9 <= c as int <= 13 || 28 <= c as int <= 31
  }

  /** `\w` of Python's `re`, restricted to ASCII. */
  predicate IsWordChar(c: char) {
    'a' <= c <= 'z' || 'A' <= c <= 'Z' || '0' <= c <= '9' || c == '_'
  }

  predicate IsUpper(c: char) { 'A' <= c <= 'Z' }

  predicate IsLowerAlnum(c: char) { 'a' <= c <= 'z' || '0' <= c <= '9' }

  function LowerChar(c: char): (r: char)
    ensures !IsUpper(r)
    ensures IsUpper(c) ==> 'a' <= r <= 'z'
    ensures !IsUpper(c) ==> r == c
  {
    if IsUpper(c) then (c as int + 32) as char else c
  }

  function UpperChar(c: char): (r: char)
    ensures 'a' <= c <= 'z' ==> IsUpper(r)
    ensures !('a' <= c <= 'z') ==> r == c
  {
    if 'a' <= c <= 'z' then (c as int - 32) as char else c
  }

  /** `str.lower()` */
  function Lower(s: string): (r: string)
    ensures |r| == |s|
    ensures forall i :: 0 <= i < |s| ==> r[i] == LowerChar(s[i])
  {
    seq(|s|, i requires 0 <= i < |s| => LowerChar(s[i]))
  }

  lemma LowerNoop(s: string)
    requires forall i :: 0 <= i < |s| ==> !IsUpper(s[i])
    ensures Lower(s) == s
  {
  }

  /** `str.capitalize()`: first character upper-cased, the rest lower-cased. */
  function Capitalize(s: string): (r: string)
    ensures |r| == |s|
    ensures s != [] ==> r[0] == UpperChar(s[0]) && r[1..] == Lower(s[1..])
  {
    if s == [] then [] else [UpperChar(s[0])] + Lower(s[1..])
  }

  /** `str.lstrip(chars)`: drop the leading run of characters satisfying `drop`. */
  function StripLeft(s: string, drop: char -> bool): (r: string)
    ensures |r| <= |s|
    ensures r != [] ==> !drop(r[0])
    ensures forall i :: 0 <= i < |s| - |r| ==> drop(s[i])
    decreases |s|
  {
    if s != [] && drop(s[0]) then StripLeft(s[1..], drop) else s
  }

  /** `str.rstrip(chars)`: drop the trailing run of characters satisfying `drop`. */
  function StripRight(s: string, drop: char -> bool): (r: string)
    ensures |r| <= |s|
    ensures r != [] ==> r[0] == s[0]
    ensures r != [] ==> !drop(r[|r| - 1])
    ensures forall i :: |r| <= i < |s| ==> drop(s[i])
    decreases |s|
  {
    if s != [] && drop(s[|s| - 1]) then StripRight(s[..|s| - 1], drop) else s
  }

  /** `str.strip(chars)`: drop the characters satisfying `drop` from both ends. */
  function Strip(s: string, drop: char -> bool): (r: string)
    ensures |r| <= |s|
    ensures r != [] ==> !drop(r[0]) && !drop(r[|r| - 1])
  {
    StripRight(StripLeft(s, drop), drop)
  }

  /** What is left after stripping the front is the tail of the input. */
  lemma {:induction false} StripLeftAt(s: string, drop: char -> bool, i: nat)
    requires i < |StripLeft(s, drop)|
    ensures StripLeft(s, drop)[i] == s[|s| - |StripLeft(s, drop)| + i]
    decreases |s|
  {
    if s != [] && drop(s[0]) {
      StripLeftAt(s[1..], drop, i);
    }
  }

  /** What is left after stripping the back is the head of the input. */
  lemma {:induction false} StripRightAt(s: string, drop: char -> bool, i: nat)
    requires i < |StripRight(s, drop)|
    ensures StripRight(s, drop)[i] == s[i]
    decreases |s|
  {
    if s != [] && drop(s[|s| - 1]) {
      StripRightAt(s[..|s| - 1], drop, i);
    }
  }

  /** What stripping leaves is one contiguous slice of the input. */
  lemma StripIsSlice(s: string, drop: char -> bool) returns (a: nat)
    ensures a + |Strip(s, drop)| <= |s|
    ensures forall i :: 0 <= i < |Strip(s, drop)| ==> Strip(s, drop)[i] == s[a + i]
  {
    var l := StripLeft(s, drop);
    a := |s| - |l|;
    var r := StripRight(l, drop);
    forall i | 0 <= i < |r| ensures r[i] == s[a + i] {
      StripRightAt(l, drop, i);
      StripLeftAt(s, drop, i);
    }
  }

  /** A property every character of the input has, every character of the
      stripped string has. */
  lemma StripPreserves(s: string, drop: char -> bool, p: char -> bool)
    requires forall i :: 0 <= i < |s| ==> p(s[i])
    ensures forall i :: 0 <= i < |Strip(s, drop)| ==> p(Strip(s, drop)[i])
  {
    var a := StripIsSlice(s, drop);
    forall i | 0 <= i < |Strip(s, drop)| ensures p(Strip(s, drop)[i]) {
      assert Strip(s, drop)[i] == s[a + i];
    }
  }

  /** Stripping removes only characters it drops. */
  lemma StripKeeps(s: string, drop: char -> bool, c: char)
    requires c in s && !drop(c)
    ensures c in Strip(s, drop)
  {
    var l := StripLeft(s, drop);
    var i :| 0 <= i < |s| && s[i] == c;
    var k := i - (|s| - |l|);
    StripLeftAt(s, drop, k);
    var r := StripRight(l, drop);
    StripRightAt(l, drop, k);
    assert r[k] == c;
  }

  lemma {:induction false} StripNoop(s: string, drop: char -> bool)
    requires forall i :: 0 <= i < |s| ==> !drop(s[i])
    ensures Strip(s, drop) == s
  {
    assert StripLeft(s, drop) == s;
    assert StripRight(s, drop) == s;
  }

  /** Stripping a string whose two ends are kept changes nothing. */
  lemma StripEndsKept(s: string, drop: char -> bool)
    requires s != [] ==> !drop(s[0]) && !drop(s[|s| - 1])
    ensures Strip(s, drop) == s
  {
    assert StripLeft(s, drop) == s;
    assert StripRight(s, drop) == s;
  }

  /** `re.sub(CLASS + "+", rep, s)`: every maximal run of characters of the
      class becomes one `rep`. */
  function ReplaceRuns(s: string, inRun: char -> bool, rep: char): (r: string)
    ensures |r| <= |s|
    ensures forall i :: 0 <= i < |r| ==> !inRun(r[i]) || r[i] == rep
    decreases |s|
  {
    if s == [] then []
    else if inRun(s[0]) then [rep] + ReplaceRuns(StripLeft(s, inRun), inRun, rep)
    else [s[0]] + ReplaceRuns(s[1..], inRun, rep)
  }

  /** No two characters of the class stand side by side in `s`. */
  predicate Separated(s: string, inRun: char -> bool) {
    forall i, j :: 0 <= i < |s| && 0 <= j < |s| && j == i + 1 ==> !(inRun(s[i]) && inRun(s[j]))
  }

  /** After the substitution no two characters of the class stand side by side. */
  lemma {:induction false} ReplaceRunsSeparated(s: string, inRun: char -> bool, rep: char)
    ensures Separated(ReplaceRuns(s, inRun, rep), inRun)
    decreases |s|
  {
    if s != [] {
      var r := ReplaceRuns(s, inRun, rep);
      var t := if inRun(s[0]) then StripLeft(s, inRun) else s[1..];
      ReplaceRunsSeparated(t, inRun, rep);
      var rt := ReplaceRuns(t, inRun, rep);
      assert r == [r[0]] + rt;
      if inRun(s[0]) && rt != [] {
        assert t != [] && !inRun(t[0]);
        assert rt[0] == t[0] by { assert ReplaceRuns(t, inRun, rep) == [t[0]] + ReplaceRuns(t[1..], inRun, rep); }
      }
      forall i, j | 0 <= i < |r| && 0 <= j < |r| && j == i + 1
        ensures !(inRun(r[i]) && inRun(r[j]))
      {
        if i > 0 {
          assert r[i] == rt[i - 1] && r[j] == rt[j - 1];
          assert !(inRun(rt[i - 1]) && inRun(rt[j - 1]));
        } else if !inRun(s[0]) {
          assert r[0] == s[0];
          assert !inRun(r[i]);
        } else {
          assert r[j] == rt[0];
          assert !inRun(r[j]);
        }
      }
    }
  }

  /** Characters outside the class survive the substitution. */
  lemma {:induction false} ReplaceRunsKeeps(s: string, inRun: char -> bool, rep: char, c: char)
    requires c in s && !inRun(c)
    ensures c in ReplaceRuns(s, inRun, rep)
    decreases |s|
  {
    if s[0] != c {
      var t := if inRun(s[0]) then StripLeft(s, inRun) else s[1..];
      var i :| 0 <= i < |s| && s[i] == c;
      assert c in t by {
        if inRun(s[0]) { assert i >= |s| - |t|; StripLeftAt(s, inRun, i - (|s| - |t|)); }
        else { assert t[i - 1] == c; }
      }
      ReplaceRunsKeeps(t, inRun, rep, c);
    }
  }

  lemma {:induction false} ReplaceRunsNoop(s: string, inRun: char -> bool, rep: char)
    requires forall i :: 0 <= i < |s| ==> !inRun(s[i])
    ensures ReplaceRuns(s, inRun, rep) == s
    decreases |s|
  {
    if s != [] {
      ReplaceRunsNoop(s[1..], inRun, rep);
    }
  }

  /** Where no two class characters are adjacent, every run has length one
      and the substitution is a character-by-character map. */
  lemma ReplaceRunsStep(s: string, inRun: char -> bool, rep: char)
    requires s != []
    requires |s| > 1 ==> !(inRun(s[0]) && inRun(s[1]))
    ensures ReplaceRuns(s, inRun, rep)
      == [if inRun(s[0]) then rep else s[0]] + ReplaceRuns(s[1..], inRun, rep)
  {
    if inRun(s[0]) {
      assert StripLeft(s[1..], inRun) == s[1..];
    }
  }

  lemma {:induction false} ReplaceRunsSingles(s: string, inRun: char -> bool, rep: char)
    requires Separated(s, inRun)
    ensures |ReplaceRuns(s, inRun, rep)| == |s|
    ensures forall i :: 0 <= i < |s| ==>
      ReplaceRuns(s, inRun, rep)[i] == if inRun(s[i]) then rep else s[i]
    decreases |s|
  {
    if s != [] {
      var t := s[1..];
      assert Separated(t, inRun) by {
        forall i, j | 0 <= i < |t| && 0 <= j < |t| && j == i + 1 ensures !(inRun(t[i]) && inRun(t[j])) {
          assert t[i] == s[i + 1] && t[j] == s[j + 1];
        }
      }
      ReplaceRunsSingles(t, inRun, rep);
      ReplaceRunsStep(s, inRun, rep);
    }
  }

  /** `re.sub("[^KEEP]", "", s)`: keep only the characters satisfying `keep`. */
  function Filter(s: string, keep: char -> bool): (r: string)
    ensures |r| <= |s|
    ensures forall i :: 0 <= i < |r| ==> keep(r[i])
    decreases |s|
  {
    if s == [] then []
    else if keep(s[0]) then [s[0]] + Filter(s[1..], keep)
    else Filter(s[1..], keep)
  }

  /** Filtering loses no character it keeps. */
  lemma {:induction false} FilterKeeps(s: string, keep: char -> bool, c: char)
    requires c in s && keep(c)
    ensures c in Filter(s, keep)
    decreases |s|
  {
    if s[0] != c {
      var i :| 0 <= i < |s| && s[i] == c;
      assert s[1..][i - 1] == c;
      FilterKeeps(s[1..], keep, c);
    }
  }

  lemma {:induction false} FilterNoop(s: string, keep: char -> bool)
    requires forall i :: 0 <= i < |s| ==> keep(s[i])
    ensures Filter(s, keep) == s
    decreases |s|
  {
    if s != [] {
      FilterNoop(s[1..], keep);
    }
  }

  /** `pat` occurs in `s` at position `i`. */
  predicate OccursAt(s: string, pat: string, i: nat) {
    i + |pat| <= |s| && s[i..i + |pat|] == pat
  }

  /** `str.replace(pat, rep)`: non-overlapping occurrences, left to right. */
  function ReplaceAll(s: string, pat: string, rep: string): (r: string)
    requires pat != []
    decreases |s|
  {
    if |s| < |pat| then s
    else if s[..|pat|] == pat then rep + ReplaceAll(s[|pat|..], pat, rep)
    else [s[0]] + ReplaceAll(s[1..], pat, rep)
  }

  lemma {:induction false} ReplaceAllNoMatch(s: string, pat: string, rep: string)
    requires pat != []
    requires forall i :: 0 <= i < |s| ==> !OccursAt(s, pat, i)
    ensures ReplaceAll(s, pat, rep) == s
    decreases |s|
  {
    if |s| >= |pat| {
      assert !OccursAt(s, pat, 0);
      forall i | 0 <= i < |s[1..]|
        ensures !OccursAt(s[1..], pat, i)
      {
        assert !OccursAt(s, pat, i + 1);
        if i + |pat| <= |s[1..]| {
          assert s[1..][i..i + |pat|] == s[i + 1..i + 1 + |pat|];
        }
      }
      ReplaceAllNoMatch(s[1..], pat, rep);
    }
  }

  /** With a one-character pattern and replacement, `str.replace` maps each
      character independently. */
  lemma {:induction false} ReplaceCharPointwise(s: string, a: char, b: char)
    ensures |ReplaceAll(s, [a], [b])| == |s|
    ensures forall i :: 0 <= i < |s| ==>
      ReplaceAll(s, [a], [b])[i] == if s[i] == a then b else s[i]
    decreases |s|
  {
    if s != [] {
      ReplaceCharPointwise(s[1..], a, b);
      assert s[..1] == [s[0]];
    }
  }

  lemma {:induction false} ReplaceCharConcat(s: string, t: string, a: char, b: char)
    ensures ReplaceAll(s + t, [a], [b]) == ReplaceAll(s, [a], [b]) + ReplaceAll(t, [a], [b])
  {
    ReplaceCharPointwise(s + t, a, b);
    ReplaceCharPointwise(s, a, b);
    ReplaceCharPointwise(t, a, b);
  }

  lemma {:induction false} ReplaceCharAbsent(s: string, a: char, b: char)
    requires a !in s
    ensures ReplaceAll(s, [a], [b]) == s
  {
    ReplaceCharPointwise(s, a, b);
  }
}
