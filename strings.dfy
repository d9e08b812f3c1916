/** The .NET string and path operations the core relies on, written out:
    `ToLower` (ASCII letters only), `Contains`, `StartsWith`, `EndsWith`,
    `Replace` (every non-overlapping occurrence, scanning left to right),
    `Path.GetFileName` and `Path.GetFileNameWithoutExtension`. */
module Strings {

  function LowerChar(c: char): char {
    if 'A' <= c <= 'Z' then (c as int + 32) as char else c
  }

  function ToLower(s: string): (r: string)
    ensures |r| == |s|
  {
    seq(|s|, i requires 0 <= i < |s| => LowerChar(s[i]))
  }

  /** `hay.Contains(needle)`. */
  predicate Contains(hay: string, needle: string)
    decreases |hay|
  {
    needle <= hay || (hay != [] && Contains(hay[1..], needle))
  }

  /** The case-insensitive substring test the search filters use:
      `hay.ToLower().Contains(needle.ToLower())`. */
  predicate ContainsIgnoringCase(hay: string, needle: string) {
    Contains(ToLower(hay), ToLower(needle))
  }

  predicate StartsWith(s: string, prefix: string) {
    prefix <= s
  }

  predicate EndsWith(s: string, suffix: string) {
    |suffix| <= |s| && s[|s| - |suffix|..] == suffix
  }

  /** `s.Replace(pat, rep)`. */
  function ReplaceAll(s: string, pat: string, rep: string): string
    requires pat != []
    decreases |s|
  {
    if |s| < |pat| then s
    else if pat <= s then rep + ReplaceAll(s[|pat|..], pat, rep)
    else [s[0]] + ReplaceAll(s[1..], pat, rep)
  }

  predicate IsSeparator(c: char) {
    c == '/' || c == '\\'
  }

  /** `Path.GetFileName`: the part after the last directory separator. */
  function FileName(path: string): string {
    if path == [] then []
    else if IsSeparator(path[|path| - 1]) then []
    else FileName(path[..|path| - 1]) + [path[|path| - 1]]
  }

  /** The file name is the separator-free suffix that follows the last separator. */
  lemma {:induction false} FileNameSpec(path: string)
    ensures var r := FileName(path);
            (forall i :: 0 <= i < |r| ==> !IsSeparator(r[i]))
            && |r| <= |path| && path[|path| - |r|..] == r
            && (|r| < |path| ==> IsSeparator(path[|path| - |r| - 1]))
  {
    if path != [] && !IsSeparator(path[|path| - 1]) {
      var init := path[..|path| - 1];
      FileNameSpec(init);
      var r := FileName(path);
      var ri := FileName(init);
      assert r == ri + [path[|path| - 1]];
      assert path[|path| - |r|..] == init[|init| - |ri|..] + [path[|path| - 1]];
      if |r| < |path| {
        assert path[|path| - |r| - 1] == init[|init| - |ri| - 1];
      }
    }
  }

  /** Index of the last '.', or -1. */
  function LastDot(s: string): (r: int)
    ensures -1 <= r < |s|
  {
    if s == [] then -1
    else if s[|s| - 1] == '.' then |s| - 1
    else LastDot(s[..|s| - 1])
  }

  /** `LastDot` finds the last '.' and only that. */
  lemma {:induction false} LastDotSpec(s: string)
    ensures LastDot(s) >= 0 ==> s[LastDot(s)] == '.'
    ensures forall i :: LastDot(s) < i < |s| ==> s[i] != '.'
  {
    if s != [] && s[|s| - 1] != '.' {
      LastDotSpec(s[..|s| - 1]);
    }
  }

  /** `Path.GetFileNameWithoutExtension`. */
  function FileNameWithoutExtension(path: string): string {
    var name := FileName(path);
    var dot := LastDot(name);
    if dot < 0 then name else name[..dot]
  }

  /** A path `Path.Combine` treats as rooted: it starts with a separator or a drive. */
  predicate IsRooted(p: string) {
    (p != [] && IsSeparator(p[0])) || (|p| >= 2 && p[1] == ':')
  }

  /** `Path.Combine(a, b)`, joining with '/': a rooted second part replaces the first. */
  function Combine(a: string, b: string): (r: string)
    ensures IsRooted(b) ==> r == b
    ensures !IsRooted(b) && a != [] && b != [] && !IsSeparator(a[|a| - 1]) ==> r == a + "/" + b
  {
    if b == [] then a
    else if a == [] || IsRooted(b) then b
    else if IsSeparator(a[|a| - 1]) then a + b
    else a + "/" + b
  }

  /** `needle` occurs in `hay` starting at index `i`. */
  predicate OccursAt(hay: string, needle: string, i: int) {
    0 <= i && i + |needle| <= |hay| && hay[i..i + |needle|] == needle
  }

  lemma {:induction false} ContainsIffOccurs(hay: string, needle: string)
    ensures Contains(hay, needle) <==> exists i :: OccursAt(hay, needle, i)
  {
    if needle <= hay {
      assert OccursAt(hay, needle, 0);
    } else if hay == [] {
    } else {
      ContainsIffOccurs(hay[1..], needle);
      if Contains(hay, needle) {
        var i :| OccursAt(hay[1..], needle, i);
        assert hay[i + 1..i + 1 + |needle|] == hay[1..][i..i + |needle|];
        assert OccursAt(hay, needle, i + 1);
      }
      if exists i :: OccursAt(hay, needle, i) {
        var i :| OccursAt(hay, needle, i);
        assert i != 0;
        assert hay[1..][i - 1..i - 1 + |needle|] == hay[i..i + |needle|];
        assert OccursAt(hay[1..], needle, i - 1);
      }
    }
  }

  /** An empty search string matches every text. */
  lemma EmptyNeedleAlwaysContained(hay: string)
    ensures ContainsIgnoringCase(hay, "")
  {
  }

  /** When `pat` occurs in `base + pat` only as its suffix, `Replace`
      rewrites exactly that suffix. */
  lemma {:induction false} ReplaceOnlySuffix(base: string, pat: string, rep: string)
    requires pat != []
    requires forall i :: 0 <= i < |base| ==> !(pat <= (base + pat)[i..])
    ensures ReplaceAll(base + pat, pat, rep) == base + rep
  {
    var s := base + pat;
    if base == [] {
      assert s == pat;
      assert s[|pat|..] == [];
    } else {
      assert !(pat <= s[0..]) && s[0..] == s;
      assert ReplaceAll(s, pat, rep) == [s[0]] + ReplaceAll(s[1..], pat, rep);
      assert s[1..] == base[1..] + pat;
      SuffixFreeTail(base, pat);
      ReplaceOnlySuffix(base[1..], pat, rep);
      assert base == [base[0]] + base[1..];
    }
  }

  /** Dropping the first character keeps `pat` from occurring before the suffix. */
  lemma SuffixFreeTail(base: string, pat: string)
    requires base != []
    requires forall i :: 0 <= i < |base| ==> !(pat <= (base + pat)[i..])
    ensures forall i :: 0 <= i < |base[1..]| ==> !(pat <= (base[1..] + pat)[i..])
  {
    forall i | 0 <= i < |base[1..]|
      ensures (base[1..] + pat)[i..] == (base + pat)[i + 1..]
    {
    }
  }
}
