/**
 * The output path of a conversion: an explicit non-empty path if one was given,
 * otherwise the input path with every ".bvh" replaced by "_parsed.npy".
 */
module OutputPath {
  import opened Wrappers

  const BvhExtension: string := ".bvh"
  const ParsedSuffix: string := "_parsed.npy"

  /** `pat` occurs in `s` at index `p`. */
  predicate OccursAt(s: string, pat: string, p: nat)
  {
    p + |pat| <= |s| && s[p..p + |pat|] == pat
  }

  ghost predicate Contains(s: string, pat: string)
  {
    exists p: nat :: OccursAt(s, pat, p)
  }

  /** `s.replace(pat, rep)` for a non-empty `pat`: scan left to right, replace each match, resume after it. */
  function Replace(s: string, pat: string, rep: string): (r: string)
    requires |pat| > 0
    ensures rep == pat ==> r == s
    ensures |rep| >= |pat| ==> |r| >= |s|
    decreases |s|
  {
    if |s| < |pat| then s
    else if s[..|pat|] == pat then rep + Replace(s[|pat|..], pat, rep)
    else [s[0]] + Replace(s[1..], pat, rep)
  }

  /** The path `convert_bvh_to_npy` and `main` derive when no output path is given. */
  function DefaultOutputPath(bvhPath: string): (r: string)
    ensures |r| >= |bvhPath|
    ensures !Contains(bvhPath, BvhExtension) ==> r == bvhPath
  {
    UnchangedWithoutExtension(bvhPath);
    Replace(bvhPath, BvhExtension, ParsedSuffix)
  }

  lemma UnchangedWithoutExtension(bvhPath: string)
    ensures !Contains(bvhPath, BvhExtension) ==> Replace(bvhPath, BvhExtension, ParsedSuffix) == bvhPath
  {
    if !Contains(bvhPath, BvhExtension) {
      ReplaceWithoutOccurrence(bvhPath, BvhExtension, ParsedSuffix);
    }
  }

  /** `output or bvh_path.replace(".bvh", "_parsed.npy")`: `None` and the empty string are both false. */
  function ChooseOutputPath(output: Option<string>, bvhPath: string): (r: string)
    ensures output.Some? && output.value != "" ==> r == output.value
    ensures output.None? || output.value == "" ==> r == DefaultOutputPath(bvhPath)
  {
    if output.Some? && output.value != "" then output.value else DefaultOutputPath(bvhPath)
  }

  /** An occurrence in `s[1..]` is one in `s`, one place further right. */
  lemma OccursShift(s: string, pat: string, p: nat)
    requires |s| > 0
    ensures OccursAt(s[1..], pat, p) <==> OccursAt(s, pat, p + 1)
  {
    if p + 1 + |pat| <= |s| {
      assert s[1..][p..p + |pat|] == s[p + 1..p + 1 + |pat|];
    }
  }

  /** A string without the pattern comes back unchanged. */
  lemma {:induction false} ReplaceWithoutOccurrence(s: string, pat: string, rep: string)
    requires |pat| > 0
    requires !Contains(s, pat)
    ensures Replace(s, pat, rep) == s
    decreases |s|
  {
    if |s| >= |pat| {
      assert !OccursAt(s, pat, 0);
      forall p: nat
        ensures !OccursAt(s[1..], pat, p)
      {
        OccursShift(s, pat, p);
      }
      ReplaceWithoutOccurrence(s[1..], pat, rep);
      assert s == [s[0]] + s[1..];
    }
  }

  /** With a replacement at least as long as the pattern, the result never shrinks, and grows when a match exists. */
  lemma {:induction false} ReplaceGrows(s: string, pat: string, rep: string)
    requires |pat| > 0 && |rep| >= |pat|
    ensures |Replace(s, pat, rep)| >= |s|
    ensures Contains(s, pat) ==> |Replace(s, pat, rep)| >= |s| + |rep| - |pat|
    decreases |s|
  {
    if |s| < |pat| {
    } else if s[..|pat|] == pat {
      ReplaceGrows(s[|pat|..], pat, rep);
    } else {
      ReplaceGrows(s[1..], pat, rep);
      if Contains(s, pat) {
        var p: nat :| OccursAt(s, pat, p);
        assert p != 0;
        OccursShift(s, pat, p - 1);
      }
    }
  }

  /** The default output path equals the input path exactly when the input has no ".bvh" in it. */
  lemma DefaultOutputPathUnchangedIff(bvhPath: string)
    ensures DefaultOutputPath(bvhPath) == bvhPath <==> !Contains(bvhPath, BvhExtension)
  {
    ReplaceGrows(bvhPath, BvhExtension, ParsedSuffix);
    if !Contains(bvhPath, BvhExtension) {
      ReplaceWithoutOccurrence(bvhPath, BvhExtension, ParsedSuffix);
    }
  }

  /** The leftmost match is the first one replaced; the scan resumes right after it. */
  lemma {:induction false} ReplaceAtFirstOccurrence(a: string, pat: string, b: string, rep: string)
    requires |pat| > 0
    requires forall q: nat | q < |a| :: !OccursAt(a + pat + b, pat, q)
    ensures Replace(a + pat + b, pat, rep) == a + rep + Replace(b, pat, rep)
    decreases |a|
  {
    var s := a + pat + b;
    if |a| == 0 {
      assert s[..|pat|] == pat;
      assert s[|pat|..] == b;
    } else {
      assert !OccursAt(s, pat, 0);
      assert s[..|pat|] != pat;
      var t := a[1..] + pat + b;
      assert s[1..] == t;
      assert Replace(s, pat, rep) == [s[0]] + Replace(t, pat, rep);
      forall q: nat | q < |a[1..]|
        ensures !OccursAt(t, pat, q)
      {
        OccursShift(s, pat, q);
      }
      ReplaceAtFirstOccurrence(a[1..], pat, b, rep);
      calc {
        Replace(s, pat, rep);
        [a[0]] + Replace(t, pat, rep);
        [a[0]] + (a[1..] + rep + Replace(b, pat, rep));
        { assert a == [a[0]] + a[1..]; }
        a + rep + Replace(b, pat, rep);
      }
    }
  }

  /** A file name `base.bvh` whose base has no ".bvh" gets the output path `base_parsed.npy`. */
  lemma DefaultOutputPathOfBvhFile(base: string)
    requires !Contains(base, BvhExtension)
    ensures DefaultOutputPath(base + BvhExtension) == base + ParsedSuffix
  {
    var s := base + BvhExtension + "";
    assert s == base + BvhExtension;
    forall q: nat | q < |base|
      ensures !OccursAt(s, BvhExtension, q)
    {
      if q + 4 <= |base| {
        assert s[q..q + 4] == base[q..q + 4];
        assert !OccursAt(base, BvhExtension, q);
      } else {
        var d := |base| - q;
        assert s[q..q + 4][d] == '.';
        assert BvhExtension[d] != '.';
      }
    }
    ReplaceAtFirstOccurrence(base, BvhExtension, "", ParsedSuffix);
    assert base + ParsedSuffix + "" == base + ParsedSuffix;
  }

  /** The usual case: "walk.bvh" is converted to "walk_parsed.npy". */
  lemma WalkBvhExample()
    ensures DefaultOutputPath("walk.bvh") == "walk_parsed.npy"
  {
    forall p: nat
      ensures !OccursAt("walk", BvhExtension, p)
    {
      if p == 0 {
        assert "walk"[0..4][0] == 'w';
      }
    }
    assert "walk" + BvhExtension == "walk.bvh";
    assert "walk" + ParsedSuffix == "walk_parsed.npy";
    DefaultOutputPathOfBvhFile("walk");
  }
}
