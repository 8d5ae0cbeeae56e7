/**
 * The listing of the BVH files under a directory: the directory walk is given as
 * its sequence of (root, subdirectories, files) entries, and every file whose
 * lower-cased name ends in ".bvh" is kept as `root` joined with the file name.
 */
module BvhFiles {

  /** One step of the directory walk: a directory, its subdirectories and its files. */
  datatype WalkEntry = WalkEntry(root: string, dirs: seq<string>, files: seq<string>)

  /** One file found by the walk, before the filter. */
  datatype FoundFile = FoundFile(root: string, name: string)

  function LowerChar(c: char): char
  {
    if 'A' <= c <= 'Z' then (c as int + 32) as char else c
  }

  /** ASCII lower-casing, character by character. */
  function Lower(s: string): string
  {
    seq(|s|, i requires 0 <= i < |s| => LowerChar(s[i]))
  }

  predicate EndsWith(s: string, suffix: string)
  {
    |suffix| <= |s| && s[|s| - |suffix|..] == suffix
  }

  /** `name.lower().endswith('.bvh')` */
  predicate IsBvhName(name: string): (b: bool)
    ensures b <==> |name| >= 4 && forall i | |name| - 4 <= i < |name| :: LowerChar(name[i]) == ".bvh"[i - (|name| - 4)]
  {
    var low := Lower(name);
    assert |low| >= 4 ==> forall i | |name| - 4 <= i < |name| :: low[|low| - 4..][i - (|name| - 4)] == LowerChar(name[i]);
    EndsWith(low, ".bvh")
  }

  /** POSIX path joining of two components: an absolute second component replaces the first. */
  function Join(root: string, name: string): (p: string)
    ensures EndsWith(p, name)
  {
    if |name| > 0 && name[0] == '/' then name
    else if |root| == 0 || root[|root| - 1] == '/' then root + name
    else root + "/" + name
  }

  /** The kept paths of one directory, in file order. */
  function DirListing(root: string, files: seq<string>): seq<string>
  {
    if |files| == 0 then []
    else
      var last := files[|files| - 1];
      DirListing(root, files[..|files| - 1]) + if IsBvhName(last) then [Join(root, last)] else []
  }

  /** The kept paths of the whole walk, directory after directory. */
  function Listing(walk: seq<WalkEntry>): seq<string>
  {
    if |walk| == 0 then []
    else Listing(walk[..|walk| - 1]) + DirListing(walk[|walk| - 1].root, walk[|walk| - 1].files)
  }

  /** `get_available_bvh_files`: nested loops over the walk that append every kept path. */
  method GetAvailableBvhFiles(walk: seq<WalkEntry>) returns (bvhFiles: seq<string>)
    ensures bvhFiles == Listing(walk)
  {
    bvhFiles := [];
    var d := 0;
    while d < |walk|
      invariant d <= |walk|
      invariant bvhFiles == Listing(walk[..d])
    {
      var entry := walk[d];
      var f := 0;
      while f < |entry.files|
        invariant f <= |entry.files|
        invariant bvhFiles == Listing(walk[..d]) + DirListing(entry.root, entry.files[..f])
      {
        var file := entry.files[f];
        assert entry.files[..f + 1][..f] == entry.files[..f];
        if IsBvhName(file) {
          bvhFiles := bvhFiles + [Join(entry.root, file)];
        }
        f := f + 1;
      }
      assert entry.files[..f] == entry.files;
      assert walk[..d + 1][..d] == walk[..d];
      d := d + 1;
    }
    assert walk[..d] == walk;
  }

  /** A path is listed exactly when it is the join of some walked directory with one of its files named *.bvh. */
  lemma {:induction false} DirListingMembership(root: string, files: seq<string>, p: string)
    ensures p in DirListing(root, files) <==>
      exists f | 0 <= f < |files| :: IsBvhName(files[f]) && p == Join(root, files[f])
  {
    if |files| > 0 {
      var init := files[..|files| - 1];
      DirListingMembership(root, init, p);
      assert forall f | 0 <= f < |init| :: init[f] == files[f];
    }
  }

  lemma {:induction false} ListingMembership(walk: seq<WalkEntry>, p: string)
    ensures p in Listing(walk) <==>
      exists d, f | 0 <= d < |walk| && 0 <= f < |walk[d].files| ::
        IsBvhName(walk[d].files[f]) && p == Join(walk[d].root, walk[d].files[f])
  {
    if |walk| > 0 {
      var init := walk[..|walk| - 1];
      var last := walk[|walk| - 1];
      ListingMembership(init, p);
      DirListingMembership(last.root, last.files, p);
      assert forall d | 0 <= d < |init| :: init[d] == walk[d];
    }
  }

  lemma {:induction false} LowerSuffix(s: string, suffix: string)
    requires EndsWith(s, suffix)
    ensures EndsWith(Lower(s), Lower(suffix))
  {
    var k := |s| - |suffix|;
    assert forall i | 0 <= i < |suffix| :: Lower(s)[k..][i] == LowerChar(s[k + i]) == Lower(suffix)[i];
  }

  lemma EndsWithTrans(s: string, t: string, u: string)
    requires EndsWith(s, t) && EndsWith(t, u)
    ensures EndsWith(s, u)
  {
    assert s[|s| - |u|..] == s[|s| - |t|..][|t| - |u|..];
  }

  /** A path joined from a file named *.bvh, lower-cased, ends in ".bvh". */
  lemma JoinedBvhName(root: string, name: string)
    requires IsBvhName(name)
    ensures EndsWith(Lower(Join(root, name)), ".bvh")
  {
    LowerSuffix(Join(root, name), name);
    EndsWithTrans(Lower(Join(root, name)), Lower(name), ".bvh");
  }

  /** Every listed path, lower-cased, ends in ".bvh". */
  lemma ListedPathsAreBvh(walk: seq<WalkEntry>)
    ensures forall p | p in Listing(walk) :: EndsWith(Lower(p), ".bvh")
  {
    forall p | p in Listing(walk)
      ensures EndsWith(Lower(p), ".bvh")
    {
      ListingMembership(walk, p);
      var d, f :| 0 <= d < |walk| && 0 <= f < |walk[d].files|
        && IsBvhName(walk[d].files[f]) && p == Join(walk[d].root, walk[d].files[f]);
      JoinedBvhName(walk[d].root, walk[d].files[f]);
    }
  }

  /** Every file of the walk in walk order, one entry per file, before the filter. */
  function DirFound(root: string, files: seq<string>): seq<FoundFile>
  {
    seq(|files|, i requires 0 <= i < |files| => FoundFile(root, files[i]))
  }

  function Found(walk: seq<WalkEntry>): seq<FoundFile>
  {
    if |walk| == 0 then [] else DirFound(walk[0].root, walk[0].files) + Found(walk[1..])
  }

  /** The reference filter: keep each found *.bvh file once, as its joined path, in order. */
  function Kept(found: seq<FoundFile>): seq<string>
  {
    if |found| == 0 then []
    else
      (if IsBvhName(found[0].name) then [Join(found[0].root, found[0].name)] else []) + Kept(found[1..])
  }

  lemma {:induction false} KeptAppend(x: seq<FoundFile>, y: seq<FoundFile>)
    ensures Kept(x + y) == Kept(x) + Kept(y)
  {
    if |x| > 0 {
      var head := if IsBvhName(x[0].name) then [Join(x[0].root, x[0].name)] else [];
      assert (x + y)[0] == x[0];
      assert (x + y)[1..] == x[1..] + y;
      assert Kept(x + y) == head + Kept(x[1..] + y);
      KeptAppend(x[1..], y);
      assert Kept(x) == head + Kept(x[1..]);
    } else {
      assert x + y == y;
    }
  }

  lemma {:induction false} DirListingIsKept(root: string, files: seq<string>)
    ensures DirListing(root, files) == Kept(DirFound(root, files))
  {
    if |files| > 0 {
      var init := files[..|files| - 1];
      var last := files[|files| - 1];
      DirListingIsKept(root, init);
      assert DirFound(root, files) == DirFound(root, init) + [FoundFile(root, last)];
      KeptAppend(DirFound(root, init), [FoundFile(root, last)]);
    }
  }

  lemma {:induction false} FoundAppend(walk: seq<WalkEntry>, e: WalkEntry)
    ensures Found(walk + [e]) == Found(walk) + DirFound(e.root, e.files)
  {
    if |walk| > 0 {
      assert (walk + [e])[1..] == walk[1..] + [e];
      FoundAppend(walk[1..], e);
    } else {
      assert Found([e][1..]) == [];
    }
  }

  /** The listing is the walk's files filtered in walk order: each kept file appears once, nothing else does. */
  lemma {:induction false} ListingIsFilteredWalk(walk: seq<WalkEntry>)
    ensures Listing(walk) == Kept(Found(walk))
  {
    if |walk| > 0 {
      var init := walk[..|walk| - 1];
      var last := walk[|walk| - 1];
      ListingIsFilteredWalk(init);
      DirListingIsKept(last.root, last.files);
      assert walk == init + [last];
      FoundAppend(init, last);
      KeptAppend(Found(init), DirFound(last.root, last.files));
    }
  }
}
