/** CODEOWNERS coverage: the `**` path matcher, the pattern rules built on it,
    and the search for an owning rule. */
module Codeowners {
  import opened Basics
  import opened Text
  import opened Glob

  datatype Rule = Rule(pattern: string, owners: seq<string>, lineNo: nat)
  datatype Coverage = Coverage(workflowsRule: Option<Rule>, githubRule: Option<Rule>)

  const WORKFLOW_FILE := ".github/workflows/example.yml"
  const GITHUB_FILE := ".github/dependabot.yml"

  // ---------- The language of a segment pattern ----------

  /** `pat` describes the whole of `path`: `**` stands for any number of
      segments, any other element for one segment it globs. */
  ghost predicate Derives(pat: seq<string>, path: seq<string>)
    decreases |pat|
  {
    if pat == [] then path == []
    else if pat[0] == "**" then exists k | 0 <= k <= |path| :: Derives(pat[1..], path[k..])
    else path != [] && Matches(pat[0], path[0]) && Derives(pat[1..], path[1..])
  }

  /** `pat` describes the first `n` segments of `path`. */
  ghost predicate DerivesPrefix(pat: seq<string>, path: seq<string>, n: int) {
    0 <= n <= |path| && Derives(pat, path[..n])
  }

  ghost predicate IsLongest(pat: seq<string>, path: seq<string>, n: int) {
    DerivesPrefix(pat, path, n) && forall m | DerivesPrefix(pat, path, m) :: m <= n
  }

  /** How a prefix match decomposes at a `**`. */
  lemma StarStarPrefix(pat: seq<string>, path: seq<string>, n: int)
    requires pat != [] && pat[0] == "**"
    ensures DerivesPrefix(pat, path, n)
            <==> exists k :: 0 <= k <= n <= |path| && DerivesPrefix(pat[1..], path[k..], n - k)
  {
    if 0 <= n <= |path| {
      forall k | 0 <= k <= n
        ensures path[..n][k..] == path[k..][..n - k]
      {
      }
    }
  }

  /** How a prefix match decomposes at a one-segment element. */
  lemma SegmentPrefix(pat: seq<string>, path: seq<string>, n: int)
    requires pat != [] && pat[0] != "**"
    ensures DerivesPrefix(pat, path, n)
            <==> 0 < n <= |path| && Matches(pat[0], path[0]) && DerivesPrefix(pat[1..], path[1..], n - 1)
  {
    if 0 < n <= |path| {
      assert path[..n][1..] == path[1..][..n - 1];
    }
  }

  /** The exchange lemma: if `pat` matches from `p0` and also from a later `p1`,
      then from `p1` it can end at least as far as it can from `p0`. */
  lemma {:induction false} LaterStartReachesAsFar(
      pat: seq<string>, path: seq<string>, p0: nat, n0: nat, p1: nat, n1: nat) returns (n: nat)
    requires p0 <= p1 <= |path|
    requires DerivesPrefix(pat, path[p0..], n0) && DerivesPrefix(pat, path[p1..], n1)
    ensures DerivesPrefix(pat, path[p1..], n) && p0 + n0 <= p1 + n
    decreases |pat|
  {
    if pat == [] {
      n := 0;
    } else if pat[0] == "**" {
      StarStarPrefix(pat, path[p0..], n0);
      StarStarPrefix(pat, path[p1..], n1);
      var k0 :| 0 <= k0 <= n0 && DerivesPrefix(pat[1..], path[p0..][k0..], n0 - k0);
      var k1 :| 0 <= k1 <= n1 && DerivesPrefix(pat[1..], path[p1..][k1..], n1 - k1);
      assert path[p0..][k0..] == path[p0 + k0..] && path[p1..][k1..] == path[p1 + k1..];
      if p1 <= p0 + k0 {
        n := p0 + n0 - p1;
        assert path[p1..][p0 + k0 - p1..] == path[p0 + k0..];
      } else {
        var m := LaterStartReachesAsFar(pat[1..], path, p0 + k0, n0 - k0, p1 + k1, n1 - k1);
        n := k1 + m;
      }
      StarStarPrefix(pat, path[p1..], n);
    } else {
      SegmentPrefix(pat, path[p0..], n0);
      SegmentPrefix(pat, path[p1..], n1);
      assert path[p0..][1..] == path[p0 + 1..] && path[p1..][1..] == path[p1 + 1..];
      var m := LaterStartReachesAsFar(pat[1..], path, p0 + 1, n0 - 1, p1 + 1, n1 - 1);
      n := m + 1;
      SegmentPrefix(pat, path[p1..], n);
    }
  }

  /** Backtracking matcher. Its single answer is complete and maximal: `None`
      only when no prefix matches, otherwise the longest matching prefix. */
  method MatchPrefix(pat: seq<string>, path: seq<string>) returns (r: Option<nat>)
    ensures r.Some? ==> IsLongest(pat, path, r.value)
    ensures r.None? ==> forall n :: !DerivesPrefix(pat, path, n)
    decreases |pat|
  {
    if pat == [] {
      return Some(0);
    }
    if pat[0] == "**" {
      for take := |path| + 1 downto 0
        invariant forall k, n | take <= k <= |path| :: !DerivesPrefix(pat[1..], path[k..], n)
      {
        var rest := MatchPrefix(pat[1..], path[take..]);
        if rest.Some? {
          StarStarPrefix(pat, path, take + rest.value);
          forall m | DerivesPrefix(pat, path, m)
            ensures m <= take + rest.value
          {
            StarStarPrefix(pat, path, m);
            var k :| 0 <= k <= m && DerivesPrefix(pat[1..], path[k..], m - k);
            var far := LaterStartReachesAsFar(pat[1..], path, k, m - k, take, rest.value);
          }
          return Some(take + rest.value);
        }
      }
      forall n ensures !DerivesPrefix(pat, path, n) {
        StarStarPrefix(pat, path, n);
      }
      return None;
    }
    forall n
      ensures DerivesPrefix(pat, path, n)
              <==> 0 < n <= |path| && Matches(pat[0], path[0]) && DerivesPrefix(pat[1..], path[1..], n - 1)
    {
      SegmentPrefix(pat, path, n);
    }
    if path == [] {
      return None;
    }
    var first := SegmentMatches(pat[0], path[0]);
    if !first {
      return None;
    }
    var rest := MatchPrefix(pat[1..], path[1..]);
    return if rest.Some? then Some(1 + rest.value) else None;
  }

  // ---------- Patterns ----------

  /** Segment-level verdict: a file pattern must describe the whole path, a
      directory pattern's longest match must leave at least one segment. */
  ghost predicate SegmentsCover(segs: seq<string>, path: seq<string>, dirOnly: bool) {
    if dirOnly then exists n :: n < |path| && IsLongest(segs, path, n)
    else Derives(segs, path)
  }

  datatype Shape = Shape(segs: seq<string>, dirOnly: bool, anchored: bool)

  /** A trimmed pattern's segments; it is anchored when a `/` occurs anywhere
      but at its end. */
  function ShapeOf(p: string): Shape
    requires p != ""
  {
    var body := TrimEnd(p, '/');
    var core := TrimStart(body, '/');
    Shape(Split(core, '/'), p[|p| - 1] == '/', (body != "" && body[0] == '/') || '/' in core)
  }

  ghost predicate Covers(pattern: string, path: string) {
    var p := Trim(pattern);
    && p != ""
    && (p == "*"
        || var Shape(segs, dirOnly, anchored) := ShapeOf(p);
           CoverFrom(segs, Split(path, '/'), dirOnly, anchored))
  }

  /** At the root of the path if anchored, else at any offset. */
  ghost predicate CoverFrom(segs: seq<string>, comps: seq<string>, dirOnly: bool, anchored: bool) {
    if anchored then SegmentsCover(segs, comps, dirOnly)
    else exists start | 0 <= start < |comps| :: SegmentsCover(segs, comps[start..], dirOnly)
  }

  /** `p[i..j]` is what is left of `p` without the slashes at either end. */
  predicate IsCore(p: string, i: nat, j: nat) {
    && i < j <= |p| && p[i] != '/' && p[j - 1] != '/'
    && (forall k | 0 <= k < i :: p[k] == '/') && (forall k | j <= k < |p| :: p[k] == '/')
  }

  lemma TrimsOfCore(p: string, i: nat, j: nat)
    requires IsCore(p, i, j)
    ensures TrimEnd(p, '/') == p[..j] && TrimStart(p[..j], '/') == p[i..j]
  {
    hide TrimEnd, TrimStart;
    var body := TrimEnd(p, '/');
    assert body == p[..|body|];
    var core := TrimStart(body, '/');
    var cut := |body| - |core|;
    assert core == body[cut..];
  }

  /** How a pattern is read: its segments are what lies between the slashes at
      either end, a slash at the end makes it a directory, and any other slash
      anchors it. */
  lemma ShapeOfCore(p: string, i: nat, j: nat)
    requires IsCore(p, i, j)
    ensures ShapeOf(p).segs == Split(p[i..j], '/')
    ensures ShapeOf(p).dirOnly <==> j < |p|
    ensures ShapeOf(p).anchored <==> i > 0 || '/' in p[i..j]
  {
    hide TrimEnd, TrimStart, Split;
    TrimsOfCore(p, i, j);
  }

  lemma CoreOf(p: string, c: nat) returns (i: nat, j: nat)
    requires c < |p| && p[c] != '/'
    ensures IsCore(p, i, j)
  {
    i, j := c, c + 1;
    var first, last := c, c + 1;
    while first > 0
      invariant 0 <= first <= i <= c && p[i] != '/' && forall k | first <= k < i :: p[k] == '/'
    {
      first := first - 1;
      i := if p[first] != '/' then first else i;
    }
    while last < |p|
      invariant c < j <= last <= |p| && p[j - 1] != '/' && forall k | j <= k < last :: p[k] == '/'
    {
      j := if p[last] != '/' then last + 1 else j;
      last := last + 1;
    }
  }

  lemma {:induction false} NothingLeft(p: string)
    requires forall k | 0 <= k < |p| :: p[k] == '/'
    ensures TrimEnd(p, '/') == ""
  {
    if p != "" {
      NothingLeft(p[..|p| - 1]);
    }
  }

  /** The same without naming the cuts: the segments joined are the pattern without
      the slashes at either end, and it is anchored exactly when something other than
      slashes comes after some slash. */
  lemma ShapeMeans(p: string)
    requires p != ""
    ensures var Shape(segs, dirOnly, anchored) := ShapeOf(p);
            && segs != [] && (forall k | 0 <= k < |segs| :: '/' !in segs[k])
            && (dirOnly <==> p[|p| - 1] == '/')
            && (anchored <==> exists k, l :: 0 <= k < l < |p| && p[k] == '/' && p[l] != '/')
    ensures Join(ShapeOf(p).segs, '/') == "" <==> forall k | 0 <= k < |p| :: p[k] == '/'
    ensures Join(ShapeOf(p).segs, '/') != "" ==>
              exists i: nat, j: nat :: IsCore(p, i, j) && Join(ShapeOf(p).segs, '/') == p[i..j]
  {
    hide Split;
    if forall k | 0 <= k < |p| :: p[k] == '/' {
      NothingLeft(p);
      assert TrimStart("", '/') == "" && Join([""], '/') == "";
    } else {
      var c :| 0 <= c < |p| && p[c] != '/';
      var i, j := CoreOf(p, c);
      ShapeOfCore(p, i, j);
      JoinOfSplit(p[i..j], '/');
      AnchoringSlash(p, i, j);
    }
  }

  lemma AnchoringSlash(p: string, i: nat, j: nat)
    requires IsCore(p, i, j)
    ensures i > 0 || '/' in p[i..j] <==> exists k, l :: 0 <= k < l < |p| && p[k] == '/' && p[l] != '/'
  {
    if i > 0 {
      assert p[0] == '/';
    } else if k :| 0 <= k < j - i && p[i..j][k] == '/' {
      assert p[i + k] == '/';
    } else {
      forall k | i <= k < j
        ensures p[k] != '/'
      {
        assert p[i..j][k - i] == p[k];
      }
    }
  }

  lemma ManySegments(core: string)
    ensures |Split(core, '/')| > 1 <==> '/' in core
  {
    hide Split;
    JoinOfSplit(core, '/');
  }

  /** On pattern strings: a pattern covers what the segments between its outer slashes
      do, at the root if a slash leads or separates them and at any offset otherwise,
      as a directory if a slash trails. */
  lemma CoversByCore(p: string, i: nat, j: nat, path: string)
    requires IsCore(p, i, j) && p != "*" && !IsSpace(p[0]) && !IsSpace(p[|p| - 1])
    ensures var segs := Split(p[i..j], '/');
            Covers(p, path) <==> CoverFrom(segs, Split(path, '/'), j < |p|, i > 0 || |segs| > 1)
  {
    hide ShapeOf, CoverFrom;
    assert Trim(p) == p;
    ShapeOfCore(p, i, j);
    ManySegments(p[i..j]);
    assert ShapeOf(p) == Shape(Split(p[i..j], '/'), j < |p|, i > 0 || '/' in p[i..j]);
  }

  /** Spaces around a pattern do not count; a blank pattern covers nothing and a bare
      star everything. */
  lemma CoversTrimmed(pattern: string, path: string)
    ensures Covers(pattern, path) <==> Covers(Trim(pattern), path)
    ensures AllSpaces(pattern) ==> !Covers(pattern, path)
    ensures Trim(pattern) == "*" ==> Covers(pattern, path)
  {
    assert Trim(Trim(pattern)) == Trim(pattern);
  }

  /** So a leading slash ties a file pattern to the root: its segments must derive
      the whole path. */
  lemma LeadingSlashAnchors(core: string, path: string)
    requires core != "" && core[0] != '/' && core[|core| - 1] != '/' && !IsSpace(core[|core| - 1])
    ensures Covers("/" + core, path) <==> Derives(Split(core, '/'), Split(path, '/'))
  {
    var p := "/" + core;
    assert p[1..|p|] == core && p[|p| - 1] == core[|core| - 1];
    CoversByCore(p, 1, |p|, path);
  }

  /** A pattern that ends in `**` and matches some prefix matches everything. */
  lemma {:induction false} TrailingStarStar(segs: seq<string>, path: seq<string>, n: int)
    requires segs != [] && segs[|segs| - 1] == "**" && DerivesPrefix(segs, path, n)
    ensures DerivesPrefix(segs, path, |path|)
    decreases |segs|
  {
    if segs[0] == "**" {
      StarStarPrefix(segs, path, n);
      var k :| 0 <= k <= n && DerivesPrefix(segs[1..], path[k..], n - k);
      if |segs| == 1 {
        k := |path|;
        assert path[k..][..0] == [];
      } else {
        TrailingStarStar(segs[1..], path[k..], n - k);
      }
      assert DerivesPrefix(segs[1..], path[k..], |path| - k);
      StarStarPrefix(segs, path, |path|);
    } else {
      SegmentPrefix(segs, path, n);
      TrailingStarStar(segs[1..], path[1..], n - 1);
      SegmentPrefix(segs, path, |path|);
    }
  }

  /** What a returned count says about the whole path. */
  lemma WholePath(segs: seq<string>, path: seq<string>)
    ensures Derives(segs, path) <==> DerivesPrefix(segs, path, |path|)
  {
    assert path[..|path|] == path;
  }

  /** `pattern_matches` decides `Covers`; in particular the special case for a
      last segment `**` accepts nothing the whole-path test would not. */
  method PatternMatches(pattern: string, path: string) returns (ok: bool)
    ensures ok <==> Covers(pattern, path)
  {
    var p := Trim(pattern);
    if p == "" {
      return false;
    }
    if p == "*" {
      return true;
    }
    var Shape(segs, dirOnly, anchored) := ShapeOf(p);
    var comps := Split(path, '/');
    if anchored {
      ok := CoversAtRoot(segs, comps, dirOnly);
    } else {
      ok := CoversSomewhere(segs, comps, dirOnly);
    }
  }

  /** The anchored branch, with the special case for a last segment `**`. */
  method CoversAtRoot(segs: seq<string>, comps: seq<string>, dirOnly: bool) returns (ok: bool)
    requires segs != []
    ensures ok <==> SegmentsCover(segs, comps, dirOnly)
  {
    WholePath(segs, comps);
    var m := MatchPrefix(segs, comps);
    match m
    case None =>
      return false;
    case Some(consumed) =>
      if dirOnly {
        return consumed < |comps|;
      }
      if segs[|segs| - 1] == "**" {
        TrailingStarStar(segs, comps, consumed);
      }
      return consumed == |comps| || segs[|segs| - 1] == "**";
  }

  /** The floating branch: every start offset is tried. */
  method CoversSomewhere(segs: seq<string>, comps: seq<string>, dirOnly: bool) returns (ok: bool)
    ensures ok <==> exists start | 0 <= start < |comps| :: SegmentsCover(segs, comps[start..], dirOnly)
  {
    for start := 0 to |comps|
      invariant forall s | 0 <= s < start :: !SegmentsCover(segs, comps[s..], dirOnly)
    {
      WholePath(segs, comps[start..]);
      var m := MatchPrefix(segs, comps[start..]);
      if m.Some? {
        var total := start + m.value;
        var good := if dirOnly then total < |comps| else total == |comps|;
        if good {
          assert SegmentsCover(segs, comps[start..], dirOnly);
          return true;
        }
      }
    }
    return false;
  }

  // ---------- What a directory pattern really means ----------

  /** The documented reading: some proper prefix of the path is the directory. */
  ghost predicate UnderDirectory(segs: seq<string>, path: seq<string>) {
    exists n :: n < |path| && DerivesPrefix(segs, path, n)
  }

  ghost function LongestBelow(segs: seq<string>, path: seq<string>, bound: nat): (r: Option<nat>)
    ensures r.Some? ==> r.value < bound && DerivesPrefix(segs, path, r.value)
    ensures forall m | 0 <= m < bound && DerivesPrefix(segs, path, m) :: r.Some? && m <= r.value
  {
    if bound == 0 then None
    else if DerivesPrefix(segs, path, bound - 1) then Some(bound - 1)
    else LongestBelow(segs, path, bound - 1)
  }

  /** The code deviates from the documented reading exactly when the pattern
      also describes the whole path. */
  lemma DirectoryPatternExactly(segs: seq<string>, path: seq<string>)
    ensures SegmentsCover(segs, path, true) <==> UnderDirectory(segs, path) && !Derives(segs, path)
  {
    WholePath(segs, path);
    if UnderDirectory(segs, path) && !Derives(segs, path) {
      var best := LongestBelow(segs, path, |path|);
      assert IsLongest(segs, path, best.value);
    }
  }

  /** Without `**` a pattern fixes the number of segments it consumes. */
  lemma {:induction false} FixedLength(segs: seq<string>, path: seq<string>)
    requires "**" !in segs && Derives(segs, path)
    ensures |path| == |segs|
  {
    if segs != [] {
      FixedLength(segs[1..], path[1..]);
    }
  }

  /** So directory patterns without `**` mean what the documentation says. */
  lemma DirectoryPatternWithoutStarStar(segs: seq<string>, path: seq<string>)
    requires "**" !in segs
    ensures SegmentsCover(segs, path, true) <==> UnderDirectory(segs, path)
  {
    DirectoryPatternExactly(segs, path);
    if UnderDirectory(segs, path) && Derives(segs, path) {
      var n :| n < |path| && DerivesPrefix(segs, path, n);
      FixedLength(segs, path[..n]);
      FixedLength(segs, path);
      assert false;
    }
  }

  // A literal segment, then a double star, then a trailing slash never covers a
  // file below that directory, although the file does lie under it.
  lemma StarStarDirectoryRejected(first: string, rest: seq<string>)
    requires first != "**" && '*' !in first
    ensures !SegmentsCover([first, "**"], [first] + rest, true)
    ensures rest != [] ==> UnderDirectory([first, "**"], [first] + rest)
  {
    var segs, path := [first, "**"], [first] + rest;
    LiteralMatches(first, first);
    var none := path[..1][1..];
    assert segs[1..] == ["**"] && ["**"][1..] == [] && none == none[0..] == [];
    assert Derives(["**"][1..], none[0..]);
    assert Derives(["**"], none);
    assert DerivesPrefix(segs, path, 1);
    TrailingStarStar(segs, path, 1);
    WholePath(segs, path);
    DirectoryPatternExactly(segs, path);
  }

  // The same on pattern strings: `name`, a slash, a double star and a slash does
  // not cover the files below `name`, although they do lie under it. With
  // `.github` as the name, the workflow file is not covered.
  lemma StarStarDirectoryCoversNothing(name: string, rest: string)
    requires name != "" && '/' !in name && '*' !in name && !IsSpace(name[0])
    ensures !Covers(name + "/" + "**" + "/", name + "/" + rest)
    ensures UnderDirectory(Split(name + "/" + "**", '/'), Split(name + "/" + rest, '/'))
  {
    StarStarDirectoryShape(name);
    SplitAfterName(name, "**");
    SplitAfterName(name, rest);
    StarStarDirectoryRejected(name, Split(rest, '/'));
  }

  lemma StarStarDirectoryShape(name: string)
    requires name != "" && '/' !in name && !IsSpace(name[0])
    ensures var p := name + "/" + "**" + "/";
            p != "" && p != "*" && Trim(p) == p && ShapeOf(p) == Shape([name, "**"], true, true)
  {
    var body := name + "/" + "**";
    var p := body + "/";
    assert p[0] == name[0] && p[|p| - 1] == '/' && p[..|p| - 1] == body && body[|body| - 1] == '*';
    assert Trim(p) == p && TrimEnd(p, '/') == body && TrimStart(body, '/') == body;
    assert body[|name|] == '/';
    SplitAfterName(name, "**");
  }

  lemma SplitAfterName(name: string, rest: string)
    requires '/' !in name
    ensures Split(name + "/" + rest, '/') == [name] + Split(rest, '/')
  {
    SplitWithHead(name, "/" + rest, '/');
    assert ("/" + rest)[1..] == rest && name + "/" + rest == name + ("/" + rest);
    assert Split("/" + rest, '/') == [""] + Split(rest, '/');
    assert name + "" == name && ([""] + Split(rest, '/'))[1..] == Split(rest, '/');
  }

  /** A double star on its own floats and covers every path; with a trailing slash
      it covers none. */
  lemma LoneStarStar(path: string)
    ensures Covers("**", path) && !Covers("**" + "/", path)
  {
    var comps := Split(path, '/');
    StarStarShapes();
    forall start | 0 <= start < |comps|
      ensures SegmentsCover(["**"], comps[start..], false) && !SegmentsCover(["**"], comps[start..], true)
    {
      StarStarDerivesAll(comps[start..]);
      DirectoryPatternExactly(["**"], comps[start..]);
    }
    assert SegmentsCover(["**"], comps[0..], false);
  }

  lemma StarStarShapes()
    ensures Trim("**") == "**" && Trim("**" + "/") == "**" + "/"
    ensures ShapeOf("**") == Shape(["**"], false, false) && ShapeOf("**" + "/") == Shape(["**"], true, false)
  {
    var file, dir := "**", "**" + "/";
    assert dir[..2] == file;
    assert TrimEnd(file, '/') == file && TrimEnd(dir, '/') == file && TrimStart(file, '/') == file;
  }

  lemma StarStarDerivesAll(path: seq<string>)
    ensures Derives(["**"], path)
  {
    assert ["**"][1..] == [] && path[|path|..] == [];
    assert Derives(["**"][1..], path[|path|..]);
  }

  /** A floating one-segment pattern matches on the last segment as a file
      pattern, and on any earlier segment as a directory pattern. */
  lemma FloatingPattern(seg: string, path: seq<string>, dirOnly: bool)
    requires seg != "**" && path != []
    ensures (exists start | 0 <= start < |path| :: SegmentsCover([seg], path[start..], dirOnly))
            <==> if dirOnly then exists i | 0 <= i < |path| - 1 :: Matches(seg, path[i])
                 else Matches(seg, path[|path| - 1])
  {
    forall start | 0 <= start < |path|
      ensures SegmentsCover([seg], path[start..], dirOnly)
              <==> Matches(seg, path[start]) && (if dirOnly then start < |path| - 1 else start == |path| - 1)
    {
      OneSegment(seg, path[start..], dirOnly);
    }
  }

  lemma OneSegment(seg: string, path: seq<string>, dirOnly: bool)
    requires seg != "**" && path != []
    ensures SegmentsCover([seg], path, dirOnly)
            <==> Matches(seg, path[0]) && (if dirOnly then |path| > 1 else |path| == 1)
  {
    forall n
      ensures DerivesPrefix([seg], path, n) <==> n == 1 && Matches(seg, path[0])
    {
      SegmentPrefix([seg], path, n);
      assert [seg][1..] == [];
    }
    WholePath([seg], path);
    if Matches(seg, path[0]) {
      assert IsLongest([seg], path, 1);
    }
  }

  // ---------- Owning rules ----------

  ghost predicate Owns(r: Rule, path: string) {
    r.owners != [] && Covers(r.pattern, path)
  }

  /** The first rule, in file order, that owns `path`. */
  ghost function FirstOwning(rules: seq<Rule>, path: string): Option<Rule> {
    if rules == [] then None
    else if Owns(rules[0], path) then Some(rules[0])
    else FirstOwning(rules[1..], path)
  }

  method FirstOwningRule(rules: seq<Rule>, path: string) returns (r: Option<Rule>)
    ensures r == FirstOwning(rules, path)
  {
    for i := 0 to |rules|
      invariant FirstOwning(rules, path) == FirstOwning(rules[i..], path)
    {
      assert rules[i..][1..] == rules[i + 1..];
      if rules[i].owners != [] {
        var ok := PatternMatches(rules[i].pattern, path);
        if ok {
          return Some(rules[i]);
        }
      }
    }
    return None;
  }

  method Classify(rules: seq<Rule>) returns (c: Coverage)
    ensures c.workflowsRule == FirstOwning(rules, ".github/workflows/example.yml")
    ensures c.githubRule == FirstOwning(rules, ".github/dependabot.yml")
  {
    var w := FirstOwningRule(rules, WORKFLOW_FILE);
    var g := FirstOwningRule(rules, GITHUB_FILE);
    return Coverage(w, g);
  }

  /** Rule `i` has owners and covers the path, and no earlier one does both. */
  ghost predicate IsFirstOwner(rules: seq<Rule>, path: string, i: nat) {
    && i < |rules| && rules[i].owners != [] && Covers(rules[i].pattern, path)
    && forall j | 0 <= j < i :: rules[j].owners == [] || !Covers(rules[j].pattern, path)
  }

  /** A rule is found exactly when one owns the path; it is the earliest such. */
  lemma {:induction false} FirstOwningSpec(rules: seq<Rule>, path: string) returns (i: nat)
    ensures FirstOwning(rules, path).None? ==> forall r | r in rules :: r.owners == [] || !Covers(r.pattern, path)
    ensures FirstOwning(rules, path).Some? ==> IsFirstOwner(rules, path, i) && rules[i] == FirstOwning(rules, path).value
  {
    i := 0;
    if rules != [] && !Owns(rules[0], path) {
      var rest := rules[1..];
      var k := FirstOwningSpec(rest, path);
      i := k + 1;
      if FirstOwning(rest, path).Some? {
        forall j | 0 <= j < i
          ensures rules[j].owners == [] || !Covers(rules[j].pattern, path)
        {
          assert j > 0 ==> rules[j] == rest[j - 1];
        }
      } else {
        assert forall r | r in rules :: r == rules[0] || r in rest;
      }
    }
  }

  /** Rules later in the file never change the finding. */
  lemma {:induction false} LaterRulesDoNotMatter(rules: seq<Rule>, path: string, later: seq<Rule>)
    requires FirstOwning(rules, path).Some?
    ensures FirstOwning(rules + later, path) == FirstOwning(rules, path)
  {
    if !Owns(rules[0], path) {
      LaterRulesDoNotMatter(rules[1..], path, later);
      assert (rules + later)[1..] == rules[1..] + later;
    }
  }
}
