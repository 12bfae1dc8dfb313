/** Registry URL parsers for npm and PyPI artefacts, as inverses of the printed
    URL forms. */
module Parser {
  import opened Basics
  import opened Text
  import opened Ecosystems

  datatype ParseResult = Pinned(ecosystem: Ecosystem, name: string, version: string) | Metadata

  function DropQuery(path: string): string {
    Split(path, '?')[0]
  }

  // ---------- npm ----------

  function ParseNpm(path: string): ParseResult {
    ParseNpmSegments(Split(TrimStart(DropQuery(path), '/'), '/'))
  }

  function ParseNpmSegments(segs: seq<string>): ParseResult {
    if |segs| == 3 && segs[1] == "-" && segs[0] != "" && segs[2] != "" then
      ParseTarball(segs[0], segs[0], segs[2])
    else if |segs| == 4 && segs[2] == "-" && "@" <= segs[0] && segs[1] != "" && segs[3] != "" then
      ParseTarball(segs[0] + "/" + segs[1], segs[1], segs[3])
    else Metadata
  }

  /** `tarball` must read `<basename>-<version>.tgz` with a nonempty version. */
  function ParseTarball(fullName: string, basename: string, tarball: string): ParseResult {
    if !EndsWith(tarball, ".tgz") then Metadata
    else
      var stem := tarball[..|tarball| - 4];
      var prefix := basename + "-";
      if !(prefix <= stem) || stem[|prefix|..] == "" then Metadata
      else Pinned(Npm, fullName, stem[|prefix|..])
  }

  /** A package name: an optional scope, with its `@`, and a base name. */
  datatype NpmName = NpmName(scope: Option<string>, base: string) {
    function Full(): string {
      if scope.Some? then scope.value + "/" + base else base
    }
    predicate IsWellFormed() {
      && base != "" && '/' !in base && '?' !in base
      && (scope.Some? ==> "@" <= scope.value && '/' !in scope.value && '?' !in scope.value)
    }
  }

  function NpmTarball(n: NpmName, version: string): string {
    n.base + "-" + version + ".tgz"
  }

  function NpmSegments(n: NpmName, version: string): seq<string> {
    if n.scope.Some? then [n.scope.value, n.base, "-", NpmTarball(n, version)]
    else [n.base, "-", NpmTarball(n, version)]
  }

  /** The tarball URL's path, without leading slash. */
  function NpmUrl(n: NpmName, version: string): string {
    Join(NpmSegments(n, version), '/')
  }

  lemma TarballParses(fullName: string, n: NpmName, version: string)
    requires version != ""
    ensures ParseTarball(fullName, n.base, NpmTarball(n, version)) == Pinned(Npm, fullName, version)
  {
    var t := NpmTarball(n, version);
    assert t[|t| - 4..] == ".tgz";
    assert t[..|t| - 4] == n.base + "-" + version;
    assert (n.base + "-" + version)[|n.base + "-"|..] == version;
  }

  lemma TarballPrints(fullName: string, base: string, tarball: string)
    requires ParseTarball(fullName, base, tarball).Pinned?
    ensures var version := ParseTarball(fullName, base, tarball).version;
            version != "" && tarball == NpmTarball(NpmName(None, base), version)
  {
    var stem := tarball[..|tarball| - 4];
    assert stem == base + "-" + stem[|base + "-"|..];
    assert tarball == stem + ".tgz";
  }

  /** Dropping leading slashes and a query from a path that has both. */
  lemma CoreOfPath(slashes: string, core: string, query: string)
    requires AllSlashes(slashes) && core != "" && core[0] != '/' && '?' !in core
    requires query == "" || query[0] == '?'
    ensures TrimStart(DropQuery(slashes + core + query), '/') == core
  {
    SplitWithHead(slashes + core, query, '?');
    assert Split(query, '?')[0] == "";
    assert slashes + core + "" == slashes + core;
    TrimSlashes(slashes, core);
  }

  /** Parsing inverts printing: every well-formed tarball URL, with any leading
      slashes and any query, gives back its name and version. */
  lemma NpmParseOfPrint(n: NpmName, version: string, slashes: string, query: string)
    requires n.IsWellFormed() && version != "" && '/' !in version && '?' !in version
    requires AllSlashes(slashes) && (query == "" || query[0] == '?')
    ensures ParseNpm(slashes + NpmUrl(n, version) + query) == Pinned(Npm, n.Full(), version)
  {
    var segs := NpmSegments(n, version);
    SegmentsRead(n, version);
    SplitOfJoin(segs, '/');
    JoinKeeps(segs, '/', '?');
    JoinHead(segs, '/');
    CoreOfPath(slashes, NpmUrl(n, version), query);
  }

  lemma SegmentsRead(n: NpmName, version: string)
    requires n.IsWellFormed() && version != "" && '/' !in version && '?' !in version
    ensures ParseNpmSegments(NpmSegments(n, version)) == Pinned(Npm, n.Full(), version)
    ensures NpmSegments(n, version)[0] != "" && NpmSegments(n, version)[0][0] != '/'
    ensures forall i | 0 <= i < |NpmSegments(n, version)| ::
              '/' !in NpmSegments(n, version)[i] && '?' !in NpmSegments(n, version)[i]
  {
    var tarball := NpmTarball(n, version);
    TarballFree(n.base, version, '/');
    TarballFree(n.base, version, '?');
    if n.scope.Some? {
      TarballParses(n.scope.value + "/" + n.base, n, version);
    } else {
      TarballParses(n.base, n, version);
    }
  }

  lemma TarballFree(base: string, version: string, c: char)
    requires c !in base && c !in version && c !in "-" && c !in ".tgz"
    ensures c !in base + "-" + version + ".tgz"
  {
  }

  lemma {:induction false} JoinKeeps(parts: seq<string>, sep: char, c: char)
    requires c != sep && forall i | 0 <= i < |parts| :: c !in parts[i]
    ensures c !in Join(parts, sep)
  {
    if |parts| > 1 {
      JoinKeeps(parts[1..], sep, c);
    }
  }

  lemma JoinHead(parts: seq<string>, sep: char)
    requires parts != [] && parts[0] != ""
    ensures Join(parts, sep) != "" && Join(parts, sep)[0] == parts[0][0]
  {
  }

  /** Printing inverts parsing: whatever path is pinned is, apart from leading
      slashes and query, the tarball URL of the result. */
  lemma NpmPrintOfParse(path: string) returns (n: NpmName)
    requires ParseNpm(path).Pinned?
    ensures n.IsWellFormed() && n.Full() == ParseNpm(path).name && ParseNpm(path).version != ""
    ensures TrimStart(DropQuery(path), '/') == NpmUrl(n, ParseNpm(path).version)
  {
    var core := TrimStart(DropQuery(path), '/');
    SplitKeeps(core, '/', '?');
    JoinOfSplit(core, '/');
    n := SegmentsPrint(Split(core, '/'));
  }

  lemma SegmentsPrint(segs: seq<string>) returns (n: NpmName)
    requires ParseNpmSegments(segs).Pinned? && forall i | 0 <= i < |segs| :: '/' !in segs[i] && '?' !in segs[i]
    ensures n.IsWellFormed() && n.Full() == ParseNpmSegments(segs).name && ParseNpmSegments(segs).version != ""
    ensures segs == NpmSegments(n, ParseNpmSegments(segs).version)
  {
    n := if |segs| == 3 then NpmName(None, segs[0]) else NpmName(Some(segs[0]), segs[1]);
    TarballPrints(n.Full(), n.base, segs[|segs| - 1]);
  }

  lemma {:induction false} SplitKeeps(s: string, sep: char, c: char)
    requires c !in s
    ensures forall i | 0 <= i < |Split(s, sep)| :: c !in Split(s, sep)[i]
  {
    if s != "" {
      SplitKeeps(s[1..], sep, c);
    }
  }

  // ---------- PyPI ----------

  predicate StartsWithDigit(s: string) {
    s != "" && '0' <= s[0] <= '9'
  }

  /** The first part at or after `from` that starts with a digit. */
  function VersionIndex(parts: seq<string>, from: nat): (r: Option<nat>)
    requires from <= |parts|
    ensures r.Some? ==> from <= r.value < |parts| && StartsWithDigit(parts[r.value])
    ensures r.Some? ==> forall j | from <= j < r.value :: !StartsWithDigit(parts[j])
    ensures r.None? ==> forall j | from <= j < |parts| :: !StartsWithDigit(parts[j])
    decreases |parts| - from
  {
    if from == |parts| then None
    else if StartsWithDigit(parts[from]) then Some(from)
    else VersionIndex(parts, from + 1)
  }

  /** A file name without extension, cut at its version part. */
  function ReadStem(stem: string): ParseResult {
    ReadParts(Split(stem, '-'))
  }

  function ReadParts(parts: seq<string>): ParseResult
    requires parts != []
  {
    var i := VersionIndex(parts, 1);
    if i.None? || Join(parts[..i.value], '-') == "" then Metadata
    else Pinned(Pypi, Join(parts[..i.value], '-'), parts[i.value])
  }

  /** The file name without its extension. */
  function Stem(filename: string): Option<string> {
    if EndsWith(filename, ".whl") then Some(filename[..|filename| - 4])
    else if EndsWith(filename, ".tar.gz") then Some(filename[..|filename| - 7])
    else if EndsWith(filename, ".zip") then Some(filename[..|filename| - 4])
    else None
  }

  function FileName(path: string): string {
    var segs := Split(DropQuery(path), '/');
    segs[|segs| - 1]
  }

  function PypiResult(path: string): ParseResult {
    var stem := Stem(FileName(path));
    if stem.None? then Metadata else ReadStem(stem.value)
  }

  method ParsePypi(path: string) returns (r: ParseResult)
    ensures r == PypiResult(path)
  {
    var filename := FileName(path);
    if filename == "" {
      return Metadata;
    }
    var stem := Stem(filename);
    if stem.None? {
      return Metadata;
    }
    var parts := Split(stem.value, '-');
    var versionIdx: Option<nat> := None;
    for i := 1 to |parts|
      invariant versionIdx.None? && VersionIndex(parts, 1) == VersionIndex(parts, i)
    {
      if StartsWithDigit(parts[i]) {
        versionIdx := Some(i);
        break;
      }
    }
    if versionIdx.None? {
      return Metadata;
    }
    var i := versionIdx.value;
    var name := Join(parts[..i], '-');
    if name == "" || parts[i] == "" {
      return Metadata;
    }
    return Pinned(Pypi, name, parts[i]);
  }

  lemma {:induction false} JoinAt(parts: seq<string>, i: nat, sep: char)
    requires 0 < i < |parts|
    ensures Join(parts, sep) == Join(parts[..i], sep) + [sep] + Join(parts[i..], sep)
  {
    if i == 1 {
      assert parts[..1] == [parts[0]];
    } else {
      JoinAt(parts[1..], i - 1, sep);
      assert parts[..i][1..] == parts[1..][..i - 1] && parts[1..][i - 1..] == parts[i..];
      assert parts[..i][0] == parts[0];
      var head, mid, tail := parts[0] + [sep], Join(parts[1..][..i - 1], sep), Join(parts[i..], sep);
      assert head + (mid + [sep] + tail) == head + mid + [sep] + tail;
    }
  }

  /** The parts of a printed stem: `suffix` is empty, or a dash and more. */
  lemma PrintedParts(name: seq<string>, version: string, suffix: string) returns (rest: seq<string>)
    requires name != [] && '-' !in version && forall i | 0 <= i < |name| :: '-' !in name[i]
    requires suffix == "" || suffix[0] == '-'
    ensures Split(Join(name, '-') + "-" + (version + suffix), '-') == name + [version] + rest
  {
    VersionAndTags(version, suffix);
    var tail := Split(version + suffix, '-');
    rest := tail[1..];
    var parts := name + tail;
    assert parts == name + [version] + rest;
    JoinAt(parts, |name|, '-');
    assert parts[..|name|] == name && parts[|name|..] == tail;
    JoinOfSplit(version + suffix, '-');
    SplitOfJoin(parts, '-');
  }

  lemma VersionAndTags(version: string, suffix: string)
    requires '-' !in version && (suffix == "" || suffix[0] == '-')
    ensures Split(version + suffix, '-')[0] == version
  {
    SplitWithHead(version, suffix, '-');
    assert version + "" == version;
  }

  /** Parsing inverts printing for sdists (`suffix` empty) and wheels (`suffix` a dash
      and the tags), whatever the name's dashes, if no later name segment starts
      with a digit. */
  lemma StemReadsBack(name: seq<string>, version: string, suffix: string)
    requires name != [] && Join(name, '-') != "" && forall i | 0 <= i < |name| :: '-' !in name[i]
    requires forall i | 0 < i < |name| :: !StartsWithDigit(name[i])
    requires StartsWithDigit(version) && '-' !in version
    requires suffix == "" || suffix[0] == '-'
    ensures ReadStem(Join(name, '-') + "-" + (version + suffix)) == Pinned(Pypi, Join(name, '-'), version)
  {
    var rest := PrintedParts(name, version, suffix);
    PrintedPartsRead(name, version, rest);
  }

  lemma PrintedPartsRead(name: seq<string>, version: string, rest: seq<string>)
    requires name != [] && Join(name, '-') != "" && StartsWithDigit(version)
    requires forall i | 0 < i < |name| :: !StartsWithDigit(name[i])
    ensures ReadParts(name + [version] + rest) == Pinned(Pypi, Join(name, '-'), version)
  {
    var parts := name + [version] + rest;
    assert parts[..|name|] == name && parts[|name|] == version;
    assert forall j | 0 < j < |name| :: parts[j] == name[j];
    PartsRead(parts, |name|);
  }

  lemma PartsRead(parts: seq<string>, i: nat)
    requires 0 < i < |parts| && StartsWithDigit(parts[i]) && forall j | 0 < j < i :: !StartsWithDigit(parts[j])
    requires Join(parts[..i], '-') != ""
    ensures ReadParts(parts) == Pinned(Pypi, Join(parts[..i], '-'), parts[i])
  {
    FirstDigitPart(parts, i);
  }

  lemma FirstDigitPart(parts: seq<string>, i: nat)
    requires 0 < i < |parts| && StartsWithDigit(parts[i]) && forall j | 0 < j < i :: !StartsWithDigit(parts[j])
    ensures VersionIndex(parts, 1) == Some(i)
  {
  }

  /** Printing inverts parsing: a stem that is pinned is the name, a dash and the
      version, followed by nothing or by a dash and more; the version is one
      digit-led part, and no later part of the name starts with a digit. */
  lemma StemPrintsBack(stem: string)
    requires ReadStem(stem).Pinned?
    ensures var Pinned(_, name, version) := ReadStem(stem);
            && name != "" && StartsWithDigit(version) && '-' !in version
            && (stem == name + "-" + version || name + "-" + version + "-" <= stem)
            && (var segs := Split(name, '-'); forall i | 0 < i < |segs| :: !StartsWithDigit(segs[i]))
  {
    var parts := Split(stem, '-');
    JoinOfSplit(stem, '-');
    PartsPrint(parts);
    var i := VersionIndex(parts, 1).value;
    SplitOfJoin(parts[..i], '-');
  }

  lemma PartsPrint(parts: seq<string>)
    requires parts != [] && ReadParts(parts).Pinned?
    ensures var Pinned(_, name, version) := ReadParts(parts);
            Join(parts, '-') == name + "-" + version || name + "-" + version + "-" <= Join(parts, '-')
  {
    var i := VersionIndex(parts, 1).value;
    var name, version := Join(parts[..i], '-'), parts[i];
    JoinAt(parts, i, '-');
    if i + 1 < |parts| {
      var more := Join(parts[i + 1..], '-');
      JoinCons(parts, i);
      assert name + "-" + (version + "-" + more) == name + "-" + version + "-" + more;
    } else {
      assert parts[i..] == [version];
    }
  }

  lemma JoinCons(parts: seq<string>, i: nat)
    requires i + 1 < |parts|
    ensures Join(parts[i..], '-') == parts[i] + "-" + Join(parts[i + 1..], '-')
  {
    assert parts[i..][1..] == parts[i + 1..];
  }

  /** The file name of a URL path with a directory and a query. */
  lemma FileNameOfPath(dir: string, filename: string, query: string)
    requires '?' !in dir && '?' !in filename && '/' !in filename
    requires query == "" || query[0] == '?'
    ensures FileName(dir + "/" + filename + query) == filename
  {
    var path := dir + "/" + filename;
    SplitWithHead(path, query, '?');
    assert path + "" == path;
    LastPiece(dir, filename, '/');
  }

  lemma {:induction false} LastPiece(dir: string, last: string, sep: char)
    requires sep !in last
    ensures var pieces := Split(dir + [sep] + last, sep);
            |pieces| > 1 && pieces[|pieces| - 1] == last
  {
    var s := dir + [sep] + last;
    if dir == "" {
      assert s[1..] == last;
    } else {
      assert s[1..] == dir[1..] + [sep] + last;
      LastPiece(dir[1..], last, sep);
    }
  }

  datatype Artefact = Sdist | Zip | Wheel(tags: string)

  function Tags(a: Artefact): string {
    if a.Wheel? then "-" + a.tags else ""
  }

  function Extension(a: Artefact): string {
    match a
    case Sdist => ".tar.gz"
    case Zip => ".zip"
    case Wheel(_) => ".whl"
  }

  function PypiFileName(name: string, version: string, a: Artefact): string {
    name + "-" + (version + Tags(a)) + Extension(a)
  }

  lemma StemOfPrinted(stem: string, a: Artefact)
    ensures Stem(stem + Extension(a)) == Some(stem)
  {
    var f := stem + Extension(a);
    assert f[|stem|..] == Extension(a) && f[..|stem|] == stem;
    assert f[|f| - 1] == Extension(a)[|Extension(a)| - 1];
  }

  /** The file name is what lies between the last slash and the query. */
  lemma FileNameMeans(path: string) returns (dir: string, query: string)
    ensures path == dir + FileName(path) + query && '/' !in FileName(path) && '?' !in FileName(path)
    ensures dir == "" || dir[|dir| - 1] == '/'
    ensures query == "" || query[0] == '?'
  {
    var parts := Split(path, '?');
    JoinOfSplit(path, '?');
    query := if |parts| == 1 then "" else "?" + Join(parts[1..], '?');
    assert path == parts[0] + query;
    var segs := Split(parts[0], '/');
    JoinOfSplit(parts[0], '/');
    SplitKeeps(parts[0], '/', '?');
    if |segs| == 1 {
      dir := "";
    } else {
      var n := |segs| - 1;
      JoinAt(segs, n, '/');
      assert segs[n..] == [segs[n]];
      dir := Join(segs[..n], '/') + "/";
    }
  }

  /** Printing inverts parsing: a file that is pinned is a wheel, a zip or a gzipped
      tarball of the pinned name and version. */
  lemma PypiPrintOfParse(path: string) returns (suffix: string, extension: string)
    requires PypiResult(path).Pinned?
    ensures extension in {".whl", ".tar.gz", ".zip"} && (suffix == "" || suffix[0] == '-')
    ensures FileName(path) == PypiResult(path).name + "-" + PypiResult(path).version + suffix + extension
  {
    var f := FileName(path);
    var stem := Stem(f).value;
    extension := StemMeans(f);
    suffix := SuffixOf(stem);
  }

  lemma StemMeans(f: string) returns (extension: string)
    requires Stem(f).Some?
    ensures extension in {".whl", ".tar.gz", ".zip"} && f == Stem(f).value + extension
  {
    var n := |Stem(f).value|;
    extension := f[n..];
    assert f == f[..n] + f[n..];
  }

  lemma SuffixOf(stem: string) returns (suffix: string)
    requires ReadStem(stem).Pinned?
    ensures suffix == "" || suffix[0] == '-'
    ensures stem == ReadStem(stem).name + "-" + ReadStem(stem).version + suffix
  {
    StemPrintsBack(stem);
    hide ReadStem;
    var head := ReadStem(stem).name + "-" + ReadStem(stem).version;
    if stem == head {
      suffix := "";
    } else {
      suffix := stem[|head|..];
      assert stem[|head|] == (head + "-")[|head|] == '-';
      assert stem == head + suffix;
    }
  }

  /** Every well-formed sdist or wheel URL gives back its name and version. */
  lemma PypiParseOfPrint(dir: string, name: seq<string>, version: string, a: Artefact, query: string)
    requires name != [] && Join(name, '-') != "" && forall i | 0 <= i < |name| :: '-' !in name[i]
    requires forall i | 0 < i < |name| :: !StartsWithDigit(name[i])
    requires StartsWithDigit(version) && '-' !in version
    requires var f := PypiFileName(Join(name, '-'), version, a); '?' !in dir && '?' !in f && '/' !in f
    requires query == "" || query[0] == '?'
    ensures PypiResult(dir + "/" + PypiFileName(Join(name, '-'), version, a) + query)
         == Pinned(Pypi, Join(name, '-'), version)
  {
    var stem := Join(name, '-') + "-" + (version + Tags(a));
    FileNameOfPath(dir, stem + Extension(a), query);
    StemOfPrinted(stem, a);
    StemReadsBack(name, version, Tags(a));
  }
}
