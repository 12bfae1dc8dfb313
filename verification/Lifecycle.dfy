/** Install-script gate for npm tarballs: the inspector, the two-pass stripper,
    and how they agree. Archives are sequences of decoded entries and JSON is a
    datatype; the codecs are parameters. */
module Lifecycle {
  import opened Basics
  import opened Text

  datatype Json =
    | Null | Bool(b: bool) | Num(text: string) | Str(s: string)
    | Arr(items: seq<Json>) | Obj(fields: map<string, Json>)

  const LIFECYCLE_KEYS: seq<string> := ["preinstall", "install", "postinstall", "prepare"]

  // ---------- Archives ----------

  datatype Component = Normal(name: string) | CurDir | ParentDir | RootDir | Prefix(name: string)
  type EntryPath = seq<Component>

  /** `target` is the link field of the entry's header. */
  datatype Kind =
    | Regular | Directory | OtherKind(code: nat)
    | Symlink(target: Option<string>) | HardLink(target: Option<string>)

  /** An entry whose header is corrupt, or one whose path or body may still turn
      out unreadable (`None`). `size` is what the header declares. */
  datatype TarEntry =
    | BadHeader
    | TarEntry(path: Option<EntryPath>, kind: Kind, size: nat, body: Option<Bytes>)

  /** `size` is the compressed size and `tarSize` the decompressed one; when not
      `complete`, decompression fails after the bytes that hold `entries`. */
  datatype Tarball =
    | NotGzip(size: nat)
    | Gzip(size: nat, tarSize: nat, complete: bool, entries: seq<TarEntry>)

  datatype Limits = Limits(maxCompressed: nat, maxDecompressed: nat, maxEntries: nat, maxEntryBytes: nat)

  /** The libraries behind the code: decoding JSON to a value; decoding it to the
      inspector's record, of which only `scripts` is kept (`None` if the decoder
      refuses or the field is missing); encoding; the path under which the archive
      writer stores an entry (`None` if it refuses); and sizes. */
  datatype Host = Host(
    parse: Bytes -> Option<Json>,
    scriptsOf: Bytes -> Option<Json>,
    render: Json -> Bytes,
    store: EntryPath -> Option<EntryPath>,
    tarSize: seq<TarEntry> -> nat,
    gzSize: seq<TarEntry> -> nat)

  datatype StripError = ENotGzip | TooLarge | TooManyEntries | BadPath | BadTar | IoError
  datatype StripResult = Unchanged | Stripped(tarball: Tarball, stages: seq<string>) | Refused(error: StripError)

  datatype Script = Script(stage: string, body: string)
  datatype InspectResult = Inspected(scripts: seq<Script>) | NotATarball | ReadFailed

  // ---------- Paths ----------

  predicate IsRootPackageJson(p: EntryPath) {
    |p| == 2 && p[1] == Normal("package.json")
  }

  function Depth(p: EntryPath): int {
    if p == [] then 0
    else Depth(p[..|p| - 1]) + match p[|p| - 1] case Normal(_) => 1 case ParentDir => -1 case _ => 0
  }

  /** Relative, and no prefix of the path climbs above its start. */
  ghost predicate Contained(p: EntryPath) {
    && (forall i | 0 <= i < |p| :: !p[i].RootDir? && !p[i].Prefix?)
    && (forall n | 0 <= n <= |p| :: Depth(p[..n]) >= 0)
  }

  /** Where a path leads from the archive's directory; `None` if it is absolute or
      climbs out on the way. */
  function Resolve(p: EntryPath): Option<seq<string>> {
    if p == [] then Some([])
    else
      var before := Resolve(p[..|p| - 1]);
      if before.None? then None
      else
        match p[|p| - 1]
        case Normal(name) => Some(before.value + [name])
        case CurDir => before
        case ParentDir => if before.value == [] then None else Some(before.value[..|before.value| - 1])
        case _ => None
  }

  lemma ContainedSnoc(p: EntryPath, c: Component)
    ensures Contained(p + [c]) <==> Contained(p) && !c.RootDir? && !c.Prefix? && Depth(p + [c]) >= 0
  {
    var q := p + [c];
    assert forall n | 0 <= n <= |p| :: q[..n] == p[..n];
    assert q[..|q|] == q && q[|p|] == c && forall i | 0 <= i < |p| :: q[i] == p[i];
  }

  /** The accepted paths are exactly those that lead to a place inside. */
  lemma {:induction false} ContainedIffResolves(p: EntryPath)
    ensures Contained(p) <==> Resolve(p).Some?
    ensures Contained(p) ==> |Resolve(p).value| == Depth(p)
  {
    if p == [] {
      assert forall n | 0 <= n <= |p| :: p[..n] == [];
    } else {
      hide Contained;
      var init, c := p[..|p| - 1], p[|p| - 1];
      assert p == init + [c];
      ContainedIffResolves(init);
      ContainedSnoc(init, c);
    }
  }

  method ValidateEntryPath(p: EntryPath) returns (ok: bool)
    ensures ok <==> Contained(p)
  {
    if p != [] && p[0].RootDir? {
      return false;
    }
    var depth := 0;
    for i := 0 to |p|
      invariant depth == Depth(p[..i])
      invariant forall j | 0 <= j < i :: !p[j].RootDir? && !p[j].Prefix?
      invariant forall n | 0 <= n <= i :: Depth(p[..n]) >= 0
    {
      assert p[..i + 1][..i] == p[..i];
      match p[i] {
        case Normal(_) => depth := depth + 1;
        case CurDir =>
        case ParentDir =>
          depth := depth - 1;
          if depth < 0 {
            return false;
          }
        case RootDir => return false;
        case Prefix(_) => return false;
      }
    }
    return true;
  }

  // ---------- package.json ----------

  predicate Runs(scripts: map<string, Json>, key: string) {
    key in scripts && scripts[key].Str? && Trim(scripts[key].s) != ""
  }

  function ScriptsUpTo(scripts: map<string, Json>, n: nat): seq<Script>
    requires n <= |LIFECYCLE_KEYS|
  {
    if n == 0 then []
    else
      var key, before := LIFECYCLE_KEYS[n - 1], ScriptsUpTo(scripts, n - 1);
      if Runs(scripts, key) then before + [Script(key, scripts[key].s)] else before
  }

  /** The scripts reported for a record whose `scripts` field is `field`. */
  function ReportedScripts(field: Option<Json>): seq<Script> {
    if field.Some? && field.value.Obj? then ScriptsUpTo(field.value.fields, |LIFECYCLE_KEYS|) else []
  }

  predicate HasInk(s: string) {
    exists i :: 0 <= i < |s| && !IsSpace(s[i])
  }

  function ScriptAt(scripts: map<string, Json>, key: string): seq<Script> {
    if key in scripts && scripts[key].Str? && HasInk(scripts[key].s) then [Script(key, scripts[key].s)] else []
  }

  /** What is reported: in this order, the four stages that hold more than blanks. */
  lemma ReportMeans(scripts: map<string, Json>)
    ensures ReportedScripts(Some(Obj(scripts)))
         == ScriptAt(scripts, "preinstall") + ScriptAt(scripts, "install") + ScriptAt(scripts, "postinstall")
            + ScriptAt(scripts, "prepare")
  {
    forall key
      ensures ScriptAt(scripts, key) == if Runs(scripts, key) then [Script(key, scripts[key].s)] else []
    {
      if key in scripts && scripts[key].Str? {
        assert HasInk(scripts[key].s) <==> Trim(scripts[key].s) != "";
      }
    }
    assert ScriptsUpTo(scripts, 1) == ScriptAt(scripts, "preinstall");
    assert ScriptsUpTo(scripts, 2) == ScriptsUpTo(scripts, 1) + ScriptAt(scripts, "install");
    assert ScriptsUpTo(scripts, 3) == ScriptsUpTo(scripts, 2) + ScriptAt(scripts, "postinstall");
    assert ScriptsUpTo(scripts, 4) == ScriptsUpTo(scripts, 3) + ScriptAt(scripts, "prepare");
  }

  method ParsePackageJson(body: Bytes, host: Host) returns (found: seq<Script>)
    ensures found == ReportedScripts(host.scriptsOf(body))
  {
    found := [];
    var field := host.scriptsOf(body);
    if field.None? || !field.value.Obj? {
      return;
    }
    var scripts := field.value.fields;
    for i := 0 to |LIFECYCLE_KEYS|
      invariant found == ScriptsUpTo(scripts, i)
    {
      var key := LIFECYCLE_KEYS[i];
      if key in scripts && scripts[key].Str? && Trim(scripts[key].s) != "" {
        found := found + [Script(key, scripts[key].s)];
      }
    }
  }

  datatype Mutated = Mutated(bytes: Bytes, stages: seq<string>)

  function PresentUpTo(scripts: map<string, Json>, n: nat): seq<string>
    requires n <= |LIFECYCLE_KEYS|
  {
    if n == 0 then []
    else
      var key, before := LIFECYCLE_KEYS[n - 1], PresentUpTo(scripts, n - 1);
      if key in scripts then before + [key] else before
  }

  predicate HasScriptsObject(j: Json) {
    j.Obj? && "scripts" in j.fields && j.fields["scripts"].Obj?
  }

  /** The package with every lifecycle key gone from its `scripts` object. */
  function WithoutLifecycle(j: Json): Json
    requires HasScriptsObject(j)
  {
    Obj(j.fields["scripts" := Obj(j.fields["scripts"].fields - set k | k in LIFECYCLE_KEYS)])
  }

  function MutatedJson(j: Option<Json>, host: Host): Option<Mutated> {
    if j.None? || !HasScriptsObject(j.value) then None
    else
      var stages := PresentUpTo(j.value.fields["scripts"].fields, |LIFECYCLE_KEYS|);
      if stages == [] then None else Some(Mutated(host.render(WithoutLifecycle(j.value)), stages))
  }

  method MutatePackageJson(body: Bytes, host: Host) returns (r: Option<Mutated>)
    ensures r == MutatedJson(host.parse(body), host)
  {
    var j := host.parse(body);
    if j.None? || !j.value.Obj? || "scripts" !in j.value.fields || !j.value.fields["scripts"].Obj? {
      return None;
    }
    var original := j.value.fields["scripts"].fields;
    var scripts, stripped := original, [];
    for i := 0 to |LIFECYCLE_KEYS|
      invariant stripped == PresentUpTo(original, i)
      invariant scripts == original - set k | k in LIFECYCLE_KEYS[..i]
    {
      var key := LIFECYCLE_KEYS[i];
      DistinctKeys(i);
      assert LIFECYCLE_KEYS[..i + 1] == LIFECYCLE_KEYS[..i] + [key];
      if key in scripts {
        stripped := stripped + [key];
      }
      scripts := scripts - {key};
    }
    assert LIFECYCLE_KEYS[..|LIFECYCLE_KEYS|] == LIFECYCLE_KEYS;
    if stripped == [] {
      return None;
    }
    return Some(Mutated(host.render(Obj(j.value.fields["scripts" := Obj(scripts)])), stripped));
  }

  function StageAt(scripts: map<string, Json>, key: string): seq<string> {
    if key in scripts then [key] else []
  }

  /** The stages listed: in this order, those of the four that are present. */
  lemma StagesMean(scripts: map<string, Json>)
    ensures PresentUpTo(scripts, |LIFECYCLE_KEYS|)
         == StageAt(scripts, "preinstall") + StageAt(scripts, "install") + StageAt(scripts, "postinstall")
            + StageAt(scripts, "prepare")
  {
    assert PresentUpTo(scripts, 1) == StageAt(scripts, "preinstall");
    assert PresentUpTo(scripts, 2) == PresentUpTo(scripts, 1) + StageAt(scripts, "install");
    assert PresentUpTo(scripts, 3) == PresentUpTo(scripts, 2) + StageAt(scripts, "postinstall");
    assert PresentUpTo(scripts, 4) == PresentUpTo(scripts, 3) + StageAt(scripts, "prepare");
  }

  lemma DistinctKeys(i: nat)
    requires i < |LIFECYCLE_KEYS|
    ensures LIFECYCLE_KEYS[i] !in LIFECYCLE_KEYS[..i]
  {
  }

  lemma {:induction false} PresentMeans(scripts: map<string, Json>, n: nat)
    requires n <= |LIFECYCLE_KEYS|
    ensures PresentUpTo(scripts, n) == [] <==> forall i | 0 <= i < n :: LIFECYCLE_KEYS[i] !in scripts
    ensures PresentUpTo(scripts, n) == [] ==> ScriptsUpTo(scripts, n) == []
  {
    if n > 0 {
      PresentMeans(scripts, n - 1);
    }
  }

  // ---------- The inspector ----------

  /** The first entry, in archive order, that is the root `package.json`. */
  function FirstRootFrom(entries: seq<TarEntry>, from: nat): (r: Option<nat>)
    requires from <= |entries|
    ensures r.Some? ==> from <= r.value < |entries| && IsRootEntry(entries[r.value])
    ensures r.Some? ==> forall i | from <= i < r.value :: !IsRootEntry(entries[i])
    ensures r.None? ==> forall i | from <= i < |entries| :: !IsRootEntry(entries[i])
    decreases |entries| - from
  {
    if from == |entries| then None
    else if IsRootEntry(entries[from]) then Some(from)
    else FirstRootFrom(entries, from + 1)
  }

  predicate IsRootEntry(e: TarEntry) {
    e.TarEntry? && e.path.Some? && IsRootPackageJson(e.path.value)
  }

  function FirstRoot(entries: seq<TarEntry>): Option<nat> {
    FirstRootFrom(entries, 0)
  }

  function Inspection(t: Tarball, host: Host): InspectResult {
    if t.NotGzip? then NotATarball
    else
      var root := FirstRoot(t.entries);
      if root.None? then Inspected([])
      else
        var body := t.entries[root.value].body;
        if body.None? then ReadFailed else Inspected(ReportedScripts(host.scriptsOf(body.value)))
  }

  method InspectNpmTarball(t: Tarball, host: Host) returns (r: InspectResult)
    ensures r == Inspection(t, host)
  {
    if t.NotGzip? {
      return NotATarball;
    }
    for i := 0 to |t.entries|
      invariant FirstRoot(t.entries) == FirstRootFrom(t.entries, i)
    {
      var entry := t.entries[i];
      if entry.BadHeader? || entry.path.None? || !IsRootPackageJson(entry.path.value) {
        continue;
      }
      if entry.body.None? {
        return ReadFailed;
      }
      var scripts := ParsePackageJson(entry.body.value, host);
      return Inspected(scripts);
    }
    return Inspected([]);
  }

  ghost predicate NamesRoot(e: TarEntry) {
    e.TarEntry? && exists dir :: e.path == Some([dir, Normal("package.json")])
  }

  /** Entry `k` is the first `package.json` directly below a top-level directory. */
  ghost predicate IsFirstRoot(entries: seq<TarEntry>, k: nat) {
    k < |entries| && NamesRoot(entries[k]) && forall i | 0 <= i < k :: !NamesRoot(entries[i])
  }

  lemma FirstRootMeans(entries: seq<TarEntry>)
    ensures FirstRoot(entries).Some? ==> IsFirstRoot(entries, FirstRoot(entries).value)
    ensures FirstRoot(entries).None? ==> forall i | 0 <= i < |entries| :: !NamesRoot(entries[i])
    ensures forall k: nat | IsFirstRoot(entries, k) :: FirstRoot(entries) == Some(k)
  {
    forall e
      ensures NamesRoot(e) <==> IsRootEntry(e)
    {
      if IsRootEntry(e) {
        var p := e.path.value;
        assert p == [p[0], Normal("package.json")];
      }
    }
  }

  /** The inspection, case by case. */
  lemma InspectionMeans(t: Tarball, host: Host)
    ensures t.NotGzip? ==> Inspection(t, host) == NotATarball
    ensures t.Gzip? && (forall i | 0 <= i < |t.entries| :: !NamesRoot(t.entries[i])) ==> Inspection(t, host) == Inspected([])
    ensures t.Gzip? ==> forall k: nat | IsFirstRoot(t.entries, k) ::
              if t.entries[k].body.None? then Inspection(t, host) == ReadFailed
              else Inspection(t, host) == Inspected(ReportedScripts(host.scriptsOf(t.entries[k].body.value)))
  {
    if t.Gzip? {
      FirstRootMeans(t.entries);
    }
  }

  // ---------- The stripper, pass one ----------

  /** What both passes check of every entry they reach, in this order. */
  ghost function EntryError(entries: seq<TarEntry>, i: nat, limits: Limits): Option<StripError>
    requires i < |entries|
  {
    var e := entries[i];
    if i >= limits.maxEntries then Some(TooManyEntries)
    else if e.BadHeader? then Some(BadTar)
    else if e.size > limits.maxEntryBytes then Some(TooLarge)
    else if e.path.None? then Some(BadTar)
    else if !Contained(e.path.value) then Some(BadPath)
    else None
  }

  ghost function FirstError(entries: seq<TarEntry>, from: nat, end: nat, limits: Limits): (r: Option<StripError>)
    requires from <= end <= |entries|
    ensures r.None? <==> forall i | from <= i < end :: EntryError(entries, i, limits).None?
    decreases end - from
  {
    if from == end then None
    else if EntryError(entries, from, limits).Some? then EntryError(entries, from, limits)
    else FirstError(entries, from + 1, end, limits)
  }

  method CheckEntry(entries: seq<TarEntry>, i: nat, limits: Limits) returns (r: Option<StripError>)
    requires i < |entries|
    ensures r == EntryError(entries, i, limits)
  {
    var e := entries[i];
    if i >= limits.maxEntries {
      return Some(TooManyEntries);
    }
    if e.BadHeader? {
      return Some(BadTar);
    }
    if e.size > limits.maxEntryBytes {
      return Some(TooLarge);
    }
    if e.path.None? {
      return Some(BadTar);
    }
    var ok := ValidateEntryPath(e.path.value);
    return if ok then None else Some(BadPath);
  }

  datatype ScanResult = NothingToDo | Found(index: nat, mutated: Mutated) | ScanFailed(error: StripError)

  /** Pass one: the rewritten first root `package.json`, if it needs rewriting and
      every entry (up to it, when it does not) passes the checks. */
  ghost function Scan(entries: seq<TarEntry>, limits: Limits, host: Host): ScanResult {
    var root := FirstRoot(entries);
    var reached := if root.Some? then root.value + 1 else |entries|;
    var early := FirstError(entries, 0, reached, limits);
    if early.Some? then ScanFailed(early.value)
    else if root.None? then NothingToDo
    else if entries[root.value].body.None? then ScanFailed(IoError)
    else
      var mutated := MutatedJson(host.parse(entries[root.value].body.value), host);
      if mutated.None? then NothingToDo
      else
        var late := FirstError(entries, reached, |entries|, limits);
        if late.Some? then ScanFailed(late.value) else Found(root.value, mutated.value)
  }

  method RewriteRootPackageJson(entries: seq<TarEntry>, limits: Limits, host: Host) returns (r: ScanResult)
    ensures r == Scan(entries, limits, host)
  {
    ghost var root := FirstRoot(entries);
    ghost var reached := if root.Some? then root.value + 1 else |entries|;
    var found: Option<(nat, Mutated)> := None;
    for count := 0 to |entries|
      invariant found.None? ==> root == FirstRootFrom(entries, count)
      invariant found.None? ==> FirstError(entries, 0, reached, limits) == FirstError(entries, count, reached, limits)
      invariant found.Some? ==>
                  && root == Some(found.value.0) && count >= reached
                  && FirstError(entries, 0, reached, limits).None? && entries[root.value].body.Some?
                  && MutatedJson(host.parse(entries[root.value].body.value), host) == Some(found.value.1)
                  && FirstError(entries, reached, |entries|, limits) == FirstError(entries, count, |entries|, limits)
    {
      var error := CheckEntry(entries, count, limits);
      if error.Some? {
        return ScanFailed(error.value);
      }
      if found.Some? || !IsRootPackageJson(entries[count].path.value) {
        continue;
      }
      var body := entries[count].body;
      if body.None? {
        return ScanFailed(IoError);
      }
      var mutated := MutatePackageJson(body.value, host);
      if mutated.None? {
        return NothingToDo;
      }
      found := Some((count, mutated.value));
    }
    return if found.Some? then Found(found.value.0, found.value.1) else NothingToDo;
  }

  // ---------- The stripper, pass two ----------

  datatype EntryResult = Written(entry: TarEntry) | EntryFailed(error: StripError)
  datatype RebuildResult = Rebuilt(entries: seq<TarEntry>) | RebuildFailed(error: StripError)

  /** One entry as written back: the swapped one with its new body, links and
      directories with none, anything else with its own bytes. */
  function WrittenEntry(e: TarEntry, swap: Option<Bytes>, host: Host): EntryResult
    requires e.TarEntry? && e.path.Some?
  {
    var stored := host.store(e.path.value);
    if swap.Some? then
      if stored.None? then EntryFailed(IoError)
      else Written(TarEntry(stored, e.kind, |swap.value|, swap))
    else if e.kind.Symlink? || e.kind.HardLink? then
      if e.kind.target.None? then EntryFailed(BadTar)
      else if stored.None? then EntryFailed(IoError)
      else Written(TarEntry(stored, e.kind, 0, Some([])))
    else if e.kind.Directory? then
      if stored.None? then EntryFailed(IoError)
      else Written(TarEntry(stored, e.kind, 0, Some([])))
    else if e.body.None? || stored.None? then EntryFailed(IoError)
    else Written(TarEntry(stored, e.kind, |e.body.value|, e.body))
  }

  function SwapAt(i: nat, index: nat, body: Bytes): Option<Bytes> {
    if i == index then Some(body) else None
  }

  ghost function Rebuild(
      entries: seq<TarEntry>, n: nat, index: nat, body: Bytes, limits: Limits, host: Host): (r: RebuildResult)
    requires n <= |entries|
    ensures r.Rebuilt? ==> |r.entries| == n
  {
    if n == 0 then Rebuilt([])
    else
      var before := Rebuild(entries, n - 1, index, body, limits, host);
      if before.RebuildFailed? then before
      else if EntryError(entries, n - 1, limits).Some? then RebuildFailed(EntryError(entries, n - 1, limits).value)
      else
        var w := WrittenEntry(entries[n - 1], SwapAt(n - 1, index, body), host);
        if w.EntryFailed? then RebuildFailed(w.error) else Rebuilt(before.entries + [w.entry])
  }

  method RebuildTar(entries: seq<TarEntry>, index: nat, body: Bytes, limits: Limits, host: Host) returns (r: RebuildResult)
    ensures r == Rebuild(entries, |entries|, index, body, limits, host)
  {
    var out: seq<TarEntry> := [];
    for i := 0 to |entries|
      invariant Rebuild(entries, i, index, body, limits, host) == Rebuilt(out)
    {
      var error := CheckEntry(entries, i, limits);
      if error.Some? {
        FailureSticks(entries, i + 1, |entries|, index, body, limits, host);
        return RebuildFailed(error.value);
      }
      var w := WrittenEntry(entries[i], SwapAt(i, index, body), host);
      if w.EntryFailed? {
        FailureSticks(entries, i + 1, |entries|, index, body, limits, host);
        return RebuildFailed(w.error);
      }
      out := out + [w.entry];
    }
    return Rebuilt(out);
  }

  lemma {:induction false} FailureSticks(
      entries: seq<TarEntry>, m: nat, n: nat, index: nat, body: Bytes, limits: Limits, host: Host)
    requires m <= n <= |entries|
    requires Rebuild(entries, m, index, body, limits, host).RebuildFailed?
    ensures Rebuild(entries, n, index, body, limits, host) == Rebuild(entries, m, index, body, limits, host)
  {
    if m < n {
      FailureSticks(entries, m, n - 1, index, body, limits, host);
    }
  }

  // ---------- The stripper ----------

  ghost function Strip(t: Tarball, limits: Limits, host: Host): StripResult {
    if t.size > limits.maxCompressed then Refused(TooLarge)
    else if t.NotGzip? then Refused(ENotGzip)
    else if t.tarSize > limits.maxDecompressed then Refused(TooLarge)
    else if !t.complete then Refused(IoError)
    else
      match Scan(t.entries, limits, host)
      case ScanFailed(error) => Refused(error)
      case NothingToDo => Unchanged
      case Found(index, mutated) =>
        match Rebuild(t.entries, |t.entries|, index, mutated.bytes, limits, host)
        case RebuildFailed(error) => Refused(error)
        case Rebuilt(entries) =>
          Stripped(Gzip(host.gzSize(entries), host.tarSize(entries), true, entries), mutated.stages)
  }

  method StripNpmTarball(t: Tarball, limits: Limits, host: Host) returns (r: StripResult)
    ensures r == Strip(t, limits, host)
  {
    if t.size > limits.maxCompressed {
      return Refused(TooLarge);
    }
    if t.NotGzip? {
      return Refused(ENotGzip);
    }
    if t.tarSize > limits.maxDecompressed {
      return Refused(TooLarge);
    }
    if !t.complete {
      return Refused(IoError);
    }
    var scan := RewriteRootPackageJson(t.entries, limits, host);
    match scan
    case ScanFailed(error) => return Refused(error);
    case NothingToDo => return Unchanged;
    case Found(index, mutated) =>
      var rebuilt := RebuildTar(t.entries, index, mutated.bytes, limits, host);
      match rebuilt
      case RebuildFailed(error) => return Refused(error);
      case Rebuilt(entries) =>
        return Stripped(Gzip(host.gzSize(entries), host.tarSize(entries), true, entries), mutated.stages);
  }

  // ---------- What the stripper answers, case by case ----------

  ghost predicate SizesFit(t: Tarball, limits: Limits) {
    t.Gzip? && t.complete && t.size <= limits.maxCompressed && t.tarSize <= limits.maxDecompressed
  }

  /** What both passes ask of entry `i`. */
  ghost predicate Passes(e: TarEntry, i: nat, limits: Limits) {
    && i < limits.maxEntries && e.TarEntry? && e.size <= limits.maxEntryBytes
    && e.path.Some? && Contained(e.path.value)
  }

  predicate HasLifecycle(j: Option<Json>) {
    && j.Some? && j.value.Obj? && "scripts" in j.value.fields && j.value.fields["scripts"].Obj?
    && exists key | key in ["preinstall", "install", "postinstall", "prepare"] ::
         key in j.value.fields["scripts"].fields
  }

  /** The writer takes its path, and what is written of it can be read. */
  predicate Writable(e: TarEntry, root: bool, host: Host) {
    && e.TarEntry? && e.path.Some? && host.store(e.path.value).Some?
    && (root || match e.kind
                case Symlink(target) => target.Some?
                case HardLink(target) => target.Some?
                case Directory => true
                case _ => e.body.Some?)
  }

  lemma LifecycleMeans(j: Option<Json>, host: Host)
    ensures MutatedJson(j, host).Some? <==> HasLifecycle(j)
  {
    if j.Some? && HasScriptsObject(j.value) {
      var scripts := j.value.fields["scripts"].fields;
      PresentMeans(scripts, |LIFECYCLE_KEYS|);
      assert forall key :: key in LIFECYCLE_KEYS <==> key in ["preinstall", "install", "postinstall", "prepare"];
      assert forall i | 0 <= i < |LIFECYCLE_KEYS| :: LIFECYCLE_KEYS[i] in LIFECYCLE_KEYS;
    }
  }

  lemma {:induction false} FirstErrorAt(entries: seq<TarEntry>, from: nat, k: nat, end: nat, limits: Limits)
    requires from <= k < end <= |entries| && EntryError(entries, k, limits).Some?
    requires forall i | from <= i < k :: EntryError(entries, i, limits).None?
    ensures FirstError(entries, from, end, limits) == EntryError(entries, k, limits)
    decreases k - from
  {
    if from < k {
      FirstErrorAt(entries, from + 1, k, end, limits);
    }
  }

  lemma PassesMeans(entries: seq<TarEntry>, limits: Limits)
    ensures forall i | 0 <= i < |entries| :: EntryError(entries, i, limits).None? <==> Passes(entries[i], i, limits)
  {
  }

  /** The checks made before any entry is read. */
  lemma RefusedBeforeScan(t: Tarball, limits: Limits, host: Host)
    ensures !SizesFit(t, limits) ==>
              Strip(t, limits, host) == Refused(
                if t.size > limits.maxCompressed then TooLarge
                else if t.NotGzip? then ENotGzip
                else if t.tarSize > limits.maxDecompressed then TooLarge
                else IoError)
  {
  }

  /** Entry `k` is reached by pass one: no `package.json` before it ends the scan. */
  ghost predicate Reached(entries: seq<TarEntry>, k: nat, host: Host) {
    forall r: nat | r < k && IsFirstRoot(entries, r) ::
      entries[r].body.Some? && HasLifecycle(host.parse(entries[r].body.value))
  }

  /** The first entry reached that breaks a rule is refused with the rule's error. */
  lemma RefusedForEntry(t: Tarball, limits: Limits, host: Host, k: nat)
    requires SizesFit(t, limits) && k < |t.entries| && Reached(t.entries, k, host)
    requires !Passes(t.entries[k], k, limits) && forall i | 0 <= i < k :: Passes(t.entries[i], i, limits)
    ensures var e := t.entries[k];
            Strip(t, limits, host) == Refused(
              if k >= limits.maxEntries then TooManyEntries
              else if e.BadHeader? then BadTar
              else if e.size > limits.maxEntryBytes then TooLarge
              else if e.path.None? then BadTar
              else BadPath)
  {
    var root := FirstRoot(t.entries);
    PassesMeans(t.entries, limits);
    FirstRootMeans(t.entries);
    if root.Some? && root.value < k {
      LifecycleMeans(host.parse(t.entries[root.value].body.value), host);
      FirstErrorAt(t.entries, root.value + 1, k, |t.entries|, limits);
    } else {
      FirstErrorAt(t.entries, 0, k, if root.Some? then root.value + 1 else |t.entries|, limits);
    }
  }

  /** Nothing is changed exactly when every entry passes, up to the root
      `package.json` if there is one, and that has no lifecycle script. */
  lemma UnchangedExactly(t: Tarball, limits: Limits, host: Host)
    ensures Strip(t, limits, host).Unchanged?
            <==> && SizesFit(t, limits)
                 && (|| (&& (forall i | 0 <= i < |t.entries| :: !NamesRoot(t.entries[i]))
                         && (forall i | 0 <= i < |t.entries| :: Passes(t.entries[i], i, limits)))
                     || exists k: nat ::
                          && IsFirstRoot(t.entries, k) && (forall i | 0 <= i <= k :: Passes(t.entries[i], i, limits))
                          && t.entries[k].body.Some? && !HasLifecycle(host.parse(t.entries[k].body.value)))
  {
    if SizesFit(t, limits) {
      var root := FirstRoot(t.entries);
      PassesMeans(t.entries, limits);
      FirstRootMeans(t.entries);
      if root.Some? && t.entries[root.value].body.Some? {
        LifecycleMeans(host.parse(t.entries[root.value].body.value), host);
      }
    }
  }

  /** The package that is rewritten, and where: every entry passes. */
  ghost predicate Rewrites(t: Tarball, limits: Limits, host: Host, k: nat) {
    && SizesFit(t, limits) && IsFirstRoot(t.entries, k)
    && (forall i | 0 <= i < |t.entries| :: Passes(t.entries[i], i, limits))
    && t.entries[k].body.Some? && HasLifecycle(host.parse(t.entries[k].body.value))
  }

  lemma ScanFindsExactly(t: Tarball, limits: Limits, host: Host)
    requires SizesFit(t, limits)
    ensures Scan(t.entries, limits, host).Found? ==> Rewrites(t, limits, host, Scan(t.entries, limits, host).index)
    ensures forall k: nat | Rewrites(t, limits, host, k) ::
              Scan(t.entries, limits, host).Found? && Scan(t.entries, limits, host).index == k
  {
    var root := FirstRoot(t.entries);
    PassesMeans(t.entries, limits);
    FirstRootMeans(t.entries);
    if root.Some? && t.entries[root.value].body.Some? {
      LifecycleMeans(host.parse(t.entries[root.value].body.value), host);
    }
  }

  lemma WritableMeans(e: TarEntry, swap: Option<Bytes>, host: Host)
    requires e.TarEntry? && e.path.Some?
    ensures WrittenEntry(e, swap, host).Written? <==> Writable(e, swap.Some?, host)
    ensures !Writable(e, swap.Some?, host) ==>
              WrittenEntry(e, swap, host) == EntryFailed(
                if swap.None? && (e.kind.Symlink? || e.kind.HardLink?) && e.kind.target.None? then BadTar else IoError)
  {
  }

  lemma {:induction false} AllRebuilt(
      entries: seq<TarEntry>, n: nat, index: nat, body: Bytes, limits: Limits, host: Host)
    requires n <= |entries|
    requires forall i | 0 <= i < n :: Passes(entries[i], i, limits) && Writable(entries[i], i == index, host)
    ensures Rebuild(entries, n, index, body, limits, host).Rebuilt?
  {
    if n > 0 {
      AllRebuilt(entries, n - 1, index, body, limits, host);
      PassesMeans(entries, limits);
      WritableMeans(entries[n - 1], SwapAt(n - 1, index, body), host);
    }
  }

  /** The first entry that cannot be written is refused. */
  lemma RefusedForWriting(t: Tarball, limits: Limits, host: Host, root: nat, k: nat)
    requires Rewrites(t, limits, host, root) && k < |t.entries| && !Writable(t.entries[k], k == root, host)
    requires forall i | 0 <= i < k :: Writable(t.entries[i], i == root, host)
    ensures var e := t.entries[k];
            Strip(t, limits, host) == Refused(
              if k != root && (e.kind.Symlink? || e.kind.HardLink?) && e.kind.target.None? then BadTar else IoError)
  {
    ScanFindsExactly(t, limits, host);
    var body := Scan(t.entries, limits, host).mutated.bytes;
    AllRebuilt(t.entries, k, root, body, limits, host);
    PassesMeans(t.entries, limits);
    WritableMeans(t.entries[k], SwapAt(k, root, body), host);
    FailureSticks(t.entries, k + 1, |t.entries|, root, body, limits, host);
  }

  /** A tarball is stripped exactly when its sizes fit, every entry passes, the root
      `package.json` has a lifecycle script and every entry can be written. So no
      stripped tarball has an entry that leads outside, or one too many or too large. */
  lemma StrippedExactly(t: Tarball, limits: Limits, host: Host)
    ensures Strip(t, limits, host).Stripped?
            <==> exists root: nat ::
                   && Rewrites(t, limits, host, root)
                   && forall i | 0 <= i < |t.entries| :: Writable(t.entries[i], i == root, host)
  {
    if SizesFit(t, limits) {
      ScanFindsExactly(t, limits, host);
      if Scan(t.entries, limits, host).Found? {
        var Found(root, mutated) := Scan(t.entries, limits, host);
        if forall i | 0 <= i < |t.entries| :: Writable(t.entries[i], i == root, host) {
          AllRebuilt(t.entries, |t.entries|, root, mutated.bytes, limits, host);
        } else {
          var k := FirstUnwritable(t.entries, root, 0, host);
          RefusedForWriting(t, limits, host, root, k);
        }
      }
    }
  }

  lemma {:induction false} FirstUnwritable(entries: seq<TarEntry>, root: nat, from: nat, host: Host) returns (k: nat)
    requires from <= |entries| && exists i | from <= i < |entries| :: !Writable(entries[i], i == root, host)
    ensures from <= k < |entries| && !Writable(entries[k], k == root, host)
    ensures forall i | from <= i < k :: Writable(entries[i], i == root, host)
    decreases |entries| - from
  {
    k := from;
    if Writable(entries[from], from == root, host) {
      k := FirstUnwritable(entries, root, from + 1, host);
    }
  }

  /** The stages it lists are those of the `package.json` it rewrites. */
  lemma StrippedStages(t: Tarball, limits: Limits, host: Host, root: nat)
    requires Strip(t, limits, host).Stripped? && IsFirstRoot(t.entries, root)
    ensures t.entries[root].body.Some? && HasLifecycle(host.parse(t.entries[root].body.value))
    ensures var scripts := host.parse(t.entries[root].body.value).value.fields["scripts"].fields;
            Strip(t, limits, host).stages
            == StageAt(scripts, "preinstall") + StageAt(scripts, "install") + StageAt(scripts, "postinstall")
               + StageAt(scripts, "prepare")
  {
    FirstRootMeans(t.entries);
    ScanFindsExactly(t, limits, host);
    StagesMean(host.parse(t.entries[root].body.value).value.fields["scripts"].fields);
  }

  // ---------- Inspector and stripper agree ----------

  ghost function RootBody(t: Tarball): Option<Bytes> {
    if t.NotGzip? || FirstRoot(t.entries).None? then None else t.entries[FirstRoot(t.entries).value].body
  }

  ghost function RootJson(t: Tarball, host: Host): Option<Json> {
    if RootBody(t).Some? then host.parse(RootBody(t).value) else None
  }

  /** The size limits hold and no entry up to the root `package.json` fails a check. */
  ghost predicate Admitted(t: Tarball, limits: Limits) {
    && t.Gzip? && t.complete && t.size <= limits.maxCompressed && t.tarSize <= limits.maxDecompressed
    && var root := FirstRoot(t.entries);
       FirstError(t.entries, 0, if root.Some? then root.value + 1 else |t.entries|, limits).None?
  }

  /** The field a record decoder takes from a value: it accepts an object and also
      a one-element array, whose element it reads as the field. */
  function ScriptsField(j: Json): Option<Json> {
    match j
    case Obj(fields) => if "scripts" in fields then Some(fields["scripts"]) else None
    case Arr(items) => if |items| == 1 then Some(items[0]) else None
    case _ => None
  }

  predicate IsObject(j: Option<Json>) {
    j.Some? && j.value.Obj?
  }

  /** Where both decoders accept a text, they read the same `scripts`. Each also
      refuses texts that the other accepts: the value decoder a number out of range,
      a lone surrogate or deep nesting in a field the record skips; the record
      decoder a repeated `scripts` key. */
  predicate DecodersAgreeOn(text: Bytes, host: Host) {
    var value, field := host.parse(text), host.scriptsOf(text);
    value.Some? && field.Some? ==> field == ScriptsField(value.value)
  }

  /** The agreement of inspector and stripper, exactly: a reported tarball is left
      unchanged if and only if it is admitted and the value decoder does not see an
      object in its root `package.json`: it sees an array, or refuses the text. */
  lemma ReportedButUnchanged(t: Tarball, limits: Limits, host: Host)
    requires Inspection(t, host).Inspected? && Inspection(t, host).scripts != []
    requires RootBody(t).Some? ==> DecodersAgreeOn(RootBody(t).value, host)
    ensures RootBody(t).Some?
    ensures var value := host.parse(RootBody(t).value);
            && (Strip(t, limits, host).Unchanged? <==> Admitted(t, limits) && !IsObject(value))
            && (value.None? || value.value.Obj? || value.value.Arr?)
  {
    var body := RootBody(t).value;
    PresentMeans(host.scriptsOf(body).value.fields, |LIFECYCLE_KEYS|);
  }

  lemma {:induction false} ScriptsMean(scripts: map<string, Json>, n: nat)
    requires n <= |LIFECYCLE_KEYS|
    ensures ScriptsUpTo(scripts, n) == [] <==> forall i | 0 <= i < n :: !Runs(scripts, LIFECYCLE_KEYS[i])
  {
    if n > 0 {
      ScriptsMean(scripts, n - 1);
    }
  }

  /** The other way round: a tarball that is stripped was not reported if and only if
      the record decoder refuses its root `package.json`, or none of the lifecycle
      keys it has holds a script. */
  lemma StrippedButUnreported(t: Tarball, limits: Limits, host: Host)
    requires Strip(t, limits, host).Stripped?
    requires RootBody(t).Some? ==> DecodersAgreeOn(RootBody(t).value, host)
    ensures RootJson(t, host).Some? && HasScriptsObject(RootJson(t, host).value)
    ensures Inspection(t, host) == Inspected([])
            <==> || host.scriptsOf(RootBody(t).value).None?
                 || forall key | key in LIFECYCLE_KEYS :: !Runs(RootJson(t, host).value.fields["scripts"].fields, key)
  {
    FoundMeans(t.entries, limits, host);
    var scripts := RootJson(t, host).value.fields["scripts"].fields;
    ScriptsMean(scripts, |LIFECYCLE_KEYS|);
    assert forall i | 0 <= i < |LIFECYCLE_KEYS| :: LIFECYCLE_KEYS[i] in LIFECYCLE_KEYS;
  }

  const DEFAULT_LIMITS := Limits(64 * 1024 * 1024, 256 * 1024 * 1024, 16384, 64 * 1024 * 1024)

  const PACKAGE_JSON: EntryPath := [Normal("package"), Normal("package.json")]
  const INSTALL_SCRIPT: Json := Obj(map["postinstall" := Str("node x.js")])

  function FileAt(path: EntryPath, text: Bytes): TarEntry {
    TarEntry(Some(path), Regular, |text|, Some(text))
  }

  lemma InstallScriptRuns()
    ensures ReportedScripts(Some(INSTALL_SCRIPT)) == [Script("postinstall", "node x.js")]
    ensures PresentUpTo(INSTALL_SCRIPT.fields, |LIFECYCLE_KEYS|) == ["postinstall"]
  {
    var scripts := INSTALL_SCRIPT.fields;
    assert Trim("node x.js") == "node x.js";
    assert LIFECYCLE_KEYS[2] == "postinstall";
    assert ScriptsUpTo(scripts, 2) == [] && PresentUpTo(scripts, 2) == [];
    assert ScriptsUpTo(scripts, 3) == [Script("postinstall", "node x.js")];
    assert PresentUpTo(scripts, 3) == ["postinstall"];
  }

  lemma PackageJsonContained()
    ensures Contained(PACKAGE_JSON) && Contained([CurDir] + PACKAGE_JSON)
  {
    var path, dotted := PACKAGE_JSON, [CurDir] + PACKAGE_JSON;
    assert Depth(path[..0]) == 0;
    assert path[..1][..0] == [] && Depth(path[..1]) == 1;
    assert path[..2][..1] == path[..1] && Depth(path[..2]) == 2;
    assert Depth(dotted[..0]) == 0;
    assert dotted[..1][..0] == [] && Depth(dotted[..1]) == 0;
    assert dotted[..2][..1] == dotted[..1] && Depth(dotted[..2]) == 1;
    assert dotted[..3][..2] == dotted[..2] && Depth(dotted[..3]) == 2;
  }

  /** A tarball that holds one `package.json` in which the inspector reads an install
      script and the value decoder no object is reported, and yet passed through. */
  lemma ReportedAndPassedThrough(text: Bytes, size: nat, tarSize: nat, host: Host)
    requires host.scriptsOf(text) == Some(INSTALL_SCRIPT) && !IsObject(host.parse(text))
    requires size <= DEFAULT_LIMITS.maxCompressed && |text| <= tarSize <= DEFAULT_LIMITS.maxEntryBytes
    ensures var t := Gzip(size, tarSize, true, [FileAt(PACKAGE_JSON, text)]);
            && Inspection(t, host) == Inspected([Script("postinstall", "node x.js")])
            && Strip(t, DEFAULT_LIMITS, host).Unchanged?
  {
    InstallScriptRuns();
    PackageJsonContained();
  }

  /** One such text is an array that holds the scripts, such as
      `[{"postinstall": "node x.js"}]`. */
  lemma ArrayPackageJsonUnchanged(text: Bytes, size: nat, tarSize: nat, host: Host)
    requires host.parse(text) == Some(Arr([INSTALL_SCRIPT]))
    requires host.scriptsOf(text) == ScriptsField(Arr([INSTALL_SCRIPT]))
    requires size <= DEFAULT_LIMITS.maxCompressed && |text| <= tarSize <= DEFAULT_LIMITS.maxEntryBytes
    ensures DecodersAgreeOn(text, host)
    ensures var t := Gzip(size, tarSize, true, [FileAt(PACKAGE_JSON, text)]);
            && Inspection(t, host) == Inspected([Script("postinstall", "node x.js")])
            && Strip(t, DEFAULT_LIMITS, host).Unchanged?
  {
    ReportedAndPassedThrough(text, size, tarSize, host);
  }

  function Ascii(s: string): Bytes {
    seq(|s|, i requires 0 <= i < |s| => (s[i] as int % 128) as byte)
  }

  const OUT_OF_RANGE := "{\"x\":1e999,\"scripts\":{\"postinstall\":\"node x.js\"}}"

  /** Another is an object with a number out of range outside `scripts`, which the
      record decoder skips and the value decoder refuses. */
  lemma OutOfRangePackageJsonUnchanged(size: nat, tarSize: nat, host: Host)
    requires host.parse(Ascii(OUT_OF_RANGE)) == None && host.scriptsOf(Ascii(OUT_OF_RANGE)) == Some(INSTALL_SCRIPT)
    requires size <= DEFAULT_LIMITS.maxCompressed && |OUT_OF_RANGE| <= tarSize <= DEFAULT_LIMITS.maxEntryBytes
    ensures DecodersAgreeOn(Ascii(OUT_OF_RANGE), host)
    ensures var t := Gzip(size, tarSize, true, [FileAt(PACKAGE_JSON, Ascii(OUT_OF_RANGE))]);
            && Inspection(t, host) == Inspected([Script("postinstall", "node x.js")])
            && Strip(t, DEFAULT_LIMITS, host).Unchanged?
  {
    ReportedAndPassedThrough(Ascii(OUT_OF_RANGE), size, tarSize, host);
  }

  const REPEATED := "{\"scripts\":{},\"scripts\":{\"postinstall\":\"node x.js\"}}"

  /** A text that is stripped but not reported: the record decoder refuses the
      repeated key, while the value decoder keeps its last value. */
  lemma RepeatedScriptsUnreported(size: nat, tarSize: nat, host: Host)
    requires host.parse(Ascii(REPEATED)) == Some(Obj(map["scripts" := INSTALL_SCRIPT]))
    requires host.scriptsOf(Ascii(REPEATED)) == None && host.store(PACKAGE_JSON).Some?
    requires size <= DEFAULT_LIMITS.maxCompressed && |REPEATED| <= tarSize <= DEFAULT_LIMITS.maxEntryBytes
    ensures DecodersAgreeOn(Ascii(REPEATED), host)
    ensures var t := Gzip(size, tarSize, true, [FileAt(PACKAGE_JSON, Ascii(REPEATED))]);
            && Inspection(t, host) == Inspected([])
            && Strip(t, DEFAULT_LIMITS, host).Stripped? && Strip(t, DEFAULT_LIMITS, host).stages == ["postinstall"]
  {
    InstallScriptRuns();
    PackageJsonContained();
    var entries := [FileAt(PACKAGE_JSON, Ascii(REPEATED))];
    var value := host.parse(Ascii(REPEATED)).value;
    assert HasScriptsObject(value) && value.fields["scripts"] == INSTALL_SCRIPT;
    assert Scan(entries, DEFAULT_LIMITS, host).Found?;
    RebuiltMeans(entries, 1, 0, Scan(entries, DEFAULT_LIMITS, host).mutated.bytes, DEFAULT_LIMITS, host);
  }

  // ---------- What stripping preserves ----------

  lemma FoundMeans(entries: seq<TarEntry>, limits: Limits, host: Host)
    requires Scan(entries, limits, host).Found?
    ensures var index := Scan(entries, limits, host).index;
            && FirstRoot(entries) == Some(index)
            && entries[index].body.Some?
            && MutatedJson(host.parse(entries[index].body.value), host) == Some(Scan(entries, limits, host).mutated)
            && forall i | 0 <= i < |entries| :: EntryError(entries, i, limits).None?
  {
  }

  lemma {:induction false} RebuiltMeans(
      entries: seq<TarEntry>, n: nat, index: nat, body: Bytes, limits: Limits, host: Host)
    requires n <= |entries|
    ensures var r := Rebuild(entries, n, index, body, limits, host);
            && (r.Rebuilt? ==> forall i | 0 <= i < n ::
                  && EntryError(entries, i, limits).None?
                  && WrittenEntry(entries[i], SwapAt(i, index, body), host) == Written(r.entries[i]))
            && (r.RebuildFailed? ==> exists i | 0 <= i < n ::
                  if EntryError(entries, i, limits).Some? then EntryError(entries, i, limits) == Some(r.error)
                  else WrittenEntry(entries[i], SwapAt(i, index, body), host) == EntryFailed(r.error))
  {
    if n > 0 {
      RebuiltMeans(entries, n - 1, index, body, limits, host);
    }
  }

  /** Once pass one has found something to strip, pass two can fail only because
      the writer refuses a path, a body cannot be read or a link has no target;
      never on an entry count, a size or an unsafe path. */
  lemma PassTwoNeverRechecks(t: Tarball, limits: Limits, host: Host)
    requires t.Gzip? && Scan(t.entries, limits, host).Found? && Strip(t, limits, host).Refused?
    requires t.complete && t.size <= limits.maxCompressed && t.tarSize <= limits.maxDecompressed
    ensures Strip(t, limits, host).error.IoError? || Strip(t, limits, host).error.BadTar?
    ensures exists i | 0 <= i < |t.entries| ::
              var e := t.entries[i];
              && e.TarEntry? && e.path.Some?
              && (host.store(e.path.value).None? || e.body.None?
                  || ((e.kind.Symlink? || e.kind.HardLink?) && e.kind.target.None?))
  {
    var Found(index, mutated) := Scan(t.entries, limits, host);
    FoundMeans(t.entries, limits, host);
    RebuiltMeans(t.entries, |t.entries|, index, mutated.bytes, limits, host);
    var error := Strip(t, limits, host).error;
    var i :| 0 <= i < |t.entries| &&
      WrittenEntry(t.entries[i], SwapAt(i, index, mutated.bytes), host) == EntryFailed(error);
  }

  /** `after` is `before` without some lifecycle keys of its `scripts`, and nothing else changed. */
  ghost predicate OnlyLifecycleRemoved(before: Json, after: Json) {
    && HasScriptsObject(before) && HasScriptsObject(after)
    && before.fields.Keys == after.fields.Keys
    && (forall k | k in before.fields && k != "scripts" :: after.fields[k] == before.fields[k])
    && var was, now := before.fields["scripts"].fields, after.fields["scripts"].fields;
       && (forall k :: k in now <==> k in was && k !in LIFECYCLE_KEYS)
       && (forall k | k in now :: now[k] == was[k])
  }

  ghost predicate IsStripOf(t: Tarball, t': Tarball, limits: Limits, host: Host) {
    Strip(t, limits, host).Stripped? && t' == Strip(t, limits, host).tarball
  }

  /** The bytes written for an entry that is not rewritten: none for links and directories. */
  function KeptBody(e: TarEntry): Option<Bytes>
    requires e.TarEntry?
  {
    if e.kind.Symlink? || e.kind.HardLink? || e.kind.Directory? then Some([]) else e.body
  }

  /** `e'` is `e` under its stored path, with the bytes kept unless it is the root `package.json`. */
  ghost predicate Keeps(e: TarEntry, e': TarEntry, root: bool, host: Host) {
    && e.TarEntry? && e'.TarEntry? && e.path.Some? && e'.path.Some? && e'.body.Some?
    && e'.kind == e.kind && e'.path == host.store(e.path.value) && e'.size == |e'.body.value|
    && (!root ==> e'.body == KeptBody(e))
  }

  lemma WrittenKeeps(e: TarEntry, swap: Option<Bytes>, host: Host)
    requires e.TarEntry? && e.path.Some? && WrittenEntry(e, swap, host).Written?
    ensures Keeps(e, WrittenEntry(e, swap, host).entry, swap.Some?, host)
  {
  }

  /** The value written in place of the root `package.json`, if that has scripts. */
  ghost function NewJson(t: Tarball, host: Host): Option<Json> {
    var before := RootJson(t, host);
    if before.Some? && HasScriptsObject(before.value) then Some(WithoutLifecycle(before.value)) else None
  }

  lemma StrippedMeans(t: Tarball, t': Tarball, limits: Limits, host: Host)
    requires IsStripOf(t, t', limits, host)
    ensures t.Gzip? && t'.Gzip? && t'.complete && |t'.entries| == |t.entries| && FirstRoot(t.entries).Some?
    ensures NewJson(t, host).Some?
    ensures forall i | 0 <= i < |t.entries| ::
              && EntryError(t.entries, i, limits).None?
              && Keeps(t.entries[i], t'.entries[i], i == FirstRoot(t.entries).value, host)
    ensures var e' := t'.entries[FirstRoot(t.entries).value];
            e'.TarEntry? && e'.body == Some(host.render(NewJson(t, host).value))
  {
    var Found(index, mutated) := Scan(t.entries, limits, host);
    FoundMeans(t.entries, limits, host);
    RebuiltMeans(t.entries, |t.entries|, index, mutated.bytes, limits, host);
    forall i | 0 <= i < |t.entries|
      ensures Keeps(t.entries[i], t'.entries[i], i == index, host)
    {
      WrittenKeeps(t.entries[i], SwapAt(i, index, mutated.bytes), host);
    }
  }

  /** The value written is read back from its text. */
  ghost predicate ReadsBack(t: Tarball, host: Host) {
    var after := NewJson(t, host);
    after.Some? ==> host.parse(host.render(after.value)) == after
  }

  /** So are its `scripts`, by the inspector. */
  ghost predicate ScriptsReadBack(t: Tarball, host: Host) {
    var after := NewJson(t, host);
    after.Some? ==> host.scriptsOf(host.render(after.value)) == ScriptsField(after.value)
  }

  /** The output has the same entries in the same order, of the same kinds and
      under the stored paths; every body outside links and directories is kept
      byte for byte, except the root `package.json`, which loses only lifecycle keys. */
  lemma StrippedPreserves(t: Tarball, t': Tarball, limits: Limits, host: Host)
    requires IsStripOf(t, t', limits, host) && ReadsBack(t, host)
    ensures t.Gzip? && t'.Gzip? && |t'.entries| == |t.entries| && FirstRoot(t.entries).Some?
    ensures forall i | 0 <= i < |t.entries| ::
              && EntryError(t.entries, i, limits).None?
              && Keeps(t.entries[i], t'.entries[i], i == FirstRoot(t.entries).value, host)
    ensures var root := FirstRoot(t.entries).value;
            && t'.entries[root].TarEntry? && t.entries[root].body.Some? && t'.entries[root].body.Some?
            && var before, after := host.parse(t.entries[root].body.value), host.parse(t'.entries[root].body.value);
               before.Some? && after.Some? && OnlyLifecycleRemoved(before.value, after.value)
    ensures t' == Gzip(host.gzSize(t'.entries), host.tarSize(t'.entries), true, t'.entries)
  {
    StrippedMeans(t, t', limits, host);
    assert OnlyLifecycleRemoved(RootJson(t, host).value, NewJson(t, host).value);
  }

  // ---------- Inspecting and stripping the output ----------

  predicate IsStoredRoot(e: TarEntry, host: Host) {
    e.TarEntry? && e.path.Some? && host.store(e.path.value).Some? && IsRootPackageJson(host.store(e.path.value).value)
  }

  /** The first entry that is stored as the root `package.json`. */
  function StoredRootFrom(entries: seq<TarEntry>, from: nat, host: Host): (r: Option<nat>)
    requires from <= |entries|
    ensures r.Some? ==> from <= r.value < |entries| && IsStoredRoot(entries[r.value], host)
    ensures r.Some? ==> forall i | from <= i < r.value :: !IsStoredRoot(entries[i], host)
    ensures r.None? ==> forall i | from <= i < |entries| :: !IsStoredRoot(entries[i], host)
    decreases |entries| - from
  {
    if from == |entries| then None
    else if IsStoredRoot(entries[from], host) then Some(from)
    else StoredRootFrom(entries, from + 1, host)
  }

  function StoredRoot(entries: seq<TarEntry>, host: Host): Option<nat> {
    StoredRootFrom(entries, 0, host)
  }

  /** No entry becomes or ceases to be the root `package.json` by being stored. */
  ghost predicate RootsKept(entries: seq<TarEntry>, host: Host) {
    forall i | 0 <= i < |entries| :: IsRootEntry(entries[i]) <==> IsStoredRoot(entries[i], host)
  }

  lemma RootOfOutput(t: Tarball, t': Tarball, limits: Limits, host: Host)
    requires IsStripOf(t, t', limits, host)
    ensures t.Gzip? && t'.Gzip? && FirstRoot(t'.entries) == StoredRoot(t.entries, host)
    ensures RootsKept(t.entries, host) ==> StoredRoot(t.entries, host) == FirstRoot(t.entries)
  {
    StrippedMeans(t, t', limits, host);
    forall i | 0 <= i < |t.entries|
      ensures IsRootEntry(t'.entries[i]) <==> IsStoredRoot(t.entries[i], host)
    {
      assert Keeps(t.entries[i], t'.entries[i], i == FirstRoot(t.entries).value, host);
    }
  }

  /** The entry the output will be inspected by is the rewritten one, or one in
      which the inspector finds nothing; or there is none. */
  ghost predicate ComesOutClean(t: Tarball, host: Host)
    requires t.Gzip?
  {
    var stored := StoredRoot(t.entries, host);
    stored.Some? && stored != FirstRoot(t.entries) ==>
      var body := KeptBody(t.entries[stored.value]);
      body.Some? ==> ReportedScripts(host.scriptsOf(body.value)) == []
  }

  /** When the stripped tarball inspects as free of scripts, exactly; always when
      storing an entry never changes whether it is the root `package.json`. */
  lemma StrippedInspectsClean(t: Tarball, t': Tarball, limits: Limits, host: Host)
    requires IsStripOf(t, t', limits, host) && ScriptsReadBack(t, host)
    ensures t.Gzip? && (Inspection(t', host) == Inspected([]) <==> ComesOutClean(t, host))
    ensures RootsKept(t.entries, host) ==> Inspection(t', host) == Inspected([])
  {
    StrippedMeans(t, t', limits, host);
    RootOfOutput(t, t', limits, host);
    var root, stored := FirstRoot(t.entries), StoredRoot(t.entries, host);
    if stored == root {
      NothingLeft(NewJson(t, host).value.fields["scripts"].fields);
    } else if stored.Some? {
      assert Keeps(t.entries[stored.value], t'.entries[stored.value], false, host);
    }
  }

  lemma NothingLeft(scripts: map<string, Json>)
    requires forall k | k in LIFECYCLE_KEYS :: k !in scripts
    ensures PresentUpTo(scripts, |LIFECYCLE_KEYS|) == [] && ScriptsUpTo(scripts, |LIFECYCLE_KEYS|) == []
  {
    assert forall i | 0 <= i < |LIFECYCLE_KEYS| :: LIFECYCLE_KEYS[i] in LIFECYCLE_KEYS;
    PresentMeans(scripts, |LIFECYCLE_KEYS|);
  }

  /** A path without its leading `.`, the only place where a path read from an
      archive can have one. */
  function WithoutDot(p: EntryPath): EntryPath {
    if |p| > 1 && p[0].CurDir? then p[1..] else p
  }

  /** For a writer that stores some paths without their leading `.` and others, too
      long for the header, as they are: the entries that must not occur are
      `./package.json`, and a `package.json` in a directory written with a leading
      `.`, when they are stored without it. */
  lemma RootsKeptExactly(entries: seq<TarEntry>, host: Host)
    requires forall e | e in entries && e.TarEntry? && e.path.Some? ::
               host.store(e.path.value) in {Some(WithoutDot(e.path.value)), Some(e.path.value)}
    ensures RootsKept(entries, host) <==>
              forall e | e in entries && e.TarEntry? && e.path.Some? ::
                var p := e.path.value;
                2 <= |p| <= 3 && p[0].CurDir? && p[|p| - 1] == Normal("package.json") ==> host.store(p) == Some(p)
  {
  }

  /** A tarball whose output is reported still: of two package files, the first is
      found under its stored path only, and so the second is the one rewritten. */
  lemma StrippedStillReports(first: Bytes, second: Bytes, size: nat, tarSize: nat, host: Host)
    requires host.store([CurDir] + PACKAGE_JSON) == Some(PACKAGE_JSON) && host.store(PACKAGE_JSON) == Some(PACKAGE_JSON)
    requires host.scriptsOf(first) == Some(INSTALL_SCRIPT)
    requires host.parse(second) == Some(Obj(map["scripts" := INSTALL_SCRIPT]))
    requires size <= DEFAULT_LIMITS.maxCompressed && |first| + |second| <= tarSize <= DEFAULT_LIMITS.maxEntryBytes
    ensures var t := Gzip(size, tarSize, true, [FileAt([CurDir] + PACKAGE_JSON, first), FileAt(PACKAGE_JSON, second)]);
            && Strip(t, DEFAULT_LIMITS, host).Stripped?
            && Inspection(Strip(t, DEFAULT_LIMITS, host).tarball, host) == Inspected([Script("postinstall", "node x.js")])
  {
    InstallScriptRuns();
    PackageJsonContained();
    var entries := [FileAt([CurDir] + PACKAGE_JSON, first), FileAt(PACKAGE_JSON, second)];
    var t := Gzip(size, tarSize, true, entries);
    assert FirstRoot(entries) == Some(1);
    assert forall i | 0 <= i < 2 :: EntryError(entries, i, DEFAULT_LIMITS).None?;
    var value := host.parse(second).value;
    assert HasScriptsObject(value) && value.fields["scripts"] == INSTALL_SCRIPT;
    assert Scan(entries, DEFAULT_LIMITS, host).Found?;
    var bytes := Scan(entries, DEFAULT_LIMITS, host).mutated.bytes;
    RebuiltMeans(entries, 2, 1, bytes, DEFAULT_LIMITS, host);
    var t' := Strip(t, DEFAULT_LIMITS, host).tarball;
    RootOfOutput(t, t', DEFAULT_LIMITS, host);
    StrippedMeans(t, t', DEFAULT_LIMITS, host);
    assert Keeps(entries[0], t'.entries[0], false, host);
  }

  /** When a second strip finds nothing to do, exactly: the output is admitted again,
      and the entry it will be inspected by is the rewritten one or has nothing to rewrite. */
  lemma StripTwice(t: Tarball, t': Tarball, limits: Limits, host: Host)
    requires IsStripOf(t, t', limits, host) && ReadsBack(t, host)
    ensures t.Gzip? && FirstRoot(t.entries).Some?
    ensures Strip(t', limits, host).Unchanged? <==>
              && Admitted(t', limits)
              && var stored := StoredRoot(t.entries, host);
                 stored.Some? && stored != FirstRoot(t.entries) ==>
                   var body := KeptBody(t.entries[stored.value]);
                   body.Some? ==> MutatedJson(host.parse(body.value), host).None?
  {
    StrippedMeans(t, t', limits, host);
    RootOfOutput(t, t', limits, host);
    var root, stored := FirstRoot(t.entries), StoredRoot(t.entries, host);
    if stored == root {
      NothingLeft(NewJson(t, host).value.fields["scripts"].fields);
    } else if stored.Some? {
      assert Keeps(t.entries[stored.value], t'.entries[stored.value], false, host);
    }
  }

  /** No stored path leaves the archive's directory. */
  ghost predicate StoredContained(entries: seq<TarEntry>, host: Host) {
    forall i | 0 <= i < |entries| && entries[i].TarEntry? && entries[i].path.Some? ::
      host.store(entries[i].path.value).Some? ==> Contained(host.store(entries[i].path.value).value)
  }

  lemma OutputErrorsAreSizes(t: Tarball, t': Tarball, limits: Limits, host: Host)
    requires IsStripOf(t, t', limits, host) && t.Gzip? && StoredContained(t.entries, host)
    ensures t'.Gzip? && forall i | 0 <= i < |t'.entries| ::
              && t'.entries[i].TarEntry?
              && EntryError(t'.entries, i, limits)
                 == if t'.entries[i].size <= limits.maxEntryBytes then None else Some(TooLarge)
  {
    StrippedMeans(t, t', limits, host);
    forall i | 0 <= i < |t'.entries|
      ensures t'.entries[i].TarEntry?
      ensures EntryError(t'.entries, i, limits)
           == if t'.entries[i].size <= limits.maxEntryBytes then None else Some(TooLarge)
    {
      assert EntryError(t.entries, i, limits).None?;
      assert Keeps(t.entries[i], t'.entries[i], i == FirstRoot(t.entries).value, host);
    }
  }

  /** Stripping is idempotent up to the size limits where storing keeps roots and
      contained paths: a second strip reports nothing to do exactly when the output
      respects the limits, and refuses its size otherwise. */
  lemma StripTwiceBySize(t: Tarball, t': Tarball, limits: Limits, host: Host)
    requires IsStripOf(t, t', limits, host) && ReadsBack(t, host)
    requires t.Gzip? ==> RootsKept(t.entries, host) && StoredContained(t.entries, host)
    ensures t'.Gzip? && FirstRoot(t'.entries).Some?
    ensures Strip(t', limits, host)
         == if && t'.size <= limits.maxCompressed && t'.tarSize <= limits.maxDecompressed
               && forall i | 0 <= i <= FirstRoot(t'.entries).value ::
                    t'.entries[i].TarEntry? && t'.entries[i].size <= limits.maxEntryBytes
            then Unchanged else Refused(TooLarge)
  {
    StripTwice(t, t', limits, host);
    RootOfOutput(t, t', limits, host);
    OutputErrorsAreSizes(t, t', limits, host);
    OnlyTooLarge(t'.entries, 0, FirstRoot(t'.entries).value + 1, limits);
  }

  lemma {:induction false} OnlyTooLarge(entries: seq<TarEntry>, from: nat, end: nat, limits: Limits)
    requires from <= end <= |entries|
    requires forall i | from <= i < end ::
               EntryError(entries, i, limits).Some? ==> EntryError(entries, i, limits) == Some(TooLarge)
    ensures FirstError(entries, from, end, limits).Some? ==> FirstError(entries, from, end, limits) == Some(TooLarge)
    decreases end - from
  {
    if from < end {
      OnlyTooLarge(entries, from + 1, end, limits);
    }
  }
}
