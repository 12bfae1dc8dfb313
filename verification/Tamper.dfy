/** Workspace snapshots and their differences: the walk over a file tree, the
    comparison of two snapshots, and what change can go unnoticed. */
module Tamper {
  import opened Basics

  type Path = seq<Bytes>

  // ---------- File trees ----------

  datatype FileAccess = Hidden | StatOnly | Readable
  datatype DirAccess = Listable | Denied | Broken
  /** What the directory iterator yields for an entry: the entry, the entry
      without its type, or an error. */
  datatype Report = Reported | Untyped | Unlisted

  datatype Node =
    | File(content: Bytes, access: FileAccess)
    | Symlink(target: Bytes, readable: bool)
    | Dir(entries: seq<DirEntry>, mode: DirAccess)
    | Special
  datatype DirEntry = DirEntry(name: Bytes, node: Node, report: Report)

  /** Names are unique within each directory. */
  ghost predicate WellFormed(node: Node) {
    node.Dir? ==>
      && (forall i, j | 0 <= i < j < |node.entries| :: node.entries[i].name != node.entries[j].name)
      && forall i | 0 <= i < |node.entries| :: WellFormed(node.entries[i].node)
  }

  // ---------- Snapshots ----------

  datatype Entry = FileEntry(size: nat, sha256: Option<string>) | SymlinkEntry(target: string)
  type Files = map<Path, Entry>

  /** `lossy` decodes a name or a symlink's target, with a replacement character for
      each part that is not UTF-8. */
  datatype Config = Config(skip: set<string>, maxBytes: nat, hash: Bytes -> string, lossy: Bytes -> string)

  const DEFAULT_SKIP_DIRS: set<string> := {
    ".git", "node_modules", "target", "dist", "build", "vendor",
    "__pycache__", ".venv", "venv", ".next", ".turbo", ".cache"
  }

  const CHUNK: nat := 64 * 1024

  function RecordFile(content: Bytes, cfg: Config): Entry {
    FileEntry(|content|, if |content| <= cfg.maxBytes then Some(cfg.hash(content)) else None)
  }

  predicate FileIsSeen(content: Bytes, access: FileAccess, cfg: Config) {
    access.Readable? || (access.StatOnly? && |content| > cfg.maxBytes)
  }

  /** Size first; the contents are read, chunk by chunk, only below the cap. */
  method SnapshotFile(content: Bytes, access: FileAccess, cfg: Config) returns (r: Option<Entry>)
    ensures r.None? <==> access.Hidden? || (access.StatOnly? && |content| <= cfg.maxBytes)
    ensures r.Some? ==> r.value == FileEntry(|content|, if |content| <= cfg.maxBytes then Some(cfg.hash(content)) else None)
  {
    if access.Hidden? {
      return None;
    }
    var size := |content|;
    if size > cfg.maxBytes {
      return Some(FileEntry(size, None));
    }
    if access.StatOnly? {
      return None;
    }
    var hashed: Bytes, rest := [], content;
    while rest != []
      invariant hashed + rest == content
      decreases |rest|
    {
      var n := if |rest| < CHUNK then |rest| else CHUNK;
      hashed, rest := hashed + rest[..n], rest[n..];
    }
    assert hashed == content;
    return Some(FileEntry(size, Some(cfg.hash(hashed))));
  }

  // The files and the unreadable paths that a walk of `dir`, found at `prefix`, records.

  function EntryFiles(e: DirEntry, prefix: Path, cfg: Config): Files
    decreases e, 0
  {
    var path := prefix + [e.name];
    if !e.report.Reported? then map[]
    else match e.node
      case File(content, access) =>
        if FileIsSeen(content, access, cfg) then map[path := RecordFile(content, cfg)] else map[]
      case Symlink(target, readable) => if readable then map[path := SymlinkEntry(cfg.lossy(target))] else map[]
      case Dir(_, _) => if cfg.lossy(e.name) in cfg.skip then map[] else FilesUnder(e.node, path, cfg)
      case Special => map[]
  }

  function FilesUpTo(dir: Node, n: nat, prefix: Path, cfg: Config): Files
    requires dir.Dir? && n <= |dir.entries|
    decreases dir, n
  {
    if n == 0 then map[]
    else FilesUpTo(dir, n - 1, prefix, cfg) + EntryFiles(dir.entries[n - 1], prefix, cfg)
  }

  function FilesUnder(dir: Node, prefix: Path, cfg: Config): Files
    requires dir.Dir?
    decreases dir, |dir.entries| + 1
  {
    if dir.mode.Listable? then FilesUpTo(dir, |dir.entries|, prefix, cfg) else map[]
  }

  function EntryUnreadable(e: DirEntry, prefix: Path, cfg: Config): seq<Path>
    decreases e, 0
  {
    var path := prefix + [e.name];
    match e.report
    case Unlisted => []
    case Untyped => [path]
    case Reported =>
      match e.node
      case File(content, access) => if FileIsSeen(content, access, cfg) then [] else [path]
      case Symlink(_, readable) => if readable then [] else [path]
      case Dir(_, _) => if cfg.lossy(e.name) in cfg.skip then [] else UnreadableUnder(e.node, path, cfg)
      case Special => []
  }

  function UnreadableUpTo(dir: Node, n: nat, prefix: Path, cfg: Config): seq<Path>
    requires dir.Dir? && n <= |dir.entries|
    decreases dir, n
  {
    if n == 0 then []
    else UnreadableUpTo(dir, n - 1, prefix, cfg) + EntryUnreadable(dir.entries[n - 1], prefix, cfg)
  }

  function UnreadableUnder(dir: Node, prefix: Path, cfg: Config): seq<Path>
    requires dir.Dir?
    decreases dir, |dir.entries| + 1
  {
    match dir.mode
    case Listable => UnreadableUpTo(dir, |dir.entries|, prefix, cfg)
    case Denied => [prefix]
    case Broken => []
  }

  /** No directory the walk enters fails for a reason other than permissions. */
  predicate Walkable(dir: Node, cfg: Config)
    requires dir.Dir?
  {
    && !dir.mode.Broken?
    && (dir.mode.Listable? ==> forall i | 0 <= i < |dir.entries| :: EntryWalkable(dir.entries[i], cfg))
  }

  predicate EntryWalkable(e: DirEntry, cfg: Config) {
    e.report.Reported? && e.node.Dir? && cfg.lossy(e.name) !in cfg.skip ==> Walkable(e.node, cfg)
  }

  class Snapshot {
    var files: Files
    var unreadable: seq<Path>

    constructor ()
      ensures files == map[] && unreadable == []
    {
      files, unreadable := map[], [];
    }
  }

  method Walk(dir: Node, prefix: Path, cfg: Config, snap: Snapshot) returns (ok: bool)
    requires dir.Dir?
    modifies snap
    ensures ok <==> Walkable(dir, cfg)
    ensures ok ==> snap.files == old(snap.files) + FilesUnder(dir, prefix, cfg)
    ensures ok ==> snap.unreadable == old(snap.unreadable) + UnreadableUnder(dir, prefix, cfg)
    decreases dir, 1
  {
    if dir.mode.Denied? {
      snap.unreadable := snap.unreadable + [prefix];
      return true;
    }
    if dir.mode.Broken? {
      return false;
    }
    for n := 0 to |dir.entries|
      invariant forall i | 0 <= i < n :: EntryWalkable(dir.entries[i], cfg)
      invariant snap.files == old(snap.files) + FilesUpTo(dir, n, prefix, cfg)
      invariant snap.unreadable == old(snap.unreadable) + UnreadableUpTo(dir, n, prefix, cfg)
    {
      var e := dir.entries[n];
      var walked := WalkEntry(e, prefix, cfg, snap);
      if !walked {
        return false;
      }
      UnionAssoc(old(snap.files), FilesUpTo(dir, n, prefix, cfg), EntryFiles(e, prefix, cfg));
    }
    return true;
  }

  lemma UnionAssoc(a: Files, b: Files, c: Files)
    ensures a + b + c == a + (b + c)
  {
  }

  /** The body of the walk's loop, for one directory entry. */
  method WalkEntry(e: DirEntry, prefix: Path, cfg: Config, snap: Snapshot) returns (ok: bool)
    modifies snap
    ensures ok <==> EntryWalkable(e, cfg)
    ensures ok ==> snap.files == old(snap.files) + EntryFiles(e, prefix, cfg)
    ensures ok ==> snap.unreadable == old(snap.unreadable) + EntryUnreadable(e, prefix, cfg)
    decreases e, 0
  {
    var path := prefix + [e.name];
    if e.report.Unlisted? {
      return true;
    }
    if e.report.Untyped? {
      snap.unreadable := snap.unreadable + [path];
      return true;
    }
    ok := true;
    match e.node {
      case Dir(_, _) =>
        if cfg.lossy(e.name) !in cfg.skip {
          ok := Walk(e.node, path, cfg, snap);
        }
      case Symlink(target, readable) =>
        if readable {
          snap.files := snap.files[path := SymlinkEntry(cfg.lossy(target))];
        } else {
          snap.unreadable := snap.unreadable + [path];
        }
      case File(content, access) =>
        var entry := SnapshotFile(content, access, cfg);
        if entry.Some? {
          snap.files := snap.files[path := entry.value];
        } else {
          snap.unreadable := snap.unreadable + [path];
        }
      case Special =>
    }
  }

  /** `ok` is false when some directory on the way fails for a reason other than
      permissions; the snapshot is then abandoned. */
  method Take(root: Node, skipExtra: seq<string>, maxBytes: nat, hash: Bytes -> string, lossy: Bytes -> string)
    returns (snap: Snapshot, ok: bool)
    requires root.Dir?
    ensures fresh(snap)
    ensures var cfg := Config(DEFAULT_SKIP_DIRS + (set s | s in skipExtra), maxBytes, hash, lossy);
            && (ok <==> Walkable(root, cfg))
            && (ok ==> snap.files == FilesUnder(root, [], cfg) && snap.unreadable == UnreadableUnder(root, [], cfg))
            && (ok <==> forall p :: !BrokenAt(root, p, cfg))
            && (ok ==> forall p :: p in snap.unreadable <==> UnreadableAt(root, p, cfg))
  {
    snap := new Snapshot();
    var cfg := Config(DEFAULT_SKIP_DIRS + (set s | s in skipExtra), maxBytes, hash, lossy);
    ok := Walk(root, [], cfg, snap);
    WalkableExactly(root, cfg);
    forall p ensures p in UnreadableUnder(root, [], cfg) <==> UnreadableAt(root, p, cfg) {
      UnreadableIsExact(root, cfg, p);
    }
    assert map[] + FilesUnder(root, [], cfg) == FilesUnder(root, [], cfg);
  }

  // ---------- What a walk sees at one path ----------

  datatype Seen = SeenFile(content: Bytes) | SeenLink(target: Bytes)

  /** The regular file or symlink that really is at `p`, found by name. */
  function Actual(dir: Node, n: nat, p: Path): Option<Seen>
    requires dir.Dir? && n <= |dir.entries|
    decreases dir, n
  {
    if n == 0 || p == [] then None
    else
      var e := dir.entries[n - 1];
      if e.name != p[0] then Actual(dir, n - 1, p)
      else if |p| == 1 then Contents(e.node)
      else if e.node.Dir? then Actual(e.node, |e.node.entries|, p[1..]) else None
  }

  function Contents(node: Node): Option<Seen> {
    match node
    case File(content, _) => Some(SeenFile(content))
    case Symlink(target, _) => Some(SeenLink(target))
    case _ => None
  }

  /** Every directory on the way to `p` is listable and not skipped, and what is
      there can be read. */
  predicate Accessible(dir: Node, n: nat, p: Path, cfg: Config)
    requires dir.Dir? && n <= |dir.entries|
    decreases dir, n
  {
    && dir.mode.Listable? && n > 0 && p != []
    && var e := dir.entries[n - 1];
       if e.name != p[0] then Accessible(dir, n - 1, p, cfg)
       else
         && e.report.Reported?
         && if |p| == 1 then
              match e.node
              case File(content, access) => FileIsSeen(content, access, cfg)
              case Symlink(_, readable) => readable
              case _ => false
            else e.node.Dir? && cfg.lossy(e.name) !in cfg.skip && Accessible(e.node, |e.node.entries|, p[1..], cfg)
  }

  function At(root: Node, p: Path): Option<Seen>
    requires root.Dir?
  {
    Actual(root, |root.entries|, p)
  }

  predicate Reaches(root: Node, p: Path, cfg: Config)
    requires root.Dir?
  {
    Accessible(root, |root.entries|, p, cfg)
  }

  function Record(seen: Seen, cfg: Config): Entry {
    match seen
    case SeenFile(content) => RecordFile(content, cfg)
    case SeenLink(target) => SymlinkEntry(cfg.lossy(target))
  }

  /** The part of `files` recorded at `prefix + p` is what is really at `p`, if reachable. */
  ghost predicate RecordsAt(files: Files, prefix: Path, p: Path, reaches: bool, actual: Option<Seen>, cfg: Config) {
    if reaches then actual.Some? && prefix + p in files && files[prefix + p] == Record(actual.value, cfg)
    else prefix + p !in files
  }

  lemma {:induction false} EntryRecords(e: DirEntry, prefix: Path, p: Path, cfg: Config)
    requires WellFormed(e.node)
    ensures var dir := Dir([e], Listable);
            RecordsAt(EntryFiles(e, prefix, cfg), prefix, p, Accessible(dir, 1, p, cfg), Actual(dir, 1, p), cfg)
    decreases e, 0
  {
    var path, dir := prefix + [e.name], Dir([e], Listable);
    assert dir.entries[0] == e && !Accessible(dir, 0, p, cfg);
    var here := p != [] && p[0] == e.name;
    HeadOfPath(prefix, e.name, p);
    if e.report.Reported? && e.node.Dir? && cfg.lossy(e.name) !in cfg.skip {
      KeysUnder(e.node, path, cfg);
      if here {
        assert prefix + p == path + p[1..];
        UnderRecords(e.node, path, p[1..], cfg);
        assert |p| == 1 ==> !Accessible(e.node, |e.node.entries|, p[1..], cfg);
      }
    } else if here && |p| == 1 {
      assert p == [e.name];
    }
  }

  lemma HeadOfPath(prefix: Path, name: Bytes, p: Path)
    ensures prefix + [name] <= prefix + p <==> p != [] && p[0] == name
    ensures prefix + [name] == prefix + p <==> p == [name]
  {
    if prefix + [name] <= prefix + p {
      assert (prefix + p)[|prefix|] == (prefix + [name])[|prefix|] == name;
    }
  }

  /** Everything recorded under a directory has the directory's path as a proper prefix. */
  lemma {:induction false} KeysUpTo(dir: Node, n: nat, prefix: Path, cfg: Config)
    requires dir.Dir? && n <= |dir.entries|
    ensures forall q | q in FilesUpTo(dir, n, prefix, cfg) :: prefix < q
    decreases dir, n
  {
    if n > 0 {
      var e := dir.entries[n - 1];
      KeysUpTo(dir, n - 1, prefix, cfg);
      var path := prefix + [e.name];
      if e.node.Dir? {
        KeysUnder(e.node, path, cfg);
      }
      assert forall q | q in EntryFiles(e, prefix, cfg) :: path <= q;
    }
  }

  lemma {:induction false} KeysUnder(dir: Node, prefix: Path, cfg: Config)
    requires dir.Dir?
    ensures forall q | q in FilesUnder(dir, prefix, cfg) :: prefix < q
    decreases dir, |dir.entries| + 1
  {
    KeysUpTo(dir, |dir.entries|, prefix, cfg);
  }

  lemma {:induction false} NameAbsent(dir: Node, n: nat, p: Path, cfg: Config)
    requires dir.Dir? && n <= |dir.entries| && p != []
    requires forall i | 0 <= i < n :: dir.entries[i].name != p[0]
    ensures Actual(dir, n, p) == None && !Accessible(dir, n, p, cfg)
  {
    if n > 0 {
      NameAbsent(dir, n - 1, p, cfg);
    }
  }

  lemma {:induction false} UpToRecords(dir: Node, n: nat, prefix: Path, p: Path, cfg: Config)
    requires dir.Dir? && dir.mode.Listable? && WellFormed(dir) && n <= |dir.entries|
    ensures RecordsAt(FilesUpTo(dir, n, prefix, cfg), prefix, p, Accessible(dir, n, p, cfg), Actual(dir, n, p), cfg)
    decreases dir, n
  {
    if n > 0 {
      var e := dir.entries[n - 1];
      UpToRecords(dir, n - 1, prefix, p, cfg);
      EntryRecords(e, prefix, p, cfg);
      var one := Dir([e], Listable);
      assert one.entries[0] == e && !Accessible(one, 0, p, cfg);
      if p != [] && e.name == p[0] {
        NameAbsent(dir, n - 1, p, cfg);
      }
    }
  }

  lemma {:induction false} UnderRecords(dir: Node, prefix: Path, p: Path, cfg: Config)
    requires dir.Dir? && WellFormed(dir)
    ensures RecordsAt(FilesUnder(dir, prefix, cfg), prefix, p,
                      Accessible(dir, |dir.entries|, p, cfg), Actual(dir, |dir.entries|, p), cfg)
    decreases dir, |dir.entries| + 1
  {
    if dir.mode.Listable? {
      UpToRecords(dir, |dir.entries|, prefix, p, cfg);
    }
  }

  /** A snapshot records exactly the reachable files and symlinks. */
  lemma SnapshotIsExact(root: Node, cfg: Config, p: Path)
    requires root.Dir? && WellFormed(root)
    ensures var files := FilesUnder(root, [], cfg);
            if Reaches(root, p, cfg)
            then At(root, p).Some? && p in files && files[p] == Record(At(root, p).value, cfg)
            else p !in files
  {
    UnderRecords(root, [], p, cfg);
    assert [] + p == p;
  }

  // ---------- What a walk cannot read ----------

  /** The walk meets something at `p` that it cannot read: `dir` itself, which denies
      listing, or what an entry of it leads to. */
  ghost predicate UnreadableAt(dir: Node, p: Path, cfg: Config)
    requires dir.Dir?
    decreases dir, 1
  {
    if p == [] then dir.mode == Denied
    else
      && dir.mode == Listable
      && exists i | 0 <= i < |dir.entries| ::
           dir.entries[i].name == p[0] && EntryUnreadableAt(dir.entries[i], p[1..], cfg)
  }

  /** An entry without a type, a file or symlink that cannot be read, or a directory
      not skipped and something it leads to. */
  ghost predicate EntryUnreadableAt(e: DirEntry, rest: Path, cfg: Config)
    decreases e, 0
  {
    match e.report
    case Unlisted => false
    case Untyped => rest == []
    case Reported =>
      match e.node
      case File(content, access) => rest == [] && (access == Hidden || (access == StatOnly && |content| <= cfg.maxBytes))
      case Symlink(_, readable) => rest == [] && !readable
      case Dir(_, _) => cfg.lossy(e.name) !in cfg.skip && UnreadableAt(e.node, rest, cfg)
      case Special => false
  }

  /** The walk enters a directory at `p` that fails for a reason other than permissions. */
  ghost predicate BrokenAt(dir: Node, p: Path, cfg: Config)
    requires dir.Dir?
    decreases dir
  {
    if p == [] then dir.mode == Broken
    else
      && dir.mode == Listable
      && exists i | 0 <= i < |dir.entries| ::
           var e := dir.entries[i];
           && e.name == p[0] && e.report == Reported && e.node.Dir? && cfg.lossy(e.name) !in cfg.skip
           && BrokenAt(e.node, p[1..], cfg)
  }

  lemma {:induction false} EntryUnreadableMeans(e: DirEntry, prefix: Path, q: Path, cfg: Config)
    ensures q in EntryUnreadable(e, prefix, cfg)
            <==> exists rest :: q == prefix + [e.name] + rest && EntryUnreadableAt(e, rest, cfg)
    decreases e, 0
  {
    var path := prefix + [e.name];
    assert path + [] == path;
    if e.report.Reported? && e.node.Dir? && cfg.lossy(e.name) !in cfg.skip {
      UnreadableMeans(e.node, path, q, cfg);
    } else if q in EntryUnreadable(e, prefix, cfg) {
      assert q == prefix + [e.name] + [] && EntryUnreadableAt(e, [], cfg);
    }
  }

  lemma {:induction false} UnreadableUpToMeans(dir: Node, n: nat, prefix: Path, q: Path, cfg: Config)
    requires dir.Dir? && n <= |dir.entries|
    ensures q in UnreadableUpTo(dir, n, prefix, cfg)
            <==> exists i | 0 <= i < n :: q in EntryUnreadable(dir.entries[i], prefix, cfg)
  {
    if n > 0 {
      UnreadableUpToMeans(dir, n - 1, prefix, q, cfg);
    }
  }

  lemma {:induction false} UnreadableMeans(dir: Node, prefix: Path, q: Path, cfg: Config)
    requires dir.Dir?
    ensures q in UnreadableUnder(dir, prefix, cfg) <==> exists p :: q == prefix + p && UnreadableAt(dir, p, cfg)
    decreases dir, 1
  {
    assert prefix + [] == prefix;
    if dir.mode.Listable? {
      UnreadableUpToMeans(dir, |dir.entries|, prefix, q, cfg);
      forall i | 0 <= i < |dir.entries|
        ensures q in EntryUnreadable(dir.entries[i], prefix, cfg)
                <==> exists rest :: q == prefix + [dir.entries[i].name] + rest && EntryUnreadableAt(dir.entries[i], rest, cfg)
      {
        EntryUnreadableMeans(dir.entries[i], prefix, q, cfg);
      }
      if i :| 0 <= i < |dir.entries| && q in EntryUnreadable(dir.entries[i], prefix, cfg) {
        var rest :| q == prefix + [dir.entries[i].name] + rest && EntryUnreadableAt(dir.entries[i], rest, cfg);
        var p := [dir.entries[i].name] + rest;
        assert p[1..] == rest && q == prefix + p && UnreadableAt(dir, p, cfg);
      }
      if p :| q == prefix + p && UnreadableAt(dir, p, cfg) {
        var i :| 0 <= i < |dir.entries| && dir.entries[i].name == p[0] && EntryUnreadableAt(dir.entries[i], p[1..], cfg);
        assert q == prefix + [dir.entries[i].name] + p[1..];
      }
    }
  }

  /** A snapshot lists exactly the paths at which the walk meets something unreadable. */
  lemma UnreadableIsExact(root: Node, cfg: Config, p: Path)
    requires root.Dir?
    ensures p in UnreadableUnder(root, [], cfg) <==> UnreadableAt(root, p, cfg)
  {
    UnreadableMeans(root, [], p, cfg);
    assert forall q :: p == [] + q <==> p == q;
  }

  /** The walk fails exactly when it enters a directory that is broken. */
  lemma {:induction false} WalkableExactly(dir: Node, cfg: Config)
    requires dir.Dir?
    ensures Walkable(dir, cfg) <==> forall p :: !BrokenAt(dir, p, cfg)
    decreases dir
  {
    if dir.mode.Listable? {
      forall i | 0 <= i < |dir.entries| && dir.entries[i].node.Dir?
        ensures Walkable(dir.entries[i].node, cfg) <==> forall p :: !BrokenAt(dir.entries[i].node, p, cfg)
      {
        WalkableExactly(dir.entries[i].node, cfg);
      }
      if Walkable(dir, cfg) {
        forall p
          ensures !BrokenAt(dir, p, cfg)
        {
          assert forall i | 0 <= i < |dir.entries| :: EntryWalkable(dir.entries[i], cfg);
        }
      } else {
        var i :| 0 <= i < |dir.entries| && !EntryWalkable(dir.entries[i], cfg);
        var p :| BrokenAt(dir.entries[i].node, p, cfg);
        assert ([dir.entries[i].name] + p)[1..] == p;
        assert BrokenAt(dir, [dir.entries[i].name] + p, cfg);
      }
    } else {
      assert BrokenAt(dir, [], cfg) <==> dir.mode.Broken?;
    }
  }

  ghost predicate NoRepeats(paths: seq<Path>) {
    forall i, j | 0 <= i < j < |paths| :: paths[i] != paths[j]
  }

  /** Each of them once. */
  lemma {:induction false} UnreadableOnce(dir: Node, prefix: Path, cfg: Config)
    requires dir.Dir? && WellFormed(dir)
    ensures NoRepeats(UnreadableUnder(dir, prefix, cfg))
    decreases dir, |dir.entries| + 1
  {
    if dir.mode.Listable? {
      UnreadableUpToOnce(dir, |dir.entries|, prefix, cfg);
    }
  }

  lemma {:induction false} UnreadableUpToOnce(dir: Node, n: nat, prefix: Path, cfg: Config)
    requires dir.Dir? && WellFormed(dir) && n <= |dir.entries|
    ensures NoRepeats(UnreadableUpTo(dir, n, prefix, cfg))
    decreases dir, n
  {
    if n > 0 {
      var e := dir.entries[n - 1];
      var before, last := UnreadableUpTo(dir, n - 1, prefix, cfg), EntryUnreadable(e, prefix, cfg);
      UnreadableUpToOnce(dir, n - 1, prefix, cfg);
      if e.report.Reported? && e.node.Dir? && cfg.lossy(e.name) !in cfg.skip {
        UnreadableOnce(e.node, prefix + [e.name], cfg);
      }
      forall q | q in last
        ensures q !in before
      {
        UnreadableUpToMeans(dir, n - 1, prefix, q, cfg);
        NameOf(e, prefix, q, cfg);
        forall i | 0 <= i < n - 1
          ensures q !in EntryUnreadable(dir.entries[i], prefix, cfg)
        {
          NameOf(dir.entries[i], prefix, q, cfg);
        }
      }
      NoRepeatsConcat(before, last);
    }
  }

  lemma NameOf(e: DirEntry, prefix: Path, q: Path, cfg: Config)
    ensures q in EntryUnreadable(e, prefix, cfg) ==> |q| > |prefix| && q[|prefix|] == e.name
  {
    EntryUnreadableMeans(e, prefix, q, cfg);
  }

  lemma NoRepeatsConcat(a: seq<Path>, b: seq<Path>)
    requires NoRepeats(a) && NoRepeats(b) && forall q | q in b :: q !in a
    ensures NoRepeats(a + b)
  {
    assert forall j | 0 <= j < |b| :: b[j] in b;
    assert forall i | 0 <= i < |a| :: a[i] in a;
  }

  // ---------- Differences ----------

  datatype Change = Change(before: Entry, after: Entry)
  datatype Diff = Diff(added: set<Path>, modified: map<Path, Change>, removed: set<Path>) {
    predicate IsClean() {
      added == {} && modified == map[] && removed == {}
    }
  }

  /** Same kind needed; files differ by size, or by hash when both are hashed. */
  predicate Differ(a: Entry, b: Entry) {
    match (a, b)
    case (FileEntry(sa, ha), FileEntry(sb, hb)) => sa != sb || (ha.Some? && hb.Some? && ha != hb)
    case (SymlinkEntry(ta), SymlinkEntry(tb)) => ta != tb
    case _ => true
  }

  function DiffOf(baseline: Files, current: Files): Diff {
    Diff(
      set p | p in current && p !in baseline,
      map p | p in current && p in baseline && Differ(baseline[p], current[p]) :: Change(baseline[p], current[p]),
      set p | p in baseline && p !in current)
  }

  /** The second loop of the comparison: baseline paths that are gone. */
  method Missing(baseline: Files, current: Files) returns (removed: set<Path>)
    ensures removed == set p | p in baseline && p !in current
  {
    removed := {};
    var todo := baseline.Keys;
    while todo != {}
      invariant todo <= baseline.Keys
      invariant forall p :: p in removed <==> p in baseline && p !in todo && p !in current
      decreases |todo|
    {
      var path :| path in todo;
      todo := todo - {path};
      if path !in current {
        removed := removed + {path};
      }
    }
  }

  method Compare(baseline: Files, current: Files) returns (d: Diff)
    ensures d == DiffOf(baseline, current)
  {
    var added: set<Path>, modified: map<Path, Change> := {}, map[];
    var todo := current.Keys;
    while todo != {}
      invariant todo <= current.Keys
      invariant forall p :: p in added <==> p in current && p !in todo && p !in baseline
      invariant forall p :: p in modified <==>
                  p in current && p !in todo && p in baseline && Differ(baseline[p], current[p])
      invariant forall p | p in modified :: modified[p] == Change(baseline[p], current[p])
      decreases |todo|
    {
      var path :| path in todo;
      todo := todo - {path};
      var after := current[path];
      if path !in baseline {
        added := added + {path};
      } else if Differ(baseline[path], after) {
        modified := modified[path := Change(baseline[path], after)];
      }
    }
    var removed := Missing(baseline, current);
    d := Diff(added, modified, removed);
  }

  /** The three parts are disjoint, and swapping the snapshots swaps them. */
  lemma DiffReversed(a: Files, b: Files)
    ensures var d, back := DiffOf(a, b), DiffOf(b, a);
            && d.added !! d.modified.Keys && d.added !! d.removed && d.modified.Keys !! d.removed
            && back.added == d.removed && back.removed == d.added
            && back.modified == map p | p in d.modified :: Change(d.modified[p].after, d.modified[p].before)
  {
  }

  /** `baseline` with the reported changes made; added entries come from `current`. */
  function Patch(baseline: Files, d: Diff, current: Files): Files
    requires d.added <= current.Keys
  {
    (baseline - d.removed)
    + (map p | p in d.modified :: d.modified[p].after)
    + (map p | p in d.added :: current[p])
  }

  predicate Hashed(files: Files) {
    forall p | p in files :: files[p].FileEntry? ==> files[p].sha256.Some?
  }

  /** The diff is complete: making the reported changes gives the current key set
      and no differing entry, and the current snapshot itself if all is hashed. */
  lemma PatchGivesCurrent(a: Files, b: Files)
    ensures var patched := Patch(a, DiffOf(a, b), b);
            && patched.Keys == b.Keys
            && DiffOf(patched, b).IsClean()
            && (Hashed(a) && Hashed(b) ==> patched == b)
  {
    var patched := Patch(a, DiffOf(a, b), b);
    assert patched.Keys == b.Keys;
    forall p | p in b
      ensures patched[p] == if p in a && !Differ(a[p], b[p]) then a[p] else b[p]
    {
    }
    CleanMeansNoDifference(patched, b);
  }

  lemma CleanMeansNoDifference(a: Files, b: Files)
    ensures DiffOf(a, b).IsClean() <==> a.Keys == b.Keys && forall p | p in a :: !Differ(a[p], b[p])
  {
    var d := DiffOf(a, b);
    if d.IsClean() {
      assert forall p | p in b :: p !in d.added;
      assert forall p | p in a :: p !in d.removed;
      assert forall p | p in a :: p !in d.modified;
      assert a.Keys == b.Keys;
    }
  }

  /** On fully hashed snapshots "clean" is equality, so an equivalence. */
  lemma CleanIsEqualityWhenHashed(a: Files, b: Files)
    requires Hashed(a) && Hashed(b)
    ensures DiffOf(a, b).IsClean() <==> a == b
  {
    CleanMeansNoDifference(a, b);
  }

  /** Without hashes it is not transitive: an oversized middle snapshot hides a rewrite. */
  lemma CleanNotTransitive(p: Path, size: nat, h1: string, h2: string)
    requires h1 != h2
    ensures var a, b, c := map[p := FileEntry(size, Some(h1))], map[p := FileEntry(size, None)],
                           map[p := FileEntry(size, Some(h2))];
            DiffOf(a, b).IsClean() && DiffOf(b, c).IsClean() && !DiffOf(a, c).IsClean()
  {
    var a, b, c := map[p := FileEntry(size, Some(h1))], map[p := FileEntry(size, None)],
                   map[p := FileEntry(size, Some(h2))];
    CleanMeansNoDifference(a, b);
    CleanMeansNoDifference(b, c);
    CleanMeansNoDifference(a, c);
    assert Differ(a[p], c[p]);
  }

  ghost predicate TransitiveAt(b: Files) {
    forall a, c | DiffOf(a, b).IsClean() && DiffOf(b, c).IsClean() :: DiffOf(a, c).IsClean()
  }

  /** It is transitive exactly through the snapshots in which every file is hashed. */
  lemma CleanTransitiveExactly(b: Files)
    ensures Hashed(b) <==> TransitiveAt(b)
  {
    if Hashed(b) {
      forall a, c | DiffOf(a, b).IsClean() && DiffOf(b, c).IsClean()
        ensures DiffOf(a, c).IsClean()
      {
        CleanMeansNoDifference(a, b);
        CleanMeansNoDifference(b, c);
        CleanMeansNoDifference(a, c);
      }
    } else {
      var p :| p in b && b[p].FileEntry? && b[p].sha256.None?;
      var a, c := b[p := FileEntry(b[p].size, Some("0"))], b[p := FileEntry(b[p].size, Some("1"))];
      CleanMeansNoDifference(a, b);
      CleanMeansNoDifference(b, c);
      CleanMeansNoDifference(a, c);
      assert Differ(a[p], c[p]);
    }
  }

  // ---------- End to end ----------

  /** Two things that snapshots cannot tell apart. */
  predicate SameView(a: Seen, b: Seen, cfg: Config) {
    match (a, b)
    case (SeenFile(x), SeenFile(y)) => |x| == |y| && (|x| <= cfg.maxBytes ==> cfg.hash(x) == cfg.hash(y))
    case (SeenLink(s), SeenLink(t)) => cfg.lossy(s) == cfg.lossy(t)
    case _ => false
  }

  /** What two walks with the same options see at `p` is indistinguishable. */
  predicate SameAt(a: Node, b: Node, p: Path, cfg: Config)
    requires a.Dir? && b.Dir?
  {
    && (Reaches(a, p, cfg) <==> Reaches(b, p, cfg))
    && (Reaches(a, p, cfg) && At(a, p).Some? && At(b, p).Some? ==> SameView(At(a, p).value, At(b, p).value, cfg))
  }

  /** A diff of two snapshots is clean exactly when, at every path, the walks saw
      the same thing up to rewrites of oversized files that keep their length, files
      with the same hash, and symlink targets that decode to the same string. */
  lemma CleanExactlyWhenSame(a: Node, b: Node, cfg: Config)
    requires a.Dir? && b.Dir? && WellFormed(a) && WellFormed(b)
    ensures DiffOf(FilesUnder(a, [], cfg), FilesUnder(b, [], cfg)).IsClean() <==> forall p :: SameAt(a, b, p, cfg)
  {
    var fa, fb := FilesUnder(a, [], cfg), FilesUnder(b, [], cfg);
    CleanMeansNoDifference(fa, fb);
    forall p ensures SameAt(a, b, p, cfg) <==> ((p in fa <==> p in fb) && (p in fa && p in fb ==> !Differ(fa[p], fb[p]))) {
      SnapshotIsExact(a, cfg, p);
      SnapshotIsExact(b, cfg, p);
    }
    if forall p :: SameAt(a, b, p, cfg) {
      assert forall p :: (SameAt(a, b, p, cfg) ==> (p in fa <==> p in fb));
      assert fa.Keys == fb.Keys;
    }
  }

  lemma {:induction false} ReachedExists(dir: Node, n: nat, p: Path, cfg: Config)
    requires dir.Dir? && n <= |dir.entries| && Accessible(dir, n, p, cfg)
    ensures Actual(dir, n, p).Some?
    decreases dir, n
  {
    var e := dir.entries[n - 1];
    if e.name != p[0] {
      ReachedExists(dir, n - 1, p, cfg);
    } else if |p| > 1 {
      ReachedExists(e.node, |e.node.entries|, p[1..], cfg);
    }
  }

  /** Where the diff puts each path: by whether each walk reached it, and by what it saw. */
  lemma DiffMeans(a: Node, b: Node, cfg: Config, p: Path)
    requires a.Dir? && b.Dir? && WellFormed(a) && WellFormed(b)
    ensures var d := DiffOf(FilesUnder(a, [], cfg), FilesUnder(b, [], cfg));
            && (p in d.added <==> !Reaches(a, p, cfg) && Reaches(b, p, cfg))
            && (p in d.removed <==> Reaches(a, p, cfg) && !Reaches(b, p, cfg))
            && (p in d.modified <==>
                  && Reaches(a, p, cfg) && Reaches(b, p, cfg) && At(a, p).Some? && At(b, p).Some?
                  && !SameView(At(a, p).value, At(b, p).value, cfg))
            && (p in d.modified ==>
                  d.modified[p] == Change(Record(At(a, p).value, cfg), Record(At(b, p).value, cfg)))
  {
    SnapshotIsExact(a, cfg, p);
    SnapshotIsExact(b, cfg, p);
  }

  /** A removal is reported for what has become unreadable too: all reported removals
      are real exactly when whatever the first walk reached and is still there, the
      second reaches. */
  lemma RemovalsAreReal(a: Node, b: Node, cfg: Config)
    requires a.Dir? && b.Dir? && WellFormed(a) && WellFormed(b)
    ensures (forall p | p in DiffOf(FilesUnder(a, [], cfg), FilesUnder(b, [], cfg)).removed :: At(b, p).None?)
            <==> forall p | Reaches(a, p, cfg) && At(b, p).Some? :: Reaches(b, p, cfg)
  {
    forall p
      ensures p in DiffOf(FilesUnder(a, [], cfg), FilesUnder(b, [], cfg)).removed
              <==> Reaches(a, p, cfg) && !Reaches(b, p, cfg)
    {
      DiffMeans(a, b, cfg, p);
    }
  }

  /** Such a file: nothing about it changes but that it can no longer be read. */
  lemma UnreadableIsReportedRemoved(name: Bytes, content: Bytes, cfg: Config)
    ensures var a, b := Dir([DirEntry(name, File(content, Readable), Reported)], Listable),
                        Dir([DirEntry(name, File(content, Hidden), Reported)], Listable);
            && WellFormed(a) && WellFormed(b) && At(a, [name]) == At(b, [name]) == Some(SeenFile(content))
            && [name] in DiffOf(FilesUnder(a, [], cfg), FilesUnder(b, [], cfg)).removed
  {
    var a, b := Dir([DirEntry(name, File(content, Readable), Reported)], Listable),
                Dir([DirEntry(name, File(content, Hidden), Reported)], Listable);
    assert Reaches(a, [name], cfg) && !Reaches(b, [name], cfg);
    assert At(a, [name]) == Some(SeenFile(content)) && At(b, [name]) == Some(SeenFile(content));
    DiffMeans(a, b, cfg, [name]);
  }

  /** No change outside skipped directories goes unseen: if what really is at `p`
      changed, and was reachable in each tree where it exists, the diff is not
      clean, unless a file kept its length and is oversized or has the same hash, or
      a symlink's targets differ only where they are not UTF-8. */
  lemma TamperingIsDetected(a: Node, b: Node, cfg: Config, p: Path)
    requires a.Dir? && b.Dir? && WellFormed(a) && WellFormed(b)
    requires At(a, p).Some? ==> Reaches(a, p, cfg)
    requires At(b, p).Some? ==> Reaches(b, p, cfg)
    requires At(a, p) != At(b, p)
    ensures DiffOf(FilesUnder(a, [], cfg), FilesUnder(b, [], cfg)).IsClean() ==>
              && At(a, p).Some? && At(b, p).Some?
              && match (At(a, p).value, At(b, p).value)
                 case (SeenFile(x), SeenFile(y)) => |x| == |y| && (|x| > cfg.maxBytes || cfg.hash(x) == cfg.hash(y))
                 case (SeenLink(s), SeenLink(t)) => cfg.lossy(s) == cfg.lossy(t)
                 case _ => false
  {
    CleanExactlyWhenSame(a, b, cfg);
    if Reaches(a, p, cfg) {
      ReachedExists(a, |a.entries|, p, cfg);
    }
    if Reaches(b, p, cfg) {
      ReachedExists(b, |b.entries|, p, cfg);
    }
    assert SameAt(a, b, p, cfg) || !SameAt(a, b, p, cfg);
  }

  /** Such a symlink: its target changes from the byte FF to the byte FE, and the diff is clean. */
  lemma RetargetingUnseen(name: Bytes, cfg: Config)
    requires cfg.lossy([0xFF]) == cfg.lossy([0xFE])
    ensures var a, b := Dir([DirEntry(name, Symlink([0xFF], true), Reported)], Listable),
                        Dir([DirEntry(name, Symlink([0xFE], true), Reported)], Listable);
            && WellFormed(a) && WellFormed(b) && Reaches(a, [name], cfg) && Reaches(b, [name], cfg)
            && At(a, [name]) != At(b, [name])
            && DiffOf(FilesUnder(a, [], cfg), FilesUnder(b, [], cfg)).IsClean()
  {
    var a, b := Dir([DirEntry(name, Symlink([0xFF], true), Reported)], Listable),
                Dir([DirEntry(name, Symlink([0xFE], true), Reported)], Listable);
    assert At(a, [name]) == Some(SeenLink([0xFF])) && At(b, [name]) == Some(SeenLink([0xFE]));
    assert EntryFiles(a.entries[0], [], cfg) == EntryFiles(b.entries[0], [], cfg);
    assert FilesUpTo(a, 0, [], cfg) == map[] == FilesUpTo(b, 0, [], cfg);
    assert FilesUnder(a, [], cfg) == FilesUnder(b, [], cfg);
    CleanMeansNoDifference(FilesUnder(a, [], cfg), FilesUnder(b, [], cfg));
  }
}
