/** The retroactive advisory scan: logged installs, deduplicated, asked about in
    batches, and matched back to their answers by position. */
module Advisories {
  import opened Basics
  import opened Order
  import opened Sequences

  datatype Mode = Persistent | Ephemeral | Unknown
  datatype Key = Key(ecosystem: string, name: string, version: string)
  datatype Install = Install(key: Key, mode: Mode)
  datatype Query = Query(version: string, name: string, ecosystem: string)
  datatype Hit = Hit(key: Key, mode: Mode, ids: seq<string>)

  /** The number of queries sent at a time. */
  const BATCH_SIZE: nat := 200

  function LabelToOsv(ecoName: string): Option<string> {
    if ecoName == "npm" then Some("npm")
    else if ecoName == "crates" then Some("crates.io")
    else if ecoName == "pypi" then Some("PyPI")
    else if ecoName == "nuget" then Some("NuGet")
    else None
  }

  predicate Supported(key: Key) {
    LabelToOsv(key.ecosystem).Some?
  }

  /** Only made for supported packages. */
  function QueryOf(key: Key): Query {
    Query(key.version, key.name, if Supported(key) then LabelToOsv(key.ecosystem).value else "")
  }

  /** What OSV must be asked to learn about `key`. */
  predicate IsQueryFor(q: Query, key: Key) {
    && q.name == key.name && q.version == key.version
    && (q.ecosystem, key.ecosystem) in {("npm", "npm"), ("crates.io", "crates"), ("PyPI", "pypi"), ("NuGet", "nuget")}
  }

  lemma QueryOfIsFor(key: Key, q: Query)
    ensures Supported(key) <==> key.ecosystem in {"npm", "crates", "pypi", "nuget"}
    ensures IsQueryFor(q, key) <==> Supported(key) && q == QueryOf(key)
  {
  }

  // ---------- Deduplication ----------

  /** The first install of `key`. */
  function FirstMode(log: seq<Install>, key: Key): Mode
    requires exists e | e in log :: e.key == key
  {
    if log[0].key == key then log[0].mode
    else
      assert forall e | e in log && e.key == key :: e in log[1..];
      FirstMode(log[1..], key)
  }

  /** One entry per logged package; ephemeral wins, otherwise the first mode counts. */
  ghost predicate IsDigest(byKey: map<Key, Mode>, log: seq<Install>) {
    && (forall k :: k in byKey <==> Logged(log, k))
    && (forall k | k in byKey :: byKey[k] == if EverEphemeral(log, k) then Ephemeral else FirstMode(log, k))
  }

  ghost predicate Logged(log: seq<Install>, key: Key) {
    exists e | e in log :: e.key == key
  }

  ghost predicate EverEphemeral(log: seq<Install>, key: Key) {
    exists e | e in log :: e.key == key && e.mode == Ephemeral
  }

  lemma {:induction false} DigestSnoc(log: seq<Install>, e: Install, key: Key)
    ensures Logged(log + [e], key) <==> Logged(log, key) || e.key == key
    ensures EverEphemeral(log + [e], key) <==> EverEphemeral(log, key) || (e.key == key && e.mode == Ephemeral)
    ensures Logged(log + [e], key) ==>
              FirstMode(log + [e], key) == if Logged(log, key) then FirstMode(log, key) else e.mode
  {
    var all := log + [e];
    assert all[|log|] == e && forall x :: x in all <==> x in log || x == e;
    if log == [] {
      assert all == [e];
    } else {
      DigestSnoc(log[1..], e, key);
      assert all[1..] == log[1..] + [e];
      assert log == [log[0]] + log[1..];
    }
  }

  method Digest(log: seq<Install>) returns (byKey: map<Key, Mode>)
    ensures IsDigest(byKey, log)
  {
    byKey := map[];
    for i := 0 to |log|
      invariant IsDigest(byKey, log[..i])
    {
      var e := log[i];
      ghost var before, after := log[..i], log[..i + 1];
      assert after == before + [e];
      forall k
        ensures Logged(after, k) <==> Logged(before, k) || e.key == k
        ensures EverEphemeral(after, k) <==> EverEphemeral(before, k) || (e.key == k && e.mode == Ephemeral)
        ensures Logged(after, k) ==> FirstMode(after, k) == if Logged(before, k) then FirstMode(before, k) else e.mode
      {
        DigestSnoc(before, e, k);
      }
      if e.key in byKey {
        if byKey[e.key] != Ephemeral && e.mode == Ephemeral {
          byKey := byKey[e.key := Ephemeral];
        }
      } else {
        byKey := byKey[e.key := e.mode];
      }
    }
    assert log[..|log|] == log;
  }

  /** The last install of `key`, whose mode is the one documented as kept. */
  function LatestMode(log: seq<Install>, key: Key): Mode
    requires exists e | e in log :: e.key == key
  {
    var init, last := log[..|log| - 1], log[|log| - 1];
    if last.key == key then last.mode
    else
      assert log == init + [last];
      LatestMode(init, key)
  }

  /** The digest keeps the latest mode of a package that was never ephemeral exactly
      when its first and last installs agree. */
  lemma LatestModeKeptExactly(byKey: map<Key, Mode>, log: seq<Install>, key: Key)
    requires IsDigest(byKey, log) && Logged(log, key)
    ensures byKey[key] == (if EverEphemeral(log, key) then Ephemeral else LatestMode(log, key))
            <==> EverEphemeral(log, key) || FirstMode(log, key) == LatestMode(log, key)
  {
  }

  lemma FirstModeKept(byKey: map<Key, Mode>, key: Key)
    requires IsDigest(byKey, [Install(key, Persistent), Install(key, Unknown)])
    ensures key in byKey && byKey[key] == Persistent
    ensures LatestMode([Install(key, Persistent), Install(key, Unknown)], key) == Unknown
  {
    var log := [Install(key, Persistent), Install(key, Unknown)];
    assert log[0] in log;
  }

  // ---------- Batches ----------

  type BatchOracle = seq<Query> -> Fetched<seq<seq<string>>>

  /** Each package's ids do not depend on what it is asked together with in a batch. */
  ghost predicate Pointwise(oracle: BatchOracle, batchSize: nat, ids: Query -> seq<string>) {
    forall qs | |qs| <= batchSize :: oracle(qs) == Ok(Map(qs, ids))
  }

  function Queries(packages: seq<Install>): (r: seq<Query>)
    ensures |r| == |packages| && forall i | 0 <= i < |packages| :: r[i] == QueryOf(packages[i].key)
  {
    seq(|packages|, i requires 0 <= i < |packages| => QueryOf(packages[i].key))
  }

  /** A hit for each package whose answer has ids, in order. */
  function ZipHits(packages: seq<Install>, results: seq<seq<string>>): seq<Hit>
    requires |results| == |packages|
  {
    if packages == [] then []
    else
      var n := |packages| - 1;
      WithHit(ZipHits(packages[..n], results[..n]), packages[n], results[n])
  }

  function WithHit(hits: seq<Hit>, p: Install, ids: seq<string>): seq<Hit> {
    if ids == [] then hits else hits + [Hit(p.key, p.mode, ids)]
  }

  lemma {:induction false} ZipConcat(p1: seq<Install>, r1: seq<seq<string>>, p2: seq<Install>, r2: seq<seq<string>>)
    requires |r1| == |p1| && |r2| == |p2|
    ensures ZipHits(p1 + p2, r1 + r2) == ZipHits(p1, r1) + ZipHits(p2, r2)
  {
    if p2 == [] {
      assert p1 + p2 == p1 && r1 + r2 == r1;
    } else {
      var n := |p2| - 1;
      ZipConcat(p1, r1, p2[..n], r2[..n]);
      assert (p1 + p2)[..|p1| + n] == p1 + p2[..n] && (r1 + r2)[..|r1| + n] == r1 + r2[..n];
    }
  }

  /** Asking about one package at a time, in order. */
  function HitsOneByOne(packages: seq<Install>, ids: Query -> seq<string>): seq<Hit> {
    ZipHits(packages, Map(Queries(packages), ids))
  }

  /** Ecosystem first, then name, then version. */
  predicate KeyBelow(a: Key, b: Key) {
    if a.ecosystem != b.ecosystem then Below(a.ecosystem, b.ecosystem)
    else if a.name != b.name then Below(a.name, b.name)
    else Below(a.version, b.version)
  }

  lemma KeyBelowTotal(a: Key, b: Key)
    ensures KeyBelow(a, b) || KeyBelow(b, a)
    ensures KeyBelow(a, b) && KeyBelow(b, a) ==> a == b
  {
    BelowTotal(a.ecosystem, b.ecosystem);
    BelowTotal(a.name, b.name);
    BelowTotal(a.version, b.version);
  }

  lemma KeyBelowTransitive(a: Key, b: Key, c: Key)
    requires KeyBelow(a, b) && KeyBelow(b, c)
    ensures KeyBelow(a, c)
  {
    if a.ecosystem != b.ecosystem && b.ecosystem != c.ecosystem {
      BelowTransitive(a.ecosystem, b.ecosystem, c.ecosystem);
      BelowTotal(a.ecosystem, b.ecosystem);
    } else if a.ecosystem == b.ecosystem == c.ecosystem {
      if a.name != b.name && b.name != c.name {
        BelowTransitive(a.name, b.name, c.name);
        BelowTotal(a.name, b.name);
      } else if a.name == b.name == c.name {
        BelowTransitive(a.version, b.version, c.version);
      }
    }
  }

  /** In strictly ascending key order. */
  ghost predicate InKeyOrder(packages: seq<Install>) {
    forall i, j | 0 <= i < j < |packages| :: packages[i].key != packages[j].key && KeyBelow(packages[i].key, packages[j].key)
  }

  /** The supported entries of the digest, in key order. */
  ghost predicate Lists(packages: seq<Install>, byKey: map<Key, Mode>) {
    && (forall p :: p in packages <==> p.key in byKey && Supported(p.key) && p.mode == byKey[p.key])
    && InKeyOrder(packages)
  }

  /** The ordered map's supported entries, as iterating over it gives them. */
  method SupportedEntries(byKey: map<Key, Mode>) returns (packages: seq<Install>)
    ensures Lists(packages, byKey)
  {
    packages := [];
    var todo := byKey.Keys;
    while todo != {}
      invariant todo <= byKey.Keys
      invariant forall p :: p in packages <==>
                  p.key in byKey && p.key !in todo && Supported(p.key) && p.mode == byKey[p.key]
      invariant InKeyOrder(packages)
      decreases |todo|
    {
      var k :| k in todo;
      assert forall i | 0 <= i < |packages| :: packages[i] in packages;
      todo := todo - {k};
      if Supported(k) {
        packages := InsertByKey(packages, Install(k, byKey[k]));
      }
    }
  }

  method InsertByKey(packages: seq<Install>, p: Install) returns (r: seq<Install>)
    requires InKeyOrder(packages) && forall i | 0 <= i < |packages| :: packages[i].key != p.key
    ensures InKeyOrder(r) && forall q :: q in r <==> q in packages || q == p
  {
    var i := |packages|;
    while i > 0 && !KeyBelow(packages[i - 1].key, p.key)
      invariant 0 <= i <= |packages|
      invariant forall j | i <= j < |packages| :: !KeyBelow(packages[j].key, p.key)
    {
      i := i - 1;
    }
    r := packages[..i] + [p] + packages[i..];
    assert packages == packages[..i] + packages[i..];
    InsertedInOrder(packages, i, p);
  }

  lemma InsertedInOrder(packages: seq<Install>, i: nat, p: Install)
    requires InKeyOrder(packages) && i <= |packages| && forall j | 0 <= j < |packages| :: packages[j].key != p.key
    requires i > 0 ==> KeyBelow(packages[i - 1].key, p.key)
    requires forall j | i <= j < |packages| :: !KeyBelow(packages[j].key, p.key)
    ensures InKeyOrder(packages[..i] + [p] + packages[i..])
  {
    forall j | 0 <= j < i ensures KeyBelow(packages[j].key, p.key) {
      if j < i - 1 {
        KeyBelowTransitive(packages[j].key, packages[i - 1].key, p.key);
      }
    }
    forall j | i <= j < |packages| ensures KeyBelow(p.key, packages[j].key) {
      KeyBelowTotal(packages[j].key, p.key);
    }
  }

  /** The packages of each request: full batches, and a last one with the rest. */
  function ChunksOf(packages: seq<Install>, batchSize: nat): (chunks: seq<seq<Install>>)
    requires batchSize > 0
    ensures forall c | c in chunks :: 0 < |c| <= batchSize
    decreases |packages|
  {
    if packages == [] then []
    else
      var n := if |packages| < batchSize then |packages| else batchSize;
      [packages[..n]] + ChunksOf(packages[n..], batchSize)
  }

  function QueriesOf(chunks: seq<seq<Install>>): seq<seq<Query>> {
    if chunks == [] then [] else [Queries(chunks[0])] + QueriesOf(chunks[1..])
  }

  /** The hits of one batch, packages and answers paired by position. */
  function ChunkHits(chunk: seq<Install>, results: seq<seq<string>>): seq<Hit> {
    var n := if |results| < |chunk| then |results| else |chunk|;
    ZipHits(chunk[..n], results[..n])
  }

  function HitsOf(chunks: seq<seq<Install>>, oracle: BatchOracle): seq<Hit> {
    if chunks == [] then []
    else
      var reply := oracle(Queries(chunks[0]));
      (if reply.Ok? then ChunkHits(chunks[0], reply.value) else []) + HitsOf(chunks[1..], oracle)
  }

  ghost predicate SomeChunkFails(chunks: seq<seq<Install>>, oracle: BatchOracle) {
    exists c | c in chunks :: oracle(Queries(c)).Err?
  }

  /** Collects the hits of one batch, pairing packages and answers by position;
      surplus packages or answers are ignored. */
  method CollectHits(chunk: seq<Install>, results: seq<seq<string>>) returns (hits: seq<Hit>)
    ensures hits == ChunkHits(chunk, results)
  {
    hits := [];
    var n := if |results| < |chunk| then |results| else |chunk|;
    for i := 0 to n
      invariant hits == ZipHits(chunk[..i], results[..i])
    {
      assert chunk[..i + 1][..i] == chunk[..i] && results[..i + 1][..i] == results[..i];
      if results[i] == [] {
        continue;
      }
      hits := hits + [Hit(chunk[i].key, chunk[i].mode, results[i])];
    }
  }

  /** One request per chunk of at most `batchSize` packages, in order; the scan fails
      exactly when the request for one of them does. */
  method ScanBatches(packages: seq<Install>, oracle: BatchOracle, batchSize: nat)
    returns (r: Option<(seq<Hit>, seq<seq<Query>>)>)
    requires batchSize > 0
    ensures var chunks := ChunksOf(packages, batchSize);
            if SomeChunkFails(chunks, oracle) then r == None
            else r == Some((HitsOf(chunks, oracle), QueriesOf(chunks)))
  {
    var hits: seq<Hit>, asked: seq<seq<Query>>, rest := [], [], packages;
    ghost var chunks := ChunksOf(packages, batchSize);
    while rest != []
      invariant hits + HitsOf(ChunksOf(rest, batchSize), oracle) == HitsOf(chunks, oracle)
      invariant asked + QueriesOf(ChunksOf(rest, batchSize)) == QueriesOf(chunks)
      invariant SomeChunkFails(ChunksOf(rest, batchSize), oracle) <==> SomeChunkFails(chunks, oracle)
      decreases |rest|
    {
      var n := if |rest| < batchSize then |rest| else batchSize;
      var chunk := rest[..n];
      FirstChunk(rest, n, oracle, batchSize);
      var queries := Queries(chunk);
      var reply := oracle(queries);
      if reply.Err? {
        return None;
      }
      var more := CollectHits(chunk, reply.value);
      Reassociate(hits, more, HitsOf(ChunksOf(rest[n..], batchSize), oracle));
      Reassociate(asked, [queries], QueriesOf(ChunksOf(rest[n..], batchSize)));
      hits, asked, rest := hits + more, asked + [queries], rest[n..];
    }
    assert ChunksOf(rest, batchSize) == [];
    assert hits + [] == hits && asked + [] == asked;
    return Some((hits, asked));
  }

  lemma FirstChunk(rest: seq<Install>, n: nat, oracle: BatchOracle, batchSize: nat)
    requires batchSize > 0 && rest != [] && n == if |rest| < batchSize then |rest| else batchSize
    ensures var all, chunk, later := ChunksOf(rest, batchSize), rest[..n], ChunksOf(rest[n..], batchSize);
            && QueriesOf(all) == [Queries(chunk)] + QueriesOf(later)
            && (SomeChunkFails(all, oracle) <==> oracle(Queries(chunk)).Err? || SomeChunkFails(later, oracle))
            && (oracle(Queries(chunk)).Ok? ==>
                  HitsOf(all, oracle) == ChunkHits(chunk, oracle(Queries(chunk)).value) + HitsOf(later, oracle))
  {
    var all, chunk, later := ChunksOf(rest, batchSize), rest[..n], ChunksOf(rest[n..], batchSize);
    assert all[0] == chunk && all[1..] == later;
    assert forall c :: c in all <==> c == chunk || c in later;
  }

  lemma Reassociate<T>(a: seq<T>, b: seq<T>, c: seq<T>)
    ensures a + (b + c) == (a + b) + c
  {
  }

  lemma {:induction false} FlattenChunks(packages: seq<Install>, batchSize: nat)
    requires batchSize > 0
    ensures Flatten(ChunksOf(packages, batchSize)) == packages
    decreases |packages|
  {
    if packages == [] {
    } else {
      var n := if |packages| < batchSize then |packages| else batchSize;
      var chunk, rest := packages[..n], packages[n..];
      assert packages == chunk + rest;
      FlattenChunks(rest, batchSize);
      FlattenCons(chunk, ChunksOf(rest, batchSize));
    }
  }

  lemma QueriesConcat(a: seq<Install>, b: seq<Install>)
    ensures Queries(a + b) == Queries(a) + Queries(b)
  {
  }

  /** The requests ask about the packages of the chunks, in order. */
  lemma {:induction false} AskedInOrder(chunks: seq<seq<Install>>, batchSize: nat)
    requires forall c | c in chunks :: 0 < |c| <= batchSize
    ensures Flatten(QueriesOf(chunks)) == Queries(Flatten(chunks))
    ensures forall q | q in QueriesOf(chunks) :: 0 < |q| <= batchSize
  {
    if chunks == [] {
    } else {
      AskedInOrder(chunks[1..], batchSize);
      QueriesConcat(chunks[0], Flatten(chunks[1..]));
      FlattenCons(Queries(chunks[0]), QueriesOf(chunks[1..]));
    }
  }

  /** Batching is invisible with an oracle that answers pointwise: no request fails,
      and the hits are those of asking one by one. */
  lemma {:induction false} BatchingIsInvisible(
      chunks: seq<seq<Install>>, oracle: BatchOracle, batchSize: nat, ids: Query -> seq<string>)
    requires (forall c | c in chunks :: |c| <= batchSize) && Pointwise(oracle, batchSize, ids)
    ensures !SomeChunkFails(chunks, oracle) && HitsOf(chunks, oracle) == HitsOneByOne(Flatten(chunks), ids)
  {
    forall c | c in chunks
      ensures oracle(Queries(c)).Ok?
    {
      PointwiseChunk(c, oracle, batchSize, ids);
    }
    if chunks == [] {
    } else {
      BatchingIsInvisible(chunks[1..], oracle, batchSize, ids);
      PointwiseChunk(chunks[0], oracle, batchSize, ids);
      HitsConcat(chunks[0], Flatten(chunks[1..]), ids);
    }
  }

  lemma PointwiseChunk(chunk: seq<Install>, oracle: BatchOracle, batchSize: nat, ids: Query -> seq<string>)
    requires |chunk| <= batchSize && Pointwise(oracle, batchSize, ids)
    ensures oracle(Queries(chunk)).Ok? && ChunkHits(chunk, oracle(Queries(chunk)).value) == HitsOneByOne(chunk, ids)
  {
    var results := Map(Queries(chunk), ids);
    assert oracle(Queries(chunk)) == Ok(results);
    assert chunk[..|chunk|] == chunk && results[..|chunk|] == results;
  }

  lemma HitsConcat(earlier: seq<Install>, chunk: seq<Install>, ids: Query -> seq<string>)
    ensures HitsOneByOne(earlier + chunk, ids) == HitsOneByOne(earlier, ids) + HitsOneByOne(chunk, ids)
  {
    ZipConcat(earlier, Map(Queries(earlier), ids), chunk, Map(Queries(chunk), ids));
    assert Map(Queries(earlier + chunk), ids) == Map(Queries(earlier), ids) + Map(Queries(chunk), ids);
  }

  lemma {:induction false} ZipMeans(packages: seq<Install>, results: seq<seq<string>>, h: Hit)
    requires |results| == |packages|
    ensures h in ZipHits(packages, results)
            <==> exists i | 0 <= i < |packages| :: h == Hit(packages[i].key, packages[i].mode, results[i]) && h.ids != []
  {
    if packages != [] {
      var n := |packages| - 1;
      ZipMeans(packages[..n], results[..n], h);
      assert forall i | 0 <= i < n :: packages[..n][i] == packages[i] && results[..n][i] == results[i];
    }
  }

  lemma HitsMean(packages: seq<Install>, ids: Query -> seq<string>, h: Hit)
    ensures h in HitsOneByOne(packages, ids)
            <==> Install(h.key, h.mode) in packages && h.ids == ids(QueryOf(h.key)) && h.ids != []
    ensures forall q | IsQueryFor(q, h.key) ::
              h in HitsOneByOne(packages, ids) <==> Install(h.key, h.mode) in packages && h.ids == ids(q) && h.ids != []
  {
    forall q | IsQueryFor(q, h.key) ensures q == QueryOf(h.key) {
      QueryOfIsFor(h.key, q);
    }
    ZipMeans(packages, Map(Queries(packages), ids), h);
    if Install(h.key, h.mode) in packages {
      var i :| 0 <= i < |packages| && packages[i] == Install(h.key, h.mode);
      assert Map(Queries(packages), ids)[i] == ids(QueryOf(h.key));
    }
  }

  ghost predicate HitsInKeyOrder(hits: seq<Hit>) {
    forall i, j | 0 <= i < j < |hits| :: hits[i].key != hits[j].key && KeyBelow(hits[i].key, hits[j].key)
  }

  /** The hits come in key order, too: by ecosystem, then name, then version. */
  lemma {:induction false} HitsAreInKeyOrder(packages: seq<Install>, results: seq<seq<string>>)
    requires |results| == |packages| && InKeyOrder(packages)
    ensures HitsInKeyOrder(ZipHits(packages, results))
  {
    if packages != [] {
      var n := |packages| - 1;
      HitsAreInKeyOrder(packages[..n], results[..n]);
      var hits := ZipHits(packages[..n], results[..n]);
      forall i | 0 <= i < |hits|
        ensures hits[i].key != packages[n].key && KeyBelow(hits[i].key, packages[n].key)
      {
        ZipMeans(packages[..n], results[..n], hits[i]);
      }
    }
  }

  /** What the key order means for two packages. */
  lemma KeyOrderMeans(packages: seq<Install>, i: nat, j: nat)
    requires InKeyOrder(packages) && i < j < |packages|
    ensures var a, b := packages[i].key, packages[j].key;
            && Below(a.ecosystem, b.ecosystem)
            && (a.ecosystem == b.ecosystem ==> Below(a.name, b.name))
            && (a.ecosystem == b.ecosystem && a.name == b.name ==> Below(a.version, b.version) && a.version != b.version)
  {
    BelowTotal(packages[i].key.ecosystem, packages[j].key.ecosystem);
    BelowTotal(packages[i].key.name, packages[j].key.name);
  }

  /** A batch's hits, whatever its reply: each package answered with ids, by position;
      surplus packages or answers are ignored. */
  lemma ChunkHitsMean(chunk: seq<Install>, results: seq<seq<string>>, h: Hit)
    ensures h in ChunkHits(chunk, results)
            <==> exists i :: 0 <= i < |chunk| && i < |results| && results[i] != []
                             && h == Hit(chunk[i].key, chunk[i].mode, results[i])
  {
    var n := if |results| < |chunk| then |results| else |chunk|;
    ZipMeans(chunk[..n], results[..n], h);
    assert forall i | 0 <= i < n :: chunk[..n][i] == chunk[i] && results[..n][i] == results[i];
  }

  ghost predicate FullButLast(chunks: seq<seq<Install>>, batchSize: nat) {
    forall i | 0 <= i < |chunks| - 1 :: |chunks[i]| == batchSize
  }

  lemma FullCons(chunk: seq<Install>, chunks: seq<seq<Install>>, batchSize: nat)
    requires FullButLast(chunks, batchSize) && |chunk| == batchSize
    ensures FullButLast([chunk] + chunks, batchSize)
  {
  }

  /** All batches but the last are full. */
  lemma {:induction false} ChunksAreFull(packages: seq<Install>, batchSize: nat)
    requires batchSize > 0
    ensures FullButLast(ChunksOf(packages, batchSize), batchSize)
    decreases |packages|
  {
    if |packages| > batchSize {
      ChunksAreFull(packages[batchSize..], batchSize);
      FullCons(packages[..batchSize], ChunksOf(packages[batchSize..], batchSize), batchSize);
    } else if packages != [] {
      assert packages[|packages|..] == [];
    }
  }

  datatype Report = Report(scanned: nat, uniquePackages: nat, hits: seq<Hit>)

  /** `packages` is what a scan of `log` is about: each logged supported package
      once, in key order, as ephemeral if it ever was and else with its first mode. */
  ghost predicate IsListing(packages: seq<Install>, log: seq<Install>) {
    && (forall p :: p in packages <==>
          && Logged(log, p.key) && p.key.ecosystem in {"npm", "crates", "pypi", "nuget"}
          && p.mode == if EverEphemeral(log, p.key) then Ephemeral else FirstMode(log, p.key))
    && InKeyOrder(packages)
  }

  /** A log has one listing, so a scan's report is determined by it. */
  lemma {:induction false} ListingIsUnique(a: seq<Install>, b: seq<Install>)
    requires InKeyOrder(a) && InKeyOrder(b) && forall p :: p in a <==> p in b
    ensures a == b
  {
    if a == [] {
      if b != [] {
        NotEmpty(b, a);
      }
    } else {
      NotEmpty(a, b);
      SameLeast(a, b);
      var first := a[0];
      assert a == [first] + a[1..] && b == [first] + b[1..];
      forall p ensures p in a[1..] <==> p in b[1..] {
        RestHas(a, p);
        RestHas(b, p);
      }
      ListingIsUnique(a[1..], b[1..]);
    }
  }

  lemma NotEmpty(a: seq<Install>, b: seq<Install>)
    requires a != [] && forall p | p in a :: p in b
    ensures b != []
  {
    assert a[0] in a;
  }

  lemma RestHas(s: seq<Install>, p: Install)
    requires s != [] && InKeyOrder(s)
    ensures p in s[1..] <==> p in s && p != s[0]
  {
  }

  lemma SameLeast(a: seq<Install>, b: seq<Install>)
    requires a != [] && b != [] && InKeyOrder(a) && InKeyOrder(b) && forall p :: p in a <==> p in b
    ensures a[0] == b[0]
  {
    assert a[0] in a && b[0] in b;
    var i :| 0 <= i < |b| && b[i] == a[0];
    var j :| 0 <= j < |a| && a[j] == b[0];
    if i > 0 && j > 0 {
      KeyBelowTotal(a[0].key, b[0].key);
    }
  }

  /** The requests ask about every logged supported package, once, in batches. */
  ghost predicate AsksOnce(asked: seq<seq<Query>>, log: seq<Install>, batchSize: nat) {
    && (forall i | 0 <= i < |asked| :: 0 < |asked[i]| <= batchSize)
    && (forall q :: q in Flatten(asked) <==> exists k :: Logged(log, k) && IsQueryFor(q, k))
    && (forall i, j | 0 <= i < j < |Flatten(asked)| :: Flatten(asked)[i] != Flatten(asked)[j])
  }

  lemma DigestListing(packages: seq<Install>, byKey: map<Key, Mode>, log: seq<Install>)
    requires Lists(packages, byKey) && IsDigest(byKey, log)
    ensures IsListing(packages, log) && byKey.Keys == set e | e in log :: e.key
  {
  }

  lemma DigestAsked(packages: seq<Install>, byKey: map<Key, Mode>, log: seq<Install>, batchSize: nat)
    requires batchSize > 0 && Lists(packages, byKey) && IsDigest(byKey, log)
    ensures AsksOnce(QueriesOf(ChunksOf(packages, batchSize)), log, batchSize)
  {
    FlattenChunks(packages, batchSize);
    AskedInOrder(ChunksOf(packages, batchSize), batchSize);
    DistinctQueries(packages, byKey);
  }

  /** The whole scan, for any batch size. It fails exactly if the request for some
      chunk of the listed packages does; otherwise, for an oracle that answers
      pointwise, it reports what asking about each package alone would. */
  method Scan(log: seq<Install>, oracle: BatchOracle, batchSize: nat := BATCH_SIZE, ghost ids: Query -> seq<string>)
    returns (r: Option<Report>, ghost packages: seq<Install>, ghost asked: seq<seq<Query>>)
    requires batchSize > 0
    ensures IsListing(packages, log)
    ensures r.None? <==> SomeChunkFails(ChunksOf(packages, batchSize), oracle)
    ensures r.Some? ==> r.value.hits == HitsOf(ChunksOf(packages, batchSize), oracle)
    ensures r.Some? ==> asked == QueriesOf(ChunksOf(packages, batchSize))
    ensures r.Some? ==> r.value.uniquePackages == |set e | e in log :: e.key|
    ensures r.Some? ==> r.value.scanned == |log| && AsksOnce(asked, log, batchSize)
    ensures Pointwise(oracle, batchSize, ids) ==> r.Some? && r.value.hits == HitsOneByOne(packages, ids)
  {
    hide IsListing, AsksOnce, Lists, IsDigest, HitsOneByOne, SomeChunkFails;
    asked := [];
    var byKey := Digest(log);
    var entries := SupportedEntries(byKey);
    packages := entries;
    DigestListing(packages, byKey, log);
    DigestAsked(packages, byKey, log, batchSize);
    if Pointwise(oracle, batchSize, ids) {
      BatchingIsInvisible(ChunksOf(packages, batchSize), oracle, batchSize, ids);
      FlattenChunks(packages, batchSize);
    }
    var scan := ScanBatches(entries, oracle, batchSize);
    if scan.None? {
      return None, packages, asked;
    }
    asked := scan.value.1;
    return Some(Report(|log|, |byKey|, scan.value.0)), packages, asked;
  }

  /** Different packages make different queries. */
  lemma DistinctQueries(packages: seq<Install>, byKey: map<Key, Mode>)
    requires Lists(packages, byKey)
    ensures forall i, j | 0 <= i < j < |packages| :: Queries(packages)[i] != Queries(packages)[j]
    ensures forall q :: q in Queries(packages) <==> exists k :: k in byKey && IsQueryFor(q, k)
  {
    assert forall i | 0 <= i < |packages| :: packages[i] in packages;
    forall a, b | Supported(a) && Supported(b) && QueryOf(a) == QueryOf(b) ensures a == b {
      OsvNamesDistinct(a.ecosystem, b.ecosystem);
    }
    forall q, k | k in byKey && IsQueryFor(q, k) ensures q in Queries(packages) {
      QueryOfIsFor(k, q);
      var p := Install(k, byKey[k]);
      assert p in packages;
      var i :| 0 <= i < |packages| && packages[i] == p;
      assert Queries(packages)[i] == q;
    }
    forall q | q in Queries(packages) ensures exists k :: k in byKey && IsQueryFor(q, k) {
      var i :| 0 <= i < |packages| && Queries(packages)[i] == q;
      QueryOfIsFor(packages[i].key, q);
    }
  }

  lemma OsvNamesDistinct(a: string, b: string)
    requires LabelToOsv(a).Some? && LabelToOsv(a) == LabelToOsv(b)
    ensures a == b
  {
  }
}
