/** The mirrored denylist: how a dump becomes a lookup table, how conditional
    refreshes keep that table equal to the server's dump, and the layered oracle. */
module OsvMirror {
  import opened Basics
  import opened Ecosystems

  // ---------- The dump ----------

  /** A row of the dump with its fields as far as they are strings: the flat
      array of the current schema, or the record of the older one. */
  datatype Row =
    | Flat(eco: Option<string>, name: Option<string>, version: Option<string>, id: Option<string>)
    | Record(eco: Option<string>, name: Option<string>, ids: seq<string>, versions: seq<string>)
    | Other

  const WILDCARD := "*"

  /** The ids of each key; sorting and removing duplicates makes a list of ids
      equivalent to the set. */
  type Entries = map<Key, set<string>>

  function LabelToEco(ecoName: string): Option<Ecosystem> {
    if ecoName == "crates" then Some(Crates)
    else if ecoName == "npm" then Some(Npm)
    else if ecoName == "pypi" then Some(Pypi)
    else if ecoName == "nuget" then Some(Nuget)
    else None
  }

  function ElementsOf(s: seq<string>): set<string> {
    set x | x in s
  }

  function VersionKeys(eco: Ecosystem, name: string, versions: seq<string>): set<Key> {
    set v | v in versions :: Key(eco, name, v)
  }

  /** The keys a row contributes to; none if a field is missing or the ecosystem unknown. */
  function RowKeys(row: Row): set<Key> {
    match row
    case Flat(Some(ecoName), Some(name), Some(version), Some(_)) =>
      if LabelToEco(ecoName).None? then {} else {Key(LabelToEco(ecoName).value, name, version)}
    case Record(Some(ecoName), Some(name), _, versions) =>
      if LabelToEco(ecoName).None? then {}
      else VersionKeys(LabelToEco(ecoName).value, name, if versions == [] then [WILDCARD] else versions)
    case _ => {}
  }

  function RowIds(row: Row): set<string> {
    match row
    case Flat(_, _, _, Some(id)) => {id}
    case Record(_, _, ids, _) => ElementsOf(ids)
    case _ => {}
  }

  function Extend(entries: Entries, key: Key, ids: set<string>): Entries {
    entries[key := (if key in entries then entries[key] else {}) + ids]
  }

  ghost predicate Names(rows: seq<Row>, key: Key) {
    exists row | row in rows :: key in RowKeys(row)
  }

  ghost predicate Gives(rows: seq<Row>, key: Key, id: string) {
    exists row | row in rows :: key in RowKeys(row) && id in RowIds(row)
  }

  /** The table of a dump: every key some row names, with all ids rows give it. */
  ghost predicate IsTableOf(entries: Entries, rows: seq<Row>) {
    && (forall k :: k in entries <==> Names(rows, k))
    && (forall k, id | k in entries :: id in entries[k] <==> Gives(rows, k, id))
  }

  /** The table while `row` is being added after `rows`: its keys in `done` are in. */
  ghost predicate IsPartialTable(entries: Entries, rows: seq<Row>, row: Row, done: set<Key>) {
    && (forall k :: k in entries <==> k in done || Names(rows, k))
    && (forall k, id | k in entries :: id in entries[k] <==> (k in done && id in RowIds(row)) || Gives(rows, k, id))
  }

  lemma ExtendPartial(entries: Entries, rows: seq<Row>, row: Row, done: set<Key>, key: Key)
    requires IsPartialTable(entries, rows, row, done)
    ensures IsPartialTable(Extend(entries, key, RowIds(row)), rows, row, done + {key})
  {
  }

  lemma NamesSnoc(rows: seq<Row>, row: Row, key: Key)
    ensures Names(rows + [row], key) <==> key in RowKeys(row) || Names(rows, key)
  {
  }

  lemma GivesSnoc(rows: seq<Row>, row: Row, key: Key, id: string)
    ensures Gives(rows + [row], key, id) <==> (key in RowKeys(row) && id in RowIds(row)) || Gives(rows, key, id)
  {
  }

  lemma FinishRow(entries: Entries, rows: seq<Row>, row: Row)
    requires IsPartialTable(entries, rows, row, RowKeys(row))
    ensures IsTableOf(entries, rows + [row])
  {
    forall k ensures k in entries <==> Names(rows + [row], k) {
      NamesSnoc(rows, row, k);
    }
    forall k, id | k in entries ensures id in entries[k] <==> Gives(rows + [row], k, id) {
      GivesSnoc(rows, row, k, id);
    }
  }

  method ParseRows(rows: seq<Row>) returns (entries: Entries)
    ensures IsTableOf(entries, rows)
  {
    entries := map[];
    for i := 0 to |rows|
      invariant IsTableOf(entries, rows[..i])
    {
      entries := AddRow(entries, rows[..i], rows[i]);
      assert rows[..i + 1] == rows[..i] + [rows[i]];
    }
    assert rows[..|rows|] == rows;
  }

  method AddRow(entries: Entries, ghost rows: seq<Row>, row: Row) returns (after: Entries)
    requires IsTableOf(entries, rows)
    ensures IsTableOf(after, rows + [row])
  {
    after := entries;
    match row {
      case Flat(Some(ecoName), Some(name), Some(version), Some(id)) =>
        var eco := LabelToEco(ecoName);
        if eco.Some? {
          var key := Key(eco.value, name, version);
          ExtendPartial(after, rows, row, {}, key);
          after := Extend(after, key, {id});
        }
      case Record(Some(ecoName), Some(name), ids, versions) =>
        var eco := LabelToEco(ecoName);
        if eco.Some? {
          after := AddRecord(entries, rows, row, eco.value);
        }
      case _ =>
    }
    FinishRow(after, rows, row);
  }

  /** A record's ids under each of its versions, or under the wildcard if it has none. */
  method AddRecord(entries: Entries, ghost rows: seq<Row>, row: Row, eco: Ecosystem) returns (after: Entries)
    requires row.Record? && row.eco.Some? && row.name.Some? && LabelToEco(row.eco.value) == Some(eco)
    requires IsPartialTable(entries, rows, row, {})
    ensures IsPartialTable(after, rows, row, RowKeys(row))
  {
    after := entries;
    if row.versions == [] {
      var key := Key(eco, row.name.value, WILDCARD);
      ExtendPartial(after, rows, row, {}, key);
      after := Extend(after, key, ElementsOf(row.ids));
      assert {} + {key} == RowKeys(row);
      return;
    }
    ghost var done: set<Key> := {};
    for j := 0 to |row.versions|
      invariant done == VersionKeys(eco, row.name.value, row.versions[..j])
      invariant IsPartialTable(after, rows, row, done)
    {
      var key := Key(eco, row.name.value, row.versions[j]);
      ExtendPartial(after, rows, row, done, key);
      after := Extend(after, key, ElementsOf(row.ids));
      done := done + {key};
      assert row.versions[..j + 1] == row.versions[..j] + [row.versions[j]];
    }
    assert row.versions[..|row.versions|] == row.versions;
  }

  /** The dump's name for an ecosystem. */
  predicate IsLabel(ecoName: Option<string>, eco: Ecosystem) {
    (ecoName, eco) in {(Some("crates"), Crates), (Some("npm"), Npm), (Some("pypi"), Pypi), (Some("nuget"), Nuget)}
  }

  /** A complete row about the package at this version; a record without versions is
      about all of them. */
  predicate IsAbout(row: Row, key: Key) {
    match row
    case Flat(eco, name, version, id) =>
      IsLabel(eco, key.eco) && name == Some(key.name) && version == Some(key.version) && id.Some?
    case Record(eco, name, _, versions) =>
      IsLabel(eco, key.eco) && name == Some(key.name) && (key.version in versions || (versions == [] && key.version == "*"))
    case Other => false
  }

  predicate Carries(row: Row, id: string) {
    match row
    case Flat(_, _, _, rowId) => rowId == Some(id)
    case Record(_, _, ids, _) => id in ids
    case Other => false
  }

  lemma RowMeans(row: Row, key: Key, id: string)
    ensures key in RowKeys(row) <==> IsAbout(row, key)
    ensures id in RowIds(row) <==> Carries(row, id)
  {
    if row.Record? && row.eco.Some? && row.name.Some? && LabelToEco(row.eco.value).Some? {
      var eco := LabelToEco(row.eco.value).value;
      var versions := if row.versions == [] then [WILDCARD] else row.versions;
      assert key in VersionKeys(eco, row.name.value, versions)
             <==> key.eco == eco && key.name == row.name.value && key.version in versions;
    }
  }

  /** The table, in terms of what rows say: a key for every package some row is about,
      with exactly the ids such rows carry. */
  lemma TableMeans(entries: Entries, rows: seq<Row>, key: Key, id: string)
    requires IsTableOf(entries, rows)
    ensures key in entries <==> exists row :: row in rows && IsAbout(row, key)
    ensures key in entries ==> (id in entries[key] <==> exists row :: row in rows && IsAbout(row, key) && Carries(row, id))
  {
    forall row
      ensures key in RowKeys(row) <==> IsAbout(row, key)
      ensures id in RowIds(row) <==> Carries(row, id)
    {
      RowMeans(row, key, id);
    }
  }

  /** A dump has one table, so the order and repetition of rows do not matter. */
  lemma TableIsUnique(a: Entries, b: Entries, rows: seq<Row>, rows': seq<Row>)
    requires IsTableOf(a, rows) && IsTableOf(b, rows')
    requires forall row :: row in rows <==> row in rows'
    ensures a == b
  {
    forall k ensures Names(rows, k) <==> Names(rows', k) {
    }
    assert a.Keys == b.Keys;
    forall k | k in a
      ensures a[k] == b[k]
    {
      forall id ensures Gives(rows, k, id) <==> Gives(rows', k, id) {
      }
      assert forall id :: id in a[k] <==> id in b[k];
    }
  }

  // ---------- Lookups ----------

  /** The exact version's entry, else the entry for all versions. */
  function Find(entries: Entries, key: Key): Option<set<string>> {
    if key in entries then Some(entries[key])
    else if key.(version := WILDCARD) in entries then Some(entries[key.(version := WILDCARD)])
    else None
  }

  /** What the decider acts on: an answer with at least one id. */
  predicate Flags(answer: Option<set<string>>) {
    answer.Some? && answer.value != {}
  }

  /** Some row lists the package, at this version or at all versions, with an id. */
  ghost predicate Listed(rows: seq<Row>, key: Key) {
    exists row | row in rows :: (key in RowKeys(row) || key.(version := WILDCARD) in RowKeys(row)) && RowIds(row) != {}
  }

  /** Rows name this exact version, but none of them with an id. */
  ghost predicate NamedWithoutIds(rows: seq<Row>, key: Key) {
    && Names(rows, key)
    && (forall row | row in rows && key in RowKeys(row) :: RowIds(row) == {})
  }

  /** A listed package is flagged unless rows without ids name its exact version:
      their empty entry hides the entry for all versions. */
  lemma FlaggedExactly(rows: seq<Row>, entries: Entries, key: Key)
    requires IsTableOf(entries, rows)
    ensures Flags(Find(entries, key)) <==> Listed(rows, key) && !NamedWithoutIds(rows, key)
  {
  }

  /** The ids a lookup gives: those rows carry about this version, if any row is about
      it, and otherwise those rows carry about all versions. */
  lemma FoundExactly(rows: seq<Row>, entries: Entries, key: Key, id: string)
    requires IsTableOf(entries, rows)
    ensures var used := if exists row :: row in rows && IsAbout(row, key) then key else key.(version := "*");
            && (Find(entries, key).Some? <==> exists row :: row in rows && IsAbout(row, used))
            && (Find(entries, key).Some? ==>
                  (id in Find(entries, key).value <==> exists row :: row in rows && IsAbout(row, used) && Carries(row, id)))
  {
    TableMeans(entries, rows, key, id);
    TableMeans(entries, rows, key.(version := WILDCARD), id);
  }

  /** Such a dump: every version is listed, then one is named without ids. */
  lemma EmptyRecordHides(name: string, version: string, id: string, entries: Entries)
    requires version != WILDCARD
    requires IsTableOf(entries, [Flat(Some("npm"), Some(name), Some(WILDCARD), Some(id)),
                                 Record(Some("npm"), Some(name), [], [version])])
    ensures var key := Key(Npm, name, version);
            var rows := [Flat(Some("npm"), Some(name), Some(WILDCARD), Some(id)),
                         Record(Some("npm"), Some(name), [], [version])];
            Listed(rows, key) && !Flags(Find(entries, key))
  {
    var key := Key(Npm, name, version);
    var all, one := Flat(Some("npm"), Some(name), Some(WILDCARD), Some(id)), Record(Some("npm"), Some(name), [], [version]);
    var rows := [all, one];
    assert rows[0] == all && rows[1] == one;
    assert key.(version := WILDCARD) in RowKeys(all) && id in RowIds(all);
    assert version in [version] && key in RowKeys(one) && RowIds(one) == {};
    assert key !in RowKeys(all);
    FlaggedExactly(rows, entries, key);
  }

  // ---------- Conditional refreshes ----------

  type Body = string
  type Decoder = Body -> Option<seq<Row>>

  datatype State = State(entries: Entries, etag: Option<string>)
  datatype Response = NotModified | Full(etag: Option<string>, body: Body) | Failure
  datatype Outcome = Updated | Kept | RefreshError

  class MirrorOracle {
    var entries: Entries
    var etag: Option<string>
    const decode: Decoder

    constructor (decode: Decoder)
      ensures entries == map[] && etag == None && this.decode == decode
    {
      entries, etag, this.decode := map[], None, decode;
    }

    ghost function Current(): State
      reads this
    {
      State(entries, etag)
    }

    /** One refresh, given the server's response to a request conditional on `etag`.
        `NotModified` is a 304 that the HTTP client raises as a status error; one that
        it returns as an ordinary response is `Full`, with an empty body. */
    method RefreshOnce(response: Response) returns (outcome: Outcome)
      modifies this
      ensures RefreshTo(old(Current()), response, Current(), decode)
      ensures outcome.Kept? <==> response.NotModified?
      ensures outcome.RefreshError? <==> response.Failure? || (response.Full? && decode(response.body).None?)
    {
      match response
      case NotModified => return Kept;
      case Failure => return RefreshError;
      case Full(newEtag, body) =>
        var rows := decode(body);
        if rows.None? {
          return RefreshError;
        }
        var parsed := ParseRows(rows.value);
        entries, etag := parsed, newEtag;
        return Updated;
    }
  }

  /** What the server holds at the time of a refresh. */
  datatype Server = Server(etag: Option<string>, body: Body)

  /** A 304, whether the HTTP client raises it or returns it with its empty body. */
  predicate Is304(server: Server, ifNoneMatch: Option<string>, response: Response) {
    && ifNoneMatch.Some? && ifNoneMatch == server.etag
    && (response.NotModified? || (response.Full? && response.body == ""))
  }

  /** A server's honest responses: 304 only for its current tag. */
  predicate Honest(server: Server, ifNoneMatch: Option<string>, response: Response) {
    || response.Failure? || response == Full(server.etag, server.body) || Is304(server, ifNoneMatch, response)
  }

  /** The refresh as a relation between client states, as `RefreshOnce` ensures it. */
  ghost predicate RefreshTo(s: State, response: Response, s': State, decode: Decoder) {
    if response.Full? && decode(response.body).Some?
    then s'.etag == response.etag && IsTableOf(s'.entries, decode(response.body).value)
    else s' == s
  }

  /** A run of refreshes against a server that changes between them, starting empty. */
  ghost predicate IsRun(states: seq<State>, servers: seq<Server>, responses: seq<Response>, decode: Decoder) {
    && |states| == |servers| + 1 == |responses| + 1
    && states[0] == State(map[], None)
    && forall i | 0 <= i < |servers| ::
         Honest(servers[i], states[i].etag, responses[i]) && RefreshTo(states[i], responses[i], states[i + 1], decode)
  }

  /** A tag is never used for two different bodies. */
  ghost predicate TagsDetermineBodies(servers: seq<Server>) {
    forall i, j | 0 <= i < |servers| && 0 <= j < |servers| && servers[i].etag.Some? && servers[i].etag == servers[j].etag ::
      servers[i].body == servers[j].body
  }

  /** The entries are the table of the body some server had under the stored tag. */
  ghost predicate Coherent(s: State, servers: seq<Server>, decode: Decoder) {
    s.etag.Some? ==> exists i | 0 <= i < |servers| ::
      servers[i].etag == s.etag && decode(servers[i].body).Some? && IsTableOf(s.entries, decode(servers[i].body).value)
  }

  lemma CoherentStep(s: State, s': State, servers: seq<Server>, i: nat, response: Response, decode: Decoder)
    requires i < |servers| && decode("").None? && Coherent(s, servers, decode)
    requires Honest(servers[i], s.etag, response) && RefreshTo(s, response, s', decode)
    ensures Coherent(s', servers, decode)
  {
    hide IsTableOf;
  }

  lemma {:induction false} RunsAreCoherent(
      states: seq<State>, servers: seq<Server>, responses: seq<Response>, decode: Decoder, n: nat)
    requires IsRun(states, servers, responses, decode) && decode("").None? && n < |states|
    ensures Coherent(states[n], servers, decode)
  {
    if n > 0 {
      hide RefreshTo, Coherent;
      RunsAreCoherent(states, servers, responses, decode, n - 1);
      CoherentStep(states[n - 1], states[n], servers, n - 1, responses[n - 1], decode);
    }
  }

  /** The table a 304 leaves in place is that of the server's current body. */
  lemma UnmodifiedIsCurrent(s: State, servers: seq<Server>, n: nat, response: Response, decode: Decoder)
    requires n < |servers| && TagsDetermineBodies(servers) && Coherent(s, servers, decode)
    requires Is304(servers[n], s.etag, response)
    ensures decode(servers[n].body).Some? && IsTableOf(s.entries, decode(servers[n].body).value)
  {
    hide IsTableOf;
    var i :| 0 <= i < |servers| && servers[i].etag == s.etag && decode(servers[i].body).Some?
             && IsTableOf(s.entries, decode(servers[i].body).value);
    assert servers[i].body == servers[n].body;
  }

  /** After any refresh whose request does not fail, whether the server sent a body
      or a 304, in either form, the table is that of the server's current body:
      lookups equal those of an unconditional fetch. A failed one changes nothing. */
  lemma ConditionalEqualsUnconditional(
      states: seq<State>, servers: seq<Server>, responses: seq<Response>, decode: Decoder, n: nat, direct: Entries)
    requires IsRun(states, servers, responses, decode) && decode("").None?
    requires TagsDetermineBodies(servers) && n < |servers|
    ensures !responses[n].Failure? && decode(servers[n].body).Some? && IsTableOf(direct, decode(servers[n].body).value) ==>
              states[n + 1].entries == direct
    ensures Is304(servers[n], states[n].etag, responses[n]) ==>
              decode(servers[n].body).Some? && states[n + 1] == states[n]
    ensures responses[n].Failure? || decode(servers[n].body).None? ==> states[n + 1] == states[n]
  {
    hide IsTableOf, Coherent;
    RunsAreCoherent(states, servers, responses, decode, n);
    if Is304(servers[n], states[n].etag, responses[n]) {
      UnmodifiedIsCurrent(states[n], servers, n, responses[n], decode);
    }
    if !responses[n].Failure? && decode(servers[n].body).Some? && IsTableOf(direct, decode(servers[n].body).value) {
      var rows := decode(servers[n].body).value;
      TableIsUnique(states[n + 1].entries, direct, rows, rows);
    }
  }

  // ---------- The layered oracle ----------

  datatype OracleReply = Replied(ids: Option<set<string>>) | Unavailable

  /** The mirror answers every lookup, even before its first refresh. */
  function MirrorReply(entries: Entries, key: Key): OracleReply {
    Replied(Find(entries, key))
  }

  function LayeredReply(primary: OracleReply, fallback: OracleReply): OracleReply {
    match primary
    case Replied(ids) => if Flags(ids) then Replied(ids) else Replied(None)
    case Unavailable => fallback
  }

  /** The fallback has a say exactly when the primary has no answer; so never over
      the mirror, and an empty mirror clears every package. */
  lemma FallbackHeardExactly(primary: OracleReply, entries: Entries, key: Key)
    ensures forall live :: LayeredReply(primary, live) ==
              if primary.Unavailable? then live
              else if exists id, ids :: primary.ids == Some(ids) && id in ids then primary
              else Replied(None)
    ensures (exists live, live' :: LayeredReply(primary, live) != LayeredReply(primary, live')) <==> primary.Unavailable?
    ensures forall live :: LayeredReply(MirrorReply(entries, key), live).Replied?
    ensures forall live :: Flags(LayeredReply(MirrorReply(entries, key), live).ids) <==> Flags(Find(entries, key))
    ensures forall live :: entries == map[] ==> LayeredReply(MirrorReply(entries, key), live) == Replied(None)
  {
    assert LayeredReply(Unavailable, Unavailable) != LayeredReply(Unavailable, Replied(None));
  }
}
