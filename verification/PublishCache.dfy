/** The publish-time clients: the PyPI name normaliser, the cache both clients
    keep, and the merge of the NuGet registration pages. */
module PublishCache {
  import opened Basics
  import opened Text

  // ---------- Names ----------

  predicate IsSeparator(c: char) {
    c == '-' || c == '_' || c == '.'
  }

  function LowerChar(c: char): char {
    if 'A' <= c <= 'Z' then c - 'A' + 'a' else c
  }

  function Lower(s: string): (r: string)
    ensures |r| == |s| && forall i | 0 <= i < |s| :: r[i] == LowerChar(s[i])
  {
    seq(|s|, i requires 0 <= i < |s| => LowerChar(s[i]))
  }

  /** Nonempty, without separators, and lower case. */
  predicate IsRun(r: string) {
    r != "" && forall i | 0 <= i < |r| :: !IsSeparator(r[i]) && LowerChar(r[i]) == r[i]
  }

  /** The maximal separator-free runs of `s`, in lower case. */
  function Runs(s: string): (runs: seq<string>)
    ensures forall i | 0 <= i < |runs| :: IsRun(runs[i])
    ensures s != "" && !IsSeparator(s[|s| - 1]) ==> runs != []
  {
    if s == "" then []
    else
      var init, c := s[..|s| - 1], s[|s| - 1];
      var runs := Runs(init);
      if IsSeparator(c) then runs
      else if init != "" && !IsSeparator(init[|init| - 1])
      then Grown(runs, LowerChar(c))
      else runs + [[LowerChar(c)]]
  }

  /** The name the code computes: the runs, joined by dashes. */
  function Normalized(s: string): string {
    Join(Runs(s), '-')
  }

  lemma {:induction false} JoinSnoc(runs: seq<string>, r: string)
    ensures Join(runs + [r], '-') == if runs == [] then r else Join(runs, '-') + "-" + r
  {
    if runs != [] {
      assert (runs + [r])[1..] == runs[1..] + [r];
      JoinSnoc(runs[1..], r);
      assert |runs| == 1 ==> runs[1..] == [];
    }
  }

  lemma JoinEndsInRun(runs: seq<string>)
    requires forall i | 0 <= i < |runs| :: IsRun(runs[i])
    ensures runs == [] ==> Join(runs, '-') == ""
    ensures runs != [] ==> Join(runs, '-') != "" && Join(runs, '-')[|Join(runs, '-')| - 1] != '-'
  {
    if runs != [] {
      var init, last := runs[..|runs| - 1], runs[|runs| - 1];
      assert runs == init + [last];
      JoinSnoc(init, last);
      assert IsRun(last);
    }
  }

  lemma RunsSnoc(s: string, c: char)
    ensures IsSeparator(c) ==> Runs(s + [c]) == Runs(s)
    ensures !IsSeparator(c) && s != "" && !IsSeparator(s[|s| - 1]) ==> Runs(s + [c]) == Grown(Runs(s), LowerChar(c))
    ensures !IsSeparator(c) && (s == "" || IsSeparator(s[|s| - 1])) ==> Runs(s + [c]) == Runs(s) + [[LowerChar(c)]]
  {
    assert (s + [c])[..|s|] == s;
  }

  /** `runs` with `c` appended to the last one. */
  function Grown(runs: seq<string>, c: char): (r: seq<string>)
    requires runs != []
    ensures |r| == |runs| && r[|r| - 1] == runs[|runs| - 1] + [c]
    ensures forall i | 0 <= i < |runs| - 1 :: r[i] == runs[i]
  {
    runs[..|runs| - 1] + [runs[|runs| - 1] + [c]]
  }

  /** Appending to the last run appends to the joined name. */
  lemma GrowLastRun(runs: seq<string>, c: char)
    requires runs != []
    ensures Join(Grown(runs, c), '-') == Join(runs, '-') + [c]
  {
    var init, last := runs[..|runs| - 1], runs[|runs| - 1];
    assert runs == init + [last];
    JoinSnoc(init, last);
    JoinSnoc(init, last + [c]);
    if init != [] {
      assert Join(init, '-') + "-" + (last + [c]) == Join(init, '-') + "-" + last + [c];
    }
  }

  /** How the normalised name grows with one more character. */
  lemma NormalizedSnoc(s: string, c: char)
    ensures IsSeparator(c) ==> Normalized(s + [c]) == Normalized(s)
    ensures !IsSeparator(c) && s != "" && !IsSeparator(s[|s| - 1]) ==>
              Normalized(s + [c]) == Normalized(s) + [LowerChar(c)]
    ensures !IsSeparator(c) && (s == "" || IsSeparator(s[|s| - 1])) ==>
              Normalized(s + [c]) == if Normalized(s) == "" then [LowerChar(c)] else Normalized(s) + "-" + [LowerChar(c)]
    ensures Normalized(s) != "" ==> Normalized(s)[|Normalized(s)| - 1] != '-'
    ensures s != "" && !IsSeparator(s[|s| - 1]) ==> Normalized(s) != ""
  {
    RunsSnoc(s, c);
    JoinEndsInRun(Runs(s));
    if !IsSeparator(c) {
      if s != "" && !IsSeparator(s[|s| - 1]) {
        GrowLastRun(Runs(s), LowerChar(c));
      } else {
        JoinSnoc(Runs(s), [LowerChar(c)]);
      }
    }
  }

  /** What the loop holds: a separator is pending after a nonempty name. */
  ghost predicate InProgress(s: string, out: string, prevSep: bool) {
    && out == (if prevSep then Normalized(s) + "-" else Normalized(s))
    && (prevSep <==> s != "" && IsSeparator(s[|s| - 1]) && Normalized(s) != "")
  }

  method NormalizeName(name: string) returns (out: string)
    ensures out == Normalized(name)
  {
    out := "";
    var prevSep := false;
    for i := 0 to |name|
      invariant InProgress(name[..i], out, prevSep)
    {
      var c := name[i];
      assert name[..i + 1] == name[..i] + [c];
      NormalizedSnoc(name[..i], c);
      if IsSeparator(c) {
        if !prevSep && out != "" {
          out := out + "-";
          prevSep := true;
        }
      } else {
        out := out + [LowerChar(c)];
        prevSep := false;
      }
    }
    assert name[..|name|] == name;
    out := DropTrailingDashes(out);
    PendingDashDropped(name);
  }

  method DropTrailingDashes(s: string) returns (out: string)
    ensures out == TrimEnd(s, '-')
  {
    out := s;
    while out != "" && out[|out| - 1] == '-'
      invariant TrimEnd(out, '-') == TrimEnd(s, '-')
      decreases |out|
    {
      out := out[..|out| - 1];
    }
  }

  lemma PendingDashDropped(name: string)
    ensures TrimEnd(Normalized(name), '-') == Normalized(name) == TrimEnd(Normalized(name) + "-", '-')
  {
    JoinEndsInRun(Runs(name));
    assert (Normalized(name) + "-")[..|Normalized(name)|] == Normalized(name);
  }

  lemma {:induction false} RunsAppend(s: string, r: string)
    requires s == "" || IsSeparator(s[|s| - 1])
    requires IsRun(r)
    ensures Runs(s + r) == Runs(s) + [r]
    decreases |r|
  {
    hide Runs;
    var init, c := r[..|r| - 1], r[|r| - 1];
    assert !IsSeparator(c) && LowerChar(c) == c;
    if init == "" {
      assert r == [c];
      RunsSnoc(s, c);
    } else {
      var t := s + init;
      assert s + r == t + [c] && !IsSeparator(t[|t| - 1]);
      assert IsRun(init);
      RunsAppend(s, init);
      RunsSnoc(t, c);
      GrownSnoc(Runs(s), init, c);
      assert r == init + [c];
    }
  }

  lemma GrownSnoc(runs: seq<string>, last: string, c: char)
    ensures Grown(runs + [last], c) == runs + [last + [c]]
  {
  }

  lemma {:induction false} RunsOfJoin(runs: seq<string>)
    requires forall i | 0 <= i < |runs| :: IsRun(runs[i])
    ensures Runs(Join(runs, '-')) == runs
  {
    if runs != [] {
      var init, last := runs[..|runs| - 1], runs[|runs| - 1];
      assert runs == init + [last];
      RunsOfJoin(init);
      JoinSnoc(init, last);
      if init == [] {
        RunsAppend("", last);
        assert "" + last == last;
      } else {
        RunsSnoc(Join(init, '-'), '-');
        RunsAppend(Join(init, '-') + "-", last);
      }
    }
  }

  /** Normalising is idempotent, and two names get the same key exactly when they
      have the same runs. */
  lemma NormalizedIdentifies(a: string, b: string)
    ensures Normalized(Normalized(a)) == Normalized(a)
    ensures Normalized(a) == Normalized(b) <==> Runs(a) == Runs(b)
  {
    RunsOfJoin(Runs(a));
    RunsOfJoin(Runs(b));
  }

  /** The project-name rule of PEP 503: lower case, with every run of separators
      replaced by a single dash. */
  function Pep503(s: string): string {
    if s == "" then ""
    else
      var init, c := s[..|s| - 1], s[|s| - 1];
      if !IsSeparator(c) then Pep503(init) + [LowerChar(c)]
      else if EndsInSeparator(init) then Pep503(init)
      else Pep503(init) + "-"
  }

  predicate EndsInSeparator(s: string) {
    s != "" && IsSeparator(s[|s| - 1])
  }

  function DashIf(b: bool): string {
    if b then "-" else ""
  }

  /** What the code loses of the PEP 503 name: a dash at either end. */
  ghost predicate LosesEndDashes(s: string) {
    && Pep503(s) == (if Normalized(s) == "" then DashIf(s != "")
                     else DashIf(IsSeparator(s[0])) + Normalized(s) + DashIf(EndsInSeparator(s)))
    && (s != "" && Normalized(s) == "" ==> IsSeparator(s[0]))
  }

  lemma {:induction false} Pep503Means(s: string)
    ensures LosesEndDashes(s)
  {
    if s != "" {
      var init, c := s[..|s| - 1], s[|s| - 1];
      assert s == init + [c];
      Pep503Means(init);
      if IsSeparator(c) {
        SeparatorStep(init, c);
      } else {
        LetterStep(init, c);
      }
    }
  }

  lemma SeparatorStep(s: string, c: char)
    requires IsSeparator(c) && LosesEndDashes(s)
    ensures LosesEndDashes(s + [c])
  {
    assert Normalized("") == "";
    hide Pep503, Normalized;
    NormalizedSnoc(s, c);
    Pep503Snoc(s, c);
    if Normalized(s) != "" {
      DashedSnoc(DashIf(IsSeparator(s[0])), Normalized(s), c, EndsInSeparator(s));
    }
  }

  lemma LetterStep(s: string, c: char)
    requires !IsSeparator(c) && LosesEndDashes(s)
    ensures LosesEndDashes(s + [c])
  {
    assert Normalized("") == "";
    hide Pep503, Normalized;
    NormalizedSnoc(s, c);
    Pep503Snoc(s, c);
    if Normalized(s) != "" {
      DashedSnoc(DashIf(IsSeparator(s[0])), Normalized(s), c, EndsInSeparator(s));
    }
  }

  lemma DashedSnoc(head: string, name: string, c: char, pending: bool)
    ensures IsSeparator(c) ==> head + name + DashIf(pending) + DashIf(!pending) == head + name + "-"
    ensures head + name + DashIf(pending) + [LowerChar(c)]
         == head + (if pending then name + "-" + [LowerChar(c)] else name + [LowerChar(c)]) + ""
  {
    if pending {
      assert head + name + "-" + [LowerChar(c)] == head + (name + "-" + [LowerChar(c)]);
    } else {
      assert head + name + "" == head + name;
    }
  }

  lemma Pep503Snoc(s: string, c: char)
    ensures Pep503(s + [c])
         == Pep503(s) + if !IsSeparator(c) then [LowerChar(c)] else DashIf(!EndsInSeparator(s))
  {
    assert (s + [c])[..|s|] == s;
  }

  /** The code's name is the PEP 503 name exactly when no separator is at either end. */
  lemma NormalizedIsPep503Exactly(s: string)
    ensures Normalized(s) == Pep503(s) <==> s == "" || (!IsSeparator(s[0]) && !EndsInSeparator(s))
  {
    Pep503Means(s);
    if s != "" && Normalized(s) == "" {
      NormalizedSnoc(s, '-');
    }
  }

  lemma LeadingDashVanishes()
    ensures Normalized("-a") == "a" && Pep503("-a") == "-a"
  {
    assert "-a"[..1] == "-" && "-"[..0] == "";
    RunsSnoc("", '-');
    RunsSnoc("-", 'a');
    assert "" + "-" == "-" && "-" + "a" == "-a";
    Pep503Snoc("", '-');
    Pep503Snoc("-", 'a');
  }

  /** The separators are exactly the dash, the underscore and the dot. */
  lemma SeparatorsCollapse(c: char)
    ensures Normalized(['a', c, 'b']) == "a-b" <==> c in "-_."
  {
    assert Normalized("") == "";
    hide Normalized;
    assert "" + ['a'] == ['a'] && ['a'] + [c] == ['a', c] && ['a', c] + ['b'] == ['a', c, 'b'];
    NormalizedSnoc("", 'a');
    NormalizedSnoc(['a'], c);
    NormalizedSnoc(['a', c], 'b');
    if IsSeparator(c) {
      assert ['a'] + "-" + ['b'] == "a-b";
    } else {
      assert (['a'] + [LowerChar(c)] + ['b'])[1] != "a-b"[1];
    }
  }

  /** Case does not count for NuGet, for ASCII letters only. */
  lemma NuGetKeysMean(a: string, b: string)
    ensures CacheKey(NuGet, a) == CacheKey(NuGet, b)
            <==> |a| == |b| && forall i | 0 <= i < |a| :: SameLetter(a[i], b[i])
  {
    if Lower(a) == Lower(b) {
      forall i | 0 <= i < |a|
        ensures SameLetter(a[i], b[i])
      {
        assert Lower(a)[i] == Lower(b)[i];
      }
    }
  }

  /** The same ASCII letter in either case, or the same character. */
  predicate SameLetter(x: char, y: char) {
    || x == y
    || ('A' <= x <= 'Z' && y as int == x as int + 32)
    || ('A' <= y <= 'Z' && x as int == y as int + 32)
  }

  // ---------- The cache ----------

  type Times = map<string, int>
  datatype Registry = PyPI | NuGet
  datatype CacheEntry = CacheEntry(data: Times, fetched: nat)
  type Cache = map<string, CacheEntry>

  /** Seconds an entry stays usable. */
  const CACHE_TTL: nat := 600

  function CacheKey(registry: Registry, name: string): string {
    match registry
    case PyPI => Normalized(name)
    case NuGet => Lower(name)
  }

  predicate IsFresh(cache: Cache, key: string, now: nat) {
    key in cache && now - cache[key].fetched < CACHE_TTL
  }

  class Client {
    const registry: Registry
    var cache: Cache

    constructor (registry: Registry)
      ensures this.registry == registry && cache == map[]
    {
      this.registry, cache := registry, map[];
    }

    method KeyOf(name: string) returns (key: string)
      ensures key == CacheKey(registry, name)
    {
      match registry
      case PyPI => key := NormalizeName(name);
      case NuGet => key := Lower(name);
    }

    method GetFresh(name: string, now: nat) returns (data: Option<Times>)
      ensures var key := CacheKey(registry, name);
              data == if IsFresh(cache, key, now) then Some(cache[key].data) else None
    {
      var key := KeyOf(name);
      if key !in cache {
        return None;
      }
      var entry := cache[key];
      return if now - entry.fetched < CACHE_TTL then Some(entry.data) else None;
    }

    method Put(name: string, data: Times, now: nat)
      modifies this
      ensures cache == old(cache)[CacheKey(registry, name) := CacheEntry(data, now)]
    {
      var key := KeyOf(name);
      cache := cache[key := CacheEntry(data, now)];
    }

    /** One lookup, checked at `asked`; on a miss the registry's response (the empty
        map when it fails) is stored at `done`. */
    method LookupBlocking(name: string, asked: nat, response: Times, done: nat) returns (data: Times)
      modifies this
      ensures var r := Request(CacheKey(registry, name), asked, response, done);
              data == Answer(old(cache), r) && cache == Updated(old(cache), r)
    {
      var hit := GetFresh(name, asked);
      if hit.Some? {
        return hit.value;
      }
      Put(name, response, done);
      return response;
    }
  }

  // ---------- Serial runs ----------

  datatype Request = Request(key: string, asked: nat, response: Times, done: nat)

  function Answer(cache: Cache, r: Request): Times {
    if IsFresh(cache, r.key, r.asked) then cache[r.key].data else r.response
  }

  function Updated(cache: Cache, r: Request): Cache {
    if IsFresh(cache, r.key, r.asked) then cache else cache[r.key := CacheEntry(r.response, r.done)]
  }

  /** `caches[i]` is the cache before request `i` of a run from the empty client;
      a request is asked when the one before it is done. */
  ghost predicate IsRunOf(caches: seq<Cache>, rs: seq<Request>) {
    && |caches| == |rs| + 1
    && caches[0] == map[]
    && (forall i | 0 <= i < |rs| :: caches[i + 1] == Updated(caches[i], rs[i]))
    && (forall i | 0 <= i < |rs| :: rs[i].asked <= rs[i].done)
    && (forall i, j | 0 <= i < j < |rs| :: rs[i].done <= rs[j].asked)
  }

  /** Does request `i` reach the registry? */
  predicate Fetches(caches: seq<Cache>, rs: seq<Request>, i: nat)
    requires i < |rs| <= |caches|
  {
    !IsFresh(caches[i], rs[i].key, rs[i].asked)
  }

  /** Request `k` is the last of the first `n` that fetched `key`. */
  ghost predicate IsLastFetch(caches: seq<Cache>, rs: seq<Request>, n: nat, key: string, k: nat)
    requires n <= |rs| <= |caches|
  {
    && k < n && rs[k].key == key && Fetches(caches, rs, k)
    && forall j | k < j < n && rs[j].key == key :: !Fetches(caches, rs, j)
  }

  /** A cache entry is always that of the last fetch of its key. */
  lemma {:induction false} EntryIsLastFetch(caches: seq<Cache>, rs: seq<Request>, n: nat, key: string) returns (k: nat)
    requires IsRunOf(caches, rs) && n <= |rs|
    ensures key in caches[n] ==>
              IsLastFetch(caches, rs, n, key, k) && caches[n][key] == CacheEntry(rs[k].response, rs[k].done)
    ensures key !in caches[n] ==> forall j | 0 <= j < n && rs[j].key == key :: !Fetches(caches, rs, j)
  {
    k := 0;
    if n > 0 {
      if rs[n - 1].key == key && Fetches(caches, rs, n - 1) {
        k := n - 1;
      } else {
        k := EntryIsLastFetch(caches, rs, n - 1, key);
      }
    }
  }

  /** In every serial run each key is fetched at most once per lifetime, counted from
      the end of the fetch, and every answer is what some fetch of that key returned
      less than a lifetime before it was asked for. */
  lemma FetchedOncePerLifetime(caches: seq<Cache>, rs: seq<Request>, i: nat)
    requires IsRunOf(caches, rs) && i < |rs|
    ensures exists k: nat ::
              && k <= i && rs[k].key == rs[i].key && Fetches(caches, rs, k) && rs[i].asked < rs[k].done + CACHE_TTL
              && Answer(caches[i], rs[i]) == rs[k].response
    ensures Fetches(caches, rs, i) ==>
              forall j | 0 <= j < i && rs[j].key == rs[i].key && Fetches(caches, rs, j) ::
                rs[i].asked >= rs[j].done + CACHE_TTL
  {
    var k := EntryIsLastFetch(caches, rs, i, rs[i].key);
    if Fetches(caches, rs, i) {
      assert Answer(caches[i], rs[i]) == rs[i].response;
    }
  }

  // ---------- NuGet registration pages ----------

  const MAX_PAGES_PER_LOOKUP: nat := 16

  function Known(times: Times, version: string): Option<int> {
    if version in times then Some(times[version]) else None
  }

  predicate Knows(source: Option<Times>, version: string) {
    source.Some? && version in source.value
  }

  /** The time given by the first source that knows the version; a page that could
      not be fetched (`None`) knows none. */
  function FirstTime(sources: seq<Option<Times>>, version: string): (r: Option<int>)
    ensures r.None? ==> forall i | 0 <= i < |sources| :: !Knows(sources[i], version)
    ensures r.Some? ==> exists i | 0 <= i < |sources| ::
              && Knows(sources[i], version) && sources[i].value[version] == r.value
              && forall j | 0 <= j < i :: !Knows(sources[j], version)
  {
    if sources == [] then None
    else
      var init, last := sources[..|sources| - 1], sources[|sources| - 1];
      var r := FirstTime(init, version);
      assert forall i | 0 <= i < |init| :: sources[i] == init[i];
      if r.Some? then r else if Knows(last, version) then Some(last.value[version]) else None
  }

  /** The registration index, then at most 16 further pages, first one wins. */
  method RefreshNow(index: Option<Times>, pages: seq<Option<Times>>) returns (times: Times)
    ensures var n := if |pages| < MAX_PAGES_PER_LOOKUP then |pages| else MAX_PAGES_PER_LOOKUP;
            forall v :: Known(times, v) == if index.Some? then FirstTime([index] + pages[..n], v) else None
  {
    if index.None? {
      return map[];
    }
    times := index.value;
    var n := if |pages| < MAX_PAGES_PER_LOOKUP then |pages| else MAX_PAGES_PER_LOOKUP;
    FirstPage(index);
    for i := 0 to n
      invariant forall v :: Known(times, v) == FirstTime([index] + pages[..i], v)
    {
      ghost var sources := [index] + pages[..i];
      assert [index] + pages[..i + 1] == sources + [pages[i]];
      var before := times;
      if pages[i].Some? {
        times := pages[i].value + before;
      }
      forall v ensures Known(times, v) == FirstTime(sources + [pages[i]], v) {
        assert (sources + [pages[i]])[..|sources|] == sources;
        assert Known(before, v) == FirstTime(sources, v);
      }
    }
  }

  lemma FirstPage(index: Option<Times>)
    requires index.Some?
    ensures forall v :: Known(index.value, v) == FirstTime([index] + [], v)
  {
    forall v ensures Known(index.value, v) == FirstTime([index] + [], v) {
      assert ([index] + [])[..0] == [];
    }
  }
}
