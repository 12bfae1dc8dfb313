/** The live OSV client: a cache that keeps positive answers for ever and negative
    ones for ten minutes, filled by fetches that run outside its lock. */
module Osv {
  import opened Basics
  import opened Ecosystems

  datatype CacheEntry = CacheEntry(ids: seq<string>, at: nat)
  datatype Answer = Flagged(ids: seq<string>) | NotFlagged | Failed
  type Cache = map<Key, CacheEntry>

  /** Seconds a negative result stays usable. */
  const NEGATIVE_TTL: nat := 600

  /** The ecosystems OSV has a name for; the others are never asked about. */
  predicate Supported(eco: Ecosystem) {
    eco != Git && eco != VscodeExtension
  }

  function CachedIds(cache: Cache, key: Key, now: nat): Option<seq<string>> {
    if key in cache && (cache[key].ids != [] || now - cache[key].at < NEGATIVE_TTL)
    then Some(cache[key].ids) else None
  }

  function Remembered(cache: Cache, key: Key, ids: seq<string>, now: nat): Cache {
    cache[key := CacheEntry(ids, now)]
  }

  function AnswerOf(ids: seq<string>): Answer {
    if ids == [] then NotFlagged else Flagged(ids)
  }

  /** The outcome of one undisturbed lookup. A hit is reported from the cache, which
      stays; on a miss the ids are stored and reported, or the request has failed. */
  ghost predicate IsLookup(cache: Cache, key: Key, asked: nat, response: Option<seq<string>>, done: nat,
                           answer: Answer, cache': Cache) {
    var hit := key in cache && (cache[key].ids != [] || asked - cache[key].at < NEGATIVE_TTL);
    var asks := key.eco in {Crates, Npm, Pypi, Nuget};
    if !hit && asks && response.None? then answer == Failed && cache' == cache
    else
      var used := if hit then cache[key].ids else if asks then response.value else [];
      && (if used == [] then answer == NotFlagged else answer == Flagged(used))
      && cache' == if hit then cache else cache[key := CacheEntry(used, done)]
  }

  class OsvClient {
    var cache: Cache

    constructor ()
      ensures cache == map[]
    {
      cache := map[];
    }

    method Cached(key: Key, now: nat) returns (ids: Option<seq<string>>)
      ensures ids == CachedIds(cache, key, now)
    {
      if key !in cache {
        return None;
      }
      var entry := cache[key];
      var usable := entry.ids != [] || now - entry.at < NEGATIVE_TTL;
      return if usable then Some(entry.ids) else None;
    }

    method Remember(key: Key, ids: seq<string>, now: nat)
      modifies this
      ensures cache == Remembered(old(cache), key, ids, now)
    {
      cache := cache[key := CacheEntry(ids, now)];
    }

    /** One undisturbed lookup: checked at `asked`; on a miss the response
        (`None` for a failed request) is stored at `done`. */
    method Lookup(key: Key, asked: nat, response: Option<seq<string>>, done: nat) returns (answer: Answer)
      modifies this
      ensures IsLookup(old(cache), key, asked, response, done, answer, cache)
    {
      var hit := Cached(key, asked);
      if hit.Some? {
        return AnswerOf(hit.value);
      }
      var ids: seq<string> := [];
      if Supported(key.eco) {
        if response.None? {
          return Failed;
        }
        ids := response.value;
      }
      Remember(key, ids, done);
      return AnswerOf(ids);
    }
  }

  // ---------- Concurrent lookups ----------

  type Thread = nat

  /** What upstream would say about a key at a time. */
  type Upstream = (nat, Key) -> seq<string>

  function Observed(up: Upstream, t: nat, key: Key): seq<string> {
    if Supported(key.eco) then up(t, key) else []
  }

  /** Flags are only ever added. */
  ghost predicate OnlyAdds(up: Upstream) {
    forall key, t: nat, t': nat | t <= t' && up(t, key) != [] :: up(t', key) != []
  }

  /** A lookup that missed the cache: not yet answered by upstream, or holding
      what upstream said at time `at`. */
  datatype Flight = Asking(key: Key) | Holding(key: Key, ids: seq<string>, at: nat)
  datatype Reply = Reply(at: nat, key: Key, ids: seq<string>)
  datatype State = State(now: nat, cache: Cache, flights: map<Thread, Flight>, replies: seq<Reply>)

  datatype Step =
    | Wait(delay: nat)
    | Begin(thread: Thread, key: Key)
    | Observe(thread: Thread)
    | Abort(thread: Thread)
    | Finish(thread: Thread)

  const INITIAL := State(0, map[], map[], [])

  /** `latency` bounds the time from observing upstream to remembering it. */
  ghost predicate Enabled(s: State, step: Step, latency: nat) {
    match step
    case Wait(d) => forall t | t in s.flights && s.flights[t].Holding? :: s.now + d - s.flights[t].at <= latency
    case Begin(t, _) => t !in s.flights
    case Observe(t) => t in s.flights && s.flights[t].Asking?
    case Abort(t) => t in s.flights
    case Finish(t) => t in s.flights && s.flights[t].Holding?
  }

  ghost function After(s: State, step: Step, up: Upstream, latency: nat): State
    requires Enabled(s, step, latency)
  {
    match step
    case Wait(d) => s.(now := s.now + d)
    case Begin(t, key) =>
      var hit := CachedIds(s.cache, key, s.now);
      if hit.Some? then s.(replies := s.replies + [Reply(s.now, key, hit.value)])
      else s.(flights := s.flights[t := Asking(key)])
    case Observe(t) =>
      var key := s.flights[t].key;
      s.(flights := s.flights[t := Holding(key, Observed(up, s.now, key), s.now)])
    case Abort(t) => s.(flights := s.flights - {t})
    case Finish(t) =>
      var Holding(key, ids, _) := s.flights[t];
      s.(cache := Remembered(s.cache, key, ids, s.now),
         flights := s.flights - {t},
         replies := s.replies + [Reply(s.now, key, ids)])
  }

  /** `states` are those on the way through `steps`. */
  ghost predicate Leads(states: seq<State>, steps: seq<Step>, up: Upstream, latency: nat) {
    && |states| == |steps| + 1
    && forall i | 0 <= i < |steps| ::
         Enabled(states[i], steps[i], latency) && states[i + 1] == After(states[i], steps[i], up, latency)
  }

  /** The answer a lookup gives and the ids of a reply agree. */
  predicate Tells(answer: Answer, r: Reply) {
    if r.ids == [] then answer == NotFlagged else answer == Flagged(r.ids)
  }

  /** A lookup that hits is the step `Begin`: it appends one reply, which its answer tells. */
  lemma HitIsBegin(s: State, t: Thread, key: Key, up: Upstream, latency: nat, response: Option<seq<string>>,
                   done: nat, answer: Answer, cache': Cache)
    requires Enabled(s, Begin(t, key), latency) && CachedIds(s.cache, key, s.now).Some?
    requires IsLookup(s.cache, key, s.now, response, done, answer, cache')
    ensures var s' := After(s, Begin(t, key), up, latency);
            && s'.cache == cache' && s'.flights == s.flights
            && |s'.replies| == |s.replies| + 1 && s'.replies[|s.replies|].key == key
            && Tells(answer, s'.replies[|s.replies|])
  {
  }

  /** A lookup that misses and is answered is `Begin`, `Observe` and `Finish`, with
      any waiting before and after upstream is observed: the same cache, and one reply,
      which its answer tells. */
  lemma MissIsThreeSteps(s: State, t: Thread, key: Key, up: Upstream, latency: nat, before: nat, after: nat,
                         answer: Answer, cache': Cache) returns (states: seq<State>)
    requires t !in s.flights && CachedIds(s.cache, key, s.now).None? && after <= latency
    requires forall u | u in s.flights && s.flights[u].Holding? :: s.now + before + after - s.flights[u].at <= latency
    requires IsLookup(s.cache, key, s.now, Some(up(s.now + before, key)), s.now + before + after, answer, cache')
    ensures Leads(states, [Begin(t, key), Wait(before), Observe(t), Wait(after), Finish(t)], up, latency)
    ensures states[0] == s && states[5].cache == cache' && states[5].flights == s.flights
    ensures |states[5].replies| == |s.replies| + 1 && states[5].replies[|s.replies|].key == key
    ensures Tells(answer, states[5].replies[|s.replies|])
  {
    var s1 := After(s, Begin(t, key), up, latency);
    var s2 := After(s1, Wait(before), up, latency);
    var s3 := After(s2, Observe(t), up, latency);
    var s4 := After(s3, Wait(after), up, latency);
    states := [s, s1, s2, s3, s4, After(s4, Finish(t), up, latency)];
  }

  /** `states` is a run of the system taking `steps`, from the empty client. */
  ghost predicate IsRun(states: seq<State>, steps: seq<Step>, up: Upstream, latency: nat) {
    Leads(states, steps, up, latency) && states[0] == INITIAL
  }

  /** Upstream said exactly `ids` about `key` at some time in `lo..hi`. */
  ghost predicate SaidBetween(up: Upstream, key: Key, ids: seq<string>, lo: int, hi: int) {
    exists t: nat :: lo <= t <= hi && Observed(up, t, key) == ids
  }

  ghost predicate Grounded(s: State, up: Upstream, latency: nat) {
    && (forall k | k in s.cache ::
          s.cache[k].at <= s.now && SaidBetween(up, k, s.cache[k].ids, s.cache[k].at - latency, s.cache[k].at))
    && (forall t | t in s.flights && s.flights[t].Holding? ::
          var f := s.flights[t];
          f.at <= s.now <= f.at + latency && Observed(up, f.at, f.key) == f.ids)
    && (forall r | r in s.replies :: GroundedReply(r, up, latency))
  }

  ghost predicate GroundedReply(r: Reply, up: Upstream, latency: nat) {
    && SaidBetween(up, r.key, r.ids, 0, r.at)
    && (r.ids == [] ==> SaidBetween(up, r.key, [], r.at - (NEGATIVE_TTL + latency) + 1, r.at))
  }

  lemma GroundedStep(s: State, step: Step, up: Upstream, latency: nat)
    requires Grounded(s, up, latency) && Enabled(s, step, latency)
    ensures Grounded(After(s, step, up, latency), up, latency)
  {
  }

  lemma {:induction false} RunsAreGrounded(
      states: seq<State>, steps: seq<Step>, up: Upstream, latency: nat, n: nat)
    requires IsRun(states, steps, up, latency) && n < |states|
    ensures Grounded(states[n], up, latency)
  {
    if n > 0 {
      RunsAreGrounded(states, steps, up, latency, n - 1);
      GroundedStep(states[n - 1], steps[n - 1], up, latency);
    }
  }

  /** Bounded staleness, in every interleaving: a package reported as not flagged
      at time `t` was clean upstream less than the negative lifetime plus the
      fetch latency before `t`; so one flagged for that long is reported. */
  lemma BoundedStaleness(states: seq<State>, steps: seq<Step>, up: Upstream, latency: nat, n: nat, r: Reply)
    requires IsRun(states, steps, up, latency) && n < |states|
    requires r in states[n].replies && Supported(r.key.eco)
    ensures r.ids == [] ==>
              exists t: nat :: r.at - (NEGATIVE_TTL + latency) < t <= r.at && up(t, r.key) == []
    ensures forall t: nat | OnlyAdds(up) && t + NEGATIVE_TTL + latency <= r.at && up(t, r.key) != [] :: r.ids != []
    ensures r.ids != [] ==> exists t: nat :: t <= r.at && up(t, r.key) == r.ids
  {
    RunsAreGrounded(states, steps, up, latency, n);
    assert GroundedReply(r, up, latency);
  }

  /** A package of an unsupported ecosystem is never flagged, whatever upstream says. */
  lemma UnsupportedNeverFlagged(states: seq<State>, steps: seq<Step>, up: Upstream, latency: nat, n: nat, r: Reply)
    requires IsRun(states, steps, up, latency) && n < |states|
    requires r in states[n].replies && !Supported(r.key.eco)
    ensures r.ids == []
  {
    RunsAreGrounded(states, steps, up, latency, n);
    assert GroundedReply(r, up, latency);
  }

  // ---------- How tight the bound is, and what overlapping lookups can lose ----------

  const SAMPLE := Key(Npm, "left-pad", "1.0.0")

  /** Clean at time 0, flagged from time 1 on. */
  ghost function FlaggedFromOne(): Upstream {
    (t, key) => if t >= 1 then ["MAL-1"] else []
  }

  /** The bound cannot be lowered: some run reports as not flagged a package that
      was last clean exactly NEGATIVE_TTL + latency - 1 earlier. */
  lemma StalenessBoundIsTight(latency: nat) returns (states: seq<State>, steps: seq<Step>)
    ensures OnlyAdds(FlaggedFromOne()) && IsRun(states, steps, FlaggedFromOne(), latency)
    ensures exists r | r in states[|steps|].replies ::
              r.ids == [] && r.at == NEGATIVE_TTL + latency - 1 && Supported(r.key.eco)
              && forall t: nat | t > 0 :: FlaggedFromOne()(t, r.key) != []
  {
    var up := FlaggedFromOne();
    states, steps := [INITIAL], [];
    states, steps := Extend(states, steps, Begin(0, SAMPLE), up, latency);
    states, steps := Extend(states, steps, Observe(0), up, latency);
    states, steps := Extend(states, steps, Wait(latency), up, latency);
    states, steps := Extend(states, steps, Finish(0), up, latency);
    states, steps := Extend(states, steps, Wait(NEGATIVE_TTL - 1), up, latency);
    states, steps := Extend(states, steps, Begin(1, SAMPLE), up, latency);
    assert states[|steps|].replies[1] == Reply(latency + NEGATIVE_TTL - 1, SAMPLE, []);
  }

  /** A run continues by any enabled step. */
  lemma Extend(states: seq<State>, steps: seq<Step>, step: Step, up: Upstream, latency: nat)
    returns (states': seq<State>, steps': seq<Step>)
    requires IsRun(states, steps, up, latency) && Enabled(states[|steps|], step, latency)
    ensures IsRun(states', steps', up, latency)
    ensures |steps'| == |steps| + 1 && states'[|steps'|] == After(states[|steps|], step, up, latency)
  {
    states', steps' := states + [After(states[|steps|], step, up, latency)], steps + [step];
  }

  ghost predicate Says(r: Reply, key: Key, flagged: bool) {
    r.key == key && (r.ids != [] <==> flagged)
  }

  /** The package was reported flagged and, later, not flagged. */
  ghost predicate TakenBack(s: State, key: Key) {
    exists i, j :: 0 <= i < j < |s.replies| && Says(s.replies[i], key, true) && Says(s.replies[j], key, false)
  }

  /** With overlapping lookups a slow negative can overwrite a newer positive:
      the same package is reported flagged and, later, not flagged. */
  lemma PositiveCanBeLost(latency: nat) returns (states: seq<State>, steps: seq<Step>)
    requires latency >= 1
    ensures OnlyAdds(FlaggedFromOne()) && IsRun(states, steps, FlaggedFromOne(), latency)
    ensures TakenBack(states[|steps|], SAMPLE)
  {
    var up := FlaggedFromOne();
    states, steps := [INITIAL], [];
    states, steps := Extend(states, steps, Begin(0, SAMPLE), up, latency);
    states, steps := Extend(states, steps, Begin(1, SAMPLE), up, latency);
    states, steps := Extend(states, steps, Observe(0), up, latency);
    states, steps := Extend(states, steps, Wait(1), up, latency);
    states, steps := Extend(states, steps, Observe(1), up, latency);
    states, steps := Extend(states, steps, Finish(1), up, latency);
    states, steps := Extend(states, steps, Finish(0), up, latency);
    states, steps := Extend(states, steps, Begin(2, SAMPLE), up, latency);
    var replies := states[|steps|].replies;
    assert replies[0] == Reply(1, SAMPLE, ["MAL-1"]) && replies[1] == Reply(1, SAMPLE, []);
    assert Says(replies[0], SAMPLE, true) && Says(replies[1], SAMPLE, false);
  }

  ghost predicate Positive(s: State, key: Key) {
    key in s.cache && s.cache[key].ids != []
  }

  /** A lookup stores a negative answer over a positive entry. */
  ghost predicate Overwrites(s: State, step: Step, key: Key) {
    && step.Finish? && step.thread in s.flights && s.flights[step.thread].Holding?
    && s.flights[step.thread].key == key && s.flights[step.thread].ids == [] && Positive(s, key)
  }

  /** A positive entry has been reported. */
  ghost predicate Reported(s: State, key: Key) {
    Positive(s, key) ==> exists i :: 0 <= i < |s.replies| && Says(s.replies[i], key, true)
  }

  /** What was reported flagged is still cached so, and was not taken back. */
  ghost predicate Held(s: State, key: Key) {
    && (forall i | 0 <= i < |s.replies| && Says(s.replies[i], key, true) :: Positive(s, key))
    && !TakenBack(s, key)
  }

  lemma ReportedStep(s: State, step: Step, up: Upstream, latency: nat, key: Key)
    requires Enabled(s, step, latency) && Reported(s, key)
    ensures Reported(After(s, step, up, latency), key)
    ensures TakenBack(s, key) || Overwrites(s, step, key) ==> TakenBack(After(s, step, up, latency), key)
  {
    var s' := After(s, step, up, latency);
    assert forall i | 0 <= i < |s.replies| :: s'.replies[i] == s.replies[i];
    if Positive(s, key) {
      var i :| 0 <= i < |s.replies| && Says(s.replies[i], key, true);
      assert Says(s'.replies[i], key, true);
      if Overwrites(s, step, key) {
        assert Says(s'.replies[|s.replies|], key, false);
      }
    } else if Positive(s', key) {
      assert Says(s'.replies[|s.replies|], key, true);
    }
    if TakenBack(s, key) {
      var i, j :| 0 <= i < j < |s.replies| && Says(s.replies[i], key, true) && Says(s.replies[j], key, false);
      assert Says(s'.replies[i], key, true) && Says(s'.replies[j], key, false);
    }
  }

  lemma HeldStep(s: State, step: Step, up: Upstream, latency: nat, key: Key)
    requires Enabled(s, step, latency) && Held(s, key) && !Overwrites(s, step, key)
    ensures Held(After(s, step, up, latency), key)
  {
    var s' := After(s, step, up, latency);
    assert forall i | 0 <= i < |s.replies| :: s'.replies[i] == s.replies[i];
  }

  /** When a positive answer is taken back, exactly, in any run: some lookup stored
      a negative answer while a positive entry was in the cache. */
  lemma {:induction false} PositiveLostExactly(
      states: seq<State>, steps: seq<Step>, up: Upstream, latency: nat, key: Key, n: nat)
    requires IsRun(states, steps, up, latency) && n < |states|
    ensures TakenBack(states[n], key) <==> exists m :: 0 <= m < n && Overwrites(states[m], steps[m], key)
    ensures Reported(states[n], key) && (TakenBack(states[n], key) || Held(states[n], key))
  {
    if n > 0 {
      PositiveLostExactly(states, steps, up, latency, key, n - 1);
      ReportedStep(states[n - 1], steps[n - 1], up, latency, key);
      if !TakenBack(states[n - 1], key) && !Overwrites(states[n - 1], steps[n - 1], key) {
        HeldStep(states[n - 1], steps[n - 1], up, latency, key);
      }
    }
  }

  /** At most one lookup of `key` is past its cache check. */
  ghost predicate Alone(s: State, key: Key) {
    forall t, t' | t in s.flights && t' in s.flights && s.flights[t].key == s.flights[t'].key == key :: t == t'
  }

  /** Nobody looks up a key that is cached as positive. */
  ghost predicate Settled(s: State, key: Key) {
    Positive(s, key) ==> forall t | t in s.flights :: s.flights[t].key != key
  }

  lemma SettledStep(s: State, step: Step, up: Upstream, latency: nat, key: Key)
    requires Enabled(s, step, latency) && Alone(s, key) && Settled(s, key)
    ensures !Overwrites(s, step, key) && Settled(After(s, step, up, latency), key)
  {
  }

  lemma {:induction false} RunsAreSettled(
      states: seq<State>, steps: seq<Step>, up: Upstream, latency: nat, key: Key, n: nat)
    requires IsRun(states, steps, up, latency) && n < |states|
    requires forall i | 0 <= i < n :: Alone(states[i], key)
    ensures Settled(states[n], key) && forall m | 0 <= m < n :: !Overwrites(states[m], steps[m], key)
  {
    if n > 0 {
      RunsAreSettled(states, steps, up, latency, key, n - 1);
      SettledStep(states[n - 1], steps[n - 1], up, latency, key);
    }
  }

  /** Without overlap on the same key a positive answer is never taken back. */
  lemma PositiveNeverLostAlone(states: seq<State>, steps: seq<Step>, up: Upstream, latency: nat, key: Key, n: nat)
    requires IsRun(states, steps, up, latency) && n < |states|
    requires forall i | 0 <= i < n :: Alone(states[i], key)
    ensures Held(states[n], key) && Settled(states[n], key)
  {
    RunsAreSettled(states, steps, up, latency, key, n);
    PositiveLostExactly(states, steps, up, latency, key, n);
  }
}
