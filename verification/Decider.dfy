/** The verdict on one pinned package version. */
module Decider {
  import opened Basics
  import opened Ecosystems

  /** Nanoseconds since the epoch. */
  type Time = int

  datatype Reason = Typosquat | Malicious | TooYoung | DateUnknown | LookupFailed
  datatype Decision = Allow | Deny(reason: Reason)
  datatype Mode = Warn | Block
  /** `suggests` tells whether `Typosquat.Suggest` has a suggestion for the name. */
  datatype TyposquatHook = TyposquatHook(suggests: (Ecosystem, string) -> bool, mode: Mode)

  type AgeOracle = (Ecosystem, string, string) -> Fetched<Option<Time>>
  type KnownBad = (Ecosystem, string, string) -> Fetched<Option<seq<string>>>

  /** The longest span the time library represents, i64::MAX milliseconds. */
  const MAX_SPAN: nat := 9_223_372_036_854_775_807 * 1_000_000

  /** A minimum age out of range silently becomes zero. */
  function Cutoff(minAge: nat): nat {
    if minAge <= MAX_SPAN then minAge else 0
  }

  predicate IsTooYoung(published: Time, minAge: nat, now: Time) {
    now - published < Cutoff(minAge)
  }

  /** The configured minimum age is the one applied exactly when it is in range. */
  lemma MinAgeAppliedExactly(minAge: nat)
    ensures (forall published, now :: IsTooYoung(published, minAge, now) <==> now - published < minAge)
            <==> minAge <= MAX_SPAN
  {
    if minAge > MAX_SPAN {
      assert !IsTooYoung(0, minAge, 0);
    }
  }

  datatype Decider = Decider(
    oracle: AgeOracle,
    minAge: nat,
    failOnMissing: bool,
    knownBad: Option<KnownBad>,
    typosquat: Option<TyposquatHook>)
  {
    function Decide(eco: Ecosystem, name: string, version: string, now: Time): Decision {
      if typosquat.Some? && typosquat.value.suggests(eco, name) && typosquat.value.mode.Block? then Deny(Typosquat)
      else
        var bad := if knownBad.Some? then knownBad.value(eco, name, version) else Ok(None);
        if bad.Ok? && bad.value.Some? && bad.value.value != [] then Deny(Malicious)
        else
          match oracle(eco, name, version)
          case Ok(Some(published)) => if IsTooYoung(published, minAge, now) then Deny(TooYoung) else Allow
          case Ok(None) => if failOnMissing then Deny(DateUnknown) else Allow
          case Err => if failOnMissing then Deny(LookupFailed) else Allow
    }

    /** Do the hooks, which look at the package and never at its age, deny it? */
    predicate HooksDeny(eco: Ecosystem, name: string, version: string) {
      || (typosquat.Some? && typosquat.value.mode.Block? && typosquat.value.suggests(eco, name))
      || (knownBad.Some? && knownBad.value(eco, name, version).Ok?
          && knownBad.value(eco, name, version).value.Some? && knownBad.value(eco, name, version).value.value != [])
    }

    function WithoutHooks(): Decider {
      this.(knownBad := None, typosquat := None)
    }
  }

  /** The hooks deny a package that a blocking typosquat hook suggests another name
      for, or that the known-bad lookup answers with ids. */
  lemma HooksMean(d: Decider, eco: Ecosystem, name: string, version: string)
    ensures d.HooksDeny(eco, name, version)
            <==> || (exists hook :: d.typosquat == Some(hook) && hook.mode == Block && hook.suggests(eco, name))
                 || (exists lookup, ids :: d.knownBad == Some(lookup) && lookup(eco, name, version) == Ok(Some(ids)) && ids != [])
  {
    if d.knownBad.Some? && d.knownBad.value(eco, name, version).Ok? && d.knownBad.value(eco, name, version).value.Some? {
      assert d.knownBad.value(eco, name, version) == Ok(Some(d.knownBad.value(eco, name, version).value.value));
    }
  }

  /** When a version is allowed, exactly: no hook denies it, and it is known to be old
      enough, or its age is not known and that is tolerated. */
  lemma AllowedExactly(d: Decider, eco: Ecosystem, name: string, version: string, now: Time)
    ensures d.Decide(eco, name, version, now).Allow?
            <==> && !d.HooksDeny(eco, name, version)
                 && match d.oracle(eco, name, version)
                    case Ok(Some(published)) => now - published >= if d.minAge <= MAX_SPAN then d.minAge else 0
                    case _ => !d.failOnMissing
  {
  }

  /** Why a version is denied: for the first of these that applies. */
  lemma DeniedBecause(d: Decider, eco: Ecosystem, name: string, version: string, now: Time)
    requires d.Decide(eco, name, version, now).Deny?
    ensures d.Decide(eco, name, version, now).reason
            == if d.(knownBad := None).HooksDeny(eco, name, version) then Typosquat
               else if d.HooksDeny(eco, name, version) then Malicious
               else if d.oracle(eco, name, version).Err? then LookupFailed
               else if d.oracle(eco, name, version).value.None? then DateUnknown
               else TooYoung
  {
  }

  /** Time only ever turns "too young" into "allowed". */
  lemma AllowPersists(d: Decider, eco: Ecosystem, name: string, version: string, now1: Time, now2: Time)
    requires now1 <= now2
    ensures d.Decide(eco, name, version, now1).Allow? ==> d.Decide(eco, name, version, now2).Allow?
    ensures d.Decide(eco, name, version, now1) != d.Decide(eco, name, version, now2) ==>
              d.Decide(eco, name, version, now1) == Deny(TooYoung) && d.Decide(eco, name, version, now2).Allow?
  {
  }

  /** Hooks only add denials, and take precedence over everything about age. */
  lemma HooksOnlyDeny(d: Decider, eco: Ecosystem, name: string, version: string, now: Time)
    ensures d.Decide(eco, name, version, now).Allow?
            <==> !d.HooksDeny(eco, name, version) && d.WithoutHooks().Decide(eco, name, version, now).Allow?
    ensures !d.HooksDeny(eco, name, version) ==>
              d.Decide(eco, name, version, now) == d.WithoutHooks().Decide(eco, name, version, now)
  {
  }
}
