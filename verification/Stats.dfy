/** The capped event sample buffer: what it holds after any run, in closed form. */
module Stats {
  import opened Basics

  datatype Event =
    | Exec(pid: nat, filename: string, denied: bool)
    | Connect(pid: nat, daddr: string, dport: nat, denied: bool)
    | Open(pid: nat, filename: string, denied: bool)
  {
    function Kind(): (k: nat)
      ensures k < 3
    {
      match this
      case Exec(_, _, _) => 0
      case Connect(_, _, _, _) => 1
      case Open(_, _, _) => 2
    }
  }

  /** Events are of the same kind exactly when they are of the same sort. */
  lemma KindsMean(a: Event, b: Event)
    ensures a.Kind() == b.Kind() <==> (a.Exec? && b.Exec?) || (a.Connect? && b.Connect?) || (a.Open? && b.Open?)
  {
  }

  const PER_KIND_CAP: nat := 64
  const TOTAL_SAMPLE_CAP: nat := 256

  /** The groups of events the buffer is counted and searched by. */
  datatype Group = OfKind(k: nat) | DeniedOf(k: nat) | BenignOf(k: nat) | Benign {
    predicate Has(e: Event) {
      match this
      case OfKind(k) => e.Kind() == k
      case DeniedOf(k) => e.denied && e.Kind() == k
      case BenignOf(k) => !e.denied && e.Kind() == k
      case Benign => !e.denied
    }
  }

  function Only(s: seq<Event>, g: Group): seq<Event> {
    if s == [] then []
    else
      var init, e := s[..|s| - 1], s[|s| - 1];
      if g.Has(e) then Only(init, g) + [e] else Only(init, g)
  }

  lemma OnlySnoc(s: seq<Event>, e: Event, g: Group)
    ensures Only(s + [e], g) == if g.Has(e) then Only(s, g) + [e] else Only(s, g)
  {
    assert (s + [e])[..|s|] == s;
  }

  /** `Only` picks the events of the group, each as often as it occurs. */
  lemma {:induction false} OnlyMeans(s: seq<Event>, g: Group, e: Event)
    ensures multiset(Only(s, g))[e] == if g.Has(e) then multiset(s)[e] else 0
  {
    if s != [] {
      OnlyMeans(s[..|s| - 1], g, e);
      assert s == s[..|s| - 1] + [s[|s| - 1]];
    }
  }

  function Min(a: nat, b: nat): nat { if a < b then a else b }

  // ---------- One step ----------

  /** Position of the first event of group `g`. */
  function Position(s: seq<Event>, g: Group): (r: Option<nat>)
    ensures r.Some? ==> r.value < |s| && g.Has(s[r.value]) && forall i | 0 <= i < r.value :: !g.Has(s[i])
    ensures r.None? ==> forall i | 0 <= i < |s| :: !g.Has(s[i])
  {
    if s == [] then None
    else
      var r := Position(s[..|s| - 1], g);
      if r.Some? then r else if g.Has(s[|s| - 1]) then Some(|s| - 1) else None
  }

  lemma PositionSnoc(s: seq<Event>, e: Event, g: Group)
    ensures Position(s + [e], g)
         == if Position(s, g).Some? then Position(s, g) else if g.Has(e) then Some(|s|) else None
  {
    assert (s + [e])[..|s|] == s;
  }

  function RemoveAt<T>(s: seq<T>, i: nat): seq<T>
    requires i < |s|
  {
    s[..i] + s[i + 1..]
  }

  /** Whom a denied event displaces when there is no room: the oldest benign
      sample of its kind, else (only when the buffer is full) any benign one. */
  function Victim(samples: seq<Event>, kind: nat, totalRoom: bool): (r: Option<nat>)
    ensures r.Some? ==> r.value < |samples|
  {
    var sameKind := Position(samples, BenignOf(kind));
    if sameKind.Some? || totalRoom then sameKind else Position(samples, Benign)
  }

  function Next(samples: seq<Event>, ev: Event): seq<Event> {
    var kindRoom := |Only(samples, OfKind(ev.Kind()))| < PER_KIND_CAP;
    var totalRoom := |samples| < TOTAL_SAMPLE_CAP;
    if kindRoom && totalRoom then samples + [ev]
    else
      var victim := if ev.denied then Victim(samples, ev.Kind(), totalRoom) else None;
      if victim.Some? then RemoveAt(samples, victim.value) + [ev] else samples
  }

  /** Sample `i` is the oldest one that fits. */
  ghost predicate IsOldest(samples: seq<Event>, i: nat, benignOf: Option<Event>) {
    && i < |samples| && Fits(samples[i], benignOf) && forall j | 0 <= j < i :: !Fits(samples[j], benignOf)
  }

  /** Benign, and of the kind of the event, if one is given. */
  predicate Fits(e: Event, benignOf: Option<Event>) {
    !e.denied && (benignOf.None? || e.Kind() == benignOf.value.Kind())
  }

  lemma OldestIsPosition(samples: seq<Event>, ev: Event)
    ensures forall i: nat :: IsOldest(samples, i, Some(ev)) <==> Position(samples, BenignOf(ev.Kind())) == Some(i)
    ensures forall i: nat :: IsOldest(samples, i, None) <==> Position(samples, Benign) == Some(i)
  {
    forall e ensures Fits(e, Some(ev)) <==> BenignOf(ev.Kind()).Has(e) {
    }
    forall e ensures Fits(e, None) <==> Benign.Has(e) {
    }
  }

  predicate HasRoom(samples: seq<Event>, ev: Event) {
    |Only(samples, OfKind(ev.Kind()))| < 64 && |samples| < 256
  }

  /** One step on any buffer, not only those of runs: an event with room is added, and
      a benign one without room is dropped. */
  lemma NextMeans(samples: seq<Event>, ev: Event)
    ensures HasRoom(samples, ev) ==> Next(samples, ev) == samples + [ev]
    ensures !HasRoom(samples, ev) && !ev.denied ==> Next(samples, ev) == samples
  {
  }

  /** A denied event without room takes the place of the oldest benign sample of its
      kind or, in a full buffer without one, of the oldest benign sample. */
  lemma NextDenied(samples: seq<Event>, ev: Event)
    requires !HasRoom(samples, ev) && ev.denied
    ensures forall i: nat | IsOldest(samples, i, Some(ev)) ::
              Next(samples, ev) == samples[..i] + samples[i + 1..] + [ev]
    ensures (forall i: nat :: !IsOldest(samples, i, Some(ev))) ==>
              && (forall i: nat | |samples| >= 256 && IsOldest(samples, i, None) ::
                    Next(samples, ev) == samples[..i] + samples[i + 1..] + [ev])
              && (|samples| < 256 || (forall i: nat :: !IsOldest(samples, i, None)) ==> Next(samples, ev) == samples)
  {
    hide Only, IsOldest;
    OldestIsPosition(samples, ev);
    var same, any := Position(samples, BenignOf(ev.Kind())), Position(samples, Benign);
    assert same.Some? ==> IsOldest(samples, same.value, Some(ev));
    assert any.Some? ==> IsOldest(samples, any.value, None);
  }

  class Stats {
    var observed: nat
    var denied: nat
    var samples: seq<Event>

    constructor ()
      ensures observed == 0 && denied == 0 && samples == []
    {
      observed, denied, samples := 0, 0, [];
    }

    method Ingest(ev: Event) returns (kept: bool)
      modifies this
      ensures observed == old(observed) + 1
      ensures denied == old(denied) + if ev.denied then 1 else 0
      ensures samples == Next(old(samples), ev)
      ensures kept <==> samples != old(samples)
    {
      observed := observed + 1;
      if ev.denied {
        denied := denied + 1;
      }
      var sameKind := |Only(samples, OfKind(ev.Kind()))|;
      var kindRoom := sameKind < PER_KIND_CAP;
      var totalRoom := |samples| < TOTAL_SAMPLE_CAP;
      if kindRoom && totalRoom {
        samples := samples + [ev];
        return true;
      }
      if ev.denied {
        var victim := Victim(samples, ev.Kind(), totalRoom);
        if victim.Some? {
          assert !samples[victim.value].denied;
          EvictionChanges(samples, victim.value, ev);
          samples := RemoveAt(samples, victim.value);
          samples := samples + [ev];
          return true;
        }
      }
      return false;
    }
  }

  /** Replacing a benign sample by a denied event at the end changes the buffer. */
  lemma EvictionChanges(samples: seq<Event>, i: nat, ev: Event)
    requires i < |samples| && !samples[i].denied && ev.denied
    ensures RemoveAt(samples, i) + [ev] != samples
  {
    var after := RemoveAt(samples, i) + [ev];
    assert after[|samples| - 1] == ev;
    if after == samples {
      for j := i to |samples| - 1
        invariant !samples[j].denied
      {
        assert samples[j] == after[j] == samples[j + 1];
      }
    }
  }

  // ---------- Whole runs ----------

  /** The buffer after ingesting `h`, oldest event first, from the default state. */
  function Run(h: seq<Event>): seq<Event> {
    if h == [] then [] else Next(Run(h[..|h| - 1]), h[|h| - 1])
  }

  function Seen(h: seq<Event>, k: nat): nat { |Only(h, OfKind(k))| }
  function SeenDenied(h: seq<Event>, k: nat): nat { |Only(h, DeniedOf(k))| }
  function SeenBenign(h: seq<Event>, k: nat): nat { |Only(h, BenignOf(k))| }

  /** Benign events of kind `k` that arrived while the kind still had room. */
  function Accepted(h: seq<Event>, k: nat): (n: nat)
    ensures n <= SeenBenign(h, k)
  {
    if h == [] then 0
    else
      var p, e := h[..|h| - 1], h[|h| - 1];
      Accepted(p, k) + if BenignOf(k).Has(e) && Seen(p, k) < PER_KIND_CAP then 1 else 0
  }

  /** Denied events of kind `k` that arrived after the kind was full and were
      still among the first 64 denied ones; each displaced a benign sample. */
  function Late(h: seq<Event>, k: nat): nat {
    if h == [] then 0
    else
      var p, e := h[..|h| - 1], h[|h| - 1];
      Late(p, k) + if DeniedOf(k).Has(e) && SeenDenied(p, k) < PER_KIND_CAP <= Seen(p, k) then 1 else 0
  }

  /** Is event `e`, arriving after `p`, still in the buffer once each kind has lost
      `lost` of its benign samples? A denied event is when it was among the first
      64 of its kind; a benign one when it found room and was not displaced. */
  predicate IsKept(p: seq<Event>, e: Event, lost: seq<nat>)
    requires |lost| == 3
  {
    var k := e.Kind();
    if e.denied then SeenDenied(p, k) < PER_KIND_CAP
    else Seen(p, k) < PER_KIND_CAP && lost[k] <= SeenBenign(p, k)
  }

  /** The kept events of `h`, in arrival order. */
  function Picks(h: seq<Event>, lost: seq<nat>): seq<Event>
    requires |lost| == 3
  {
    if h == [] then []
    else
      var p, e := h[..|h| - 1], h[|h| - 1];
      if IsKept(p, e, lost) then Picks(p, lost) + [e] else Picks(p, lost)
  }

  lemma PicksSnoc(p: seq<Event>, e: Event, lost: seq<nat>)
    requires |lost| == 3
    ensures Picks(p + [e], lost) == if IsKept(p, e, lost) then Picks(p, lost) + [e] else Picks(p, lost)
  {
    assert (p + [e])[..|p|] == p;
  }

  function Lost(h: seq<Event>): seq<nat> { [Late(h, 0), Late(h, 1), Late(h, 2)] }

  function Retained(h: seq<Event>): seq<Event> {
    Picks(h, Lost(h))
  }

  lemma SeenSnoc(h: seq<Event>, e: Event, k: nat)
    ensures Seen(h + [e], k) == Seen(h, k) + if e.Kind() == k then 1 else 0
    ensures SeenDenied(h + [e], k) == SeenDenied(h, k) + if DeniedOf(k).Has(e) then 1 else 0
    ensures SeenBenign(h + [e], k) == SeenBenign(h, k) + if BenignOf(k).Has(e) then 1 else 0
    ensures Accepted(h + [e], k) == Accepted(h, k) + if BenignOf(k).Has(e) && Seen(h, k) < PER_KIND_CAP then 1 else 0
    ensures Late(h + [e], k)
         == Late(h, k) + if DeniedOf(k).Has(e) && SeenDenied(h, k) < PER_KIND_CAP <= Seen(h, k) then 1 else 0
  {
    OnlySnoc(h, e, OfKind(k));
    OnlySnoc(h, e, DeniedOf(k));
    OnlySnoc(h, e, BenignOf(k));
    assert (h + [e])[..|h|] == h;
  }

  /** The book-keeping of one kind: retained benign plus retained denied events
      always make up min(64, seen). */
  lemma {:induction false} Ledger(h: seq<Event>, k: nat)
    ensures Seen(h, k) == SeenDenied(h, k) + SeenBenign(h, k)
    ensures Late(h, k) <= Accepted(h, k) <= SeenBenign(h, k)
    ensures Seen(h, k) <= PER_KIND_CAP ==> Late(h, k) == 0 && Accepted(h, k) == SeenBenign(h, k)
    ensures Accepted(h, k) - Late(h, k) + Min(PER_KIND_CAP, SeenDenied(h, k)) == Min(PER_KIND_CAP, Seen(h, k))
  {
    if h != [] {
      var p, e := h[..|h| - 1], h[|h| - 1];
      assert h == p + [e];
      Ledger(p, k);
      SeenSnoc(p, e, k);
    }
  }

  /** `s[lo..hi]`, empty when `lo` is past `hi`. */
  function Slice(s: seq<Event>, lo: nat, hi: nat): seq<Event>
    requires hi <= |s|
  {
    if lo <= hi then s[lo..hi] else []
  }

  lemma SliceGrows(s: seq<Event>, e: Event, lo: nat, hi: nat)
    requires hi <= |s|
    ensures Slice(s + [e], lo, hi) == Slice(s, lo, hi)
    ensures hi == |s| ==> Slice(s + [e], lo, hi + 1) == if lo <= hi then Slice(s, lo, hi) + [e] else []
  {
  }

  /** The denied picks of a kind are its first 64 denied events. */
  ghost predicate DeniedArePrefix(h: seq<Event>, lost: seq<nat>, k: nat)
    requires |lost| == 3
  {
    Only(Picks(h, lost), DeniedOf(k)) == Slice(Only(h, DeniedOf(k)), 0, Min(PER_KIND_CAP, SeenDenied(h, k)))
  }

  lemma {:induction false} PicksDenied(h: seq<Event>, lost: seq<nat>, k: nat)
    requires |lost| == 3
    ensures DeniedArePrefix(h, lost, k)
  {
    if h != [] {
      PicksDenied(h[..|h| - 1], lost, k);
      PicksDeniedStep(h[..|h| - 1], h[|h| - 1], lost, k);
      assert h == h[..|h| - 1] + [h[|h| - 1]];
    }
  }

  lemma PicksDeniedStep(p: seq<Event>, e: Event, lost: seq<nat>, k: nat)
    requires |lost| == 3 && DeniedArePrefix(p, lost, k)
    ensures DeniedArePrefix(p + [e], lost, k)
  {
    PicksSnoc(p, e, lost);
    OnlySnoc(p, e, DeniedOf(k));
    OnlySnoc(Picks(p, lost), e, DeniedOf(k));
    SliceGrows(Only(p, DeniedOf(k)), e, 0, Min(PER_KIND_CAP, SeenDenied(p, k)));
  }

  /** The benign picks of a kind are one contiguous slice of its benign events. */
  ghost predicate BenignAreSlice(h: seq<Event>, lost: seq<nat>, k: nat)
    requires |lost| == 3 && k < 3
  {
    Only(Picks(h, lost), BenignOf(k)) == Slice(Only(h, BenignOf(k)), lost[k], Accepted(h, k))
  }

  lemma {:induction false} PicksBenign(h: seq<Event>, lost: seq<nat>, k: nat)
    requires |lost| == 3 && k < 3
    ensures BenignAreSlice(h, lost, k)
  {
    if h != [] {
      PicksBenign(h[..|h| - 1], lost, k);
      PicksBenignStep(h[..|h| - 1], h[|h| - 1], lost, k);
      assert h == h[..|h| - 1] + [h[|h| - 1]];
    }
  }

  lemma PicksBenignStep(p: seq<Event>, e: Event, lost: seq<nat>, k: nat)
    requires |lost| == 3 && k < 3 && BenignAreSlice(p, lost, k)
    ensures BenignAreSlice(p + [e], lost, k)
  {
    if BenignOf(k).Has(e) {
      BenignPick(p, e, lost, k);
      RoomMeansAccepted(p, k);
      SliceStep(Only(p, BenignOf(k)), e, lost[k], Accepted(p, k), Seen(p, k) < PER_KIND_CAP);
    } else {
      OtherPick(p, e, lost, k);
    }
  }

  /** A slice of the accepted benign events grows by an event that finds room. */
  lemma SliceStep(b: seq<Event>, e: Event, lo: nat, acc: nat, room: bool)
    requires acc <= |b| && (room ==> acc == |b|)
    ensures Slice(b + [e], lo, if room then acc + 1 else acc)
         == if room && lo <= acc then Slice(b, lo, acc) + [e] else Slice(b, lo, acc)
  {
  }

  lemma OtherPick(p: seq<Event>, e: Event, lost: seq<nat>, k: nat)
    requires |lost| == 3 && k < 3 && !BenignOf(k).Has(e)
    ensures Only(Picks(p + [e], lost), BenignOf(k)) == Only(Picks(p, lost), BenignOf(k))
    ensures Only(p + [e], BenignOf(k)) == Only(p, BenignOf(k)) && Accepted(p + [e], k) == Accepted(p, k)
  {
    PicksSnoc(p, e, lost);
    AcceptedSnoc(p, e, k);
    OnlySnoc(p, e, BenignOf(k));
    OnlySnoc(Picks(p, lost), e, BenignOf(k));
  }

  lemma BenignPick(p: seq<Event>, e: Event, lost: seq<nat>, k: nat)
    requires |lost| == 3 && k < 3 && BenignOf(k).Has(e)
    ensures Only(p + [e], BenignOf(k)) == Only(p, BenignOf(k)) + [e]
    ensures Accepted(p + [e], k) == if Seen(p, k) < PER_KIND_CAP then Accepted(p, k) + 1 else Accepted(p, k)
    ensures var before := Only(Picks(p, lost), BenignOf(k));
            Only(Picks(p + [e], lost), BenignOf(k)) == if IsKept(p, e, lost) then before + [e] else before
  {
    PicksSnoc(p, e, lost);
    AcceptedSnoc(p, e, k);
    OnlySnoc(p, e, BenignOf(k));
    OnlySnoc(Picks(p, lost), e, BenignOf(k));
  }

  lemma AcceptedSnoc(p: seq<Event>, e: Event, k: nat)
    ensures Accepted(p + [e], k)
         == if BenignOf(k).Has(e) && Seen(p, k) < PER_KIND_CAP then Accepted(p, k) + 1 else Accepted(p, k)
  {
    assert (p + [e])[..|p|] == p;
  }

  lemma OnlyByKind(s: seq<Event>, k: nat)
    ensures |Only(s, OfKind(k))| == |Only(s, DeniedOf(k))| + |Only(s, BenignOf(k))|
  {
    Ledger(s, k);
  }

  /** Losing one more benign sample of kind `k` is evicting the oldest one. */
  ghost predicate LosesOldest(h: seq<Event>, lost: seq<nat>, k: nat)
    requires |lost| == 3 && k < 3
  {
    && (Position(Picks(h, lost), BenignOf(k)).Some? <==> lost[k] < Accepted(h, k))
    && Picks(h, lost[k := lost[k] + 1]) == WithoutOldest(Picks(h, lost), k)
  }

  lemma {:induction false} EvictOldest(h: seq<Event>, lost: seq<nat>, k: nat)
    requires |lost| == 3 && k < 3
    ensures LosesOldest(h, lost, k)
  {
    if h != [] {
      EvictOldest(h[..|h| - 1], lost, k);
      EvictOldestStep(h[..|h| - 1], h[|h| - 1], lost, k);
      assert h == h[..|h| - 1] + [h[|h| - 1]];
    }
  }

  lemma EvictOldestStep(p: seq<Event>, e: Event, lost: seq<nat>, k: nat)
    requires |lost| == 3 && k < 3 && LosesOldest(p, lost, k)
    ensures LosesOldest(p + [e], lost, k)
  {
    PicksSnoc(p, e, lost);
    PicksSnoc(p, e, lost[k := lost[k] + 1]);
    AcceptedSnoc(p, e, k);
    if BenignOf(k).Has(e) {
      RoomMeansAccepted(p, k);
      OneMoreBenign(Picks(p, lost), e, k, lost[k], Accepted(p, k), Seen(p, k) < PER_KIND_CAP);
    } else {
      OneMoreOther(Picks(p, lost), e, k);
    }
  }

  lemma OneMoreOther(s: seq<Event>, e: Event, k: nat)
    requires !BenignOf(k).Has(e)
    ensures WithoutOldest(s + [e], k) == WithoutOldest(s, k) + [e]
    ensures Position(s + [e], BenignOf(k)).Some? <==> Position(s, BenignOf(k)).Some?
  {
    WithoutOldestSnoc(s, e, k);
    PositionSnoc(s, e, BenignOf(k));
  }

  /** A benign event with rank `accepted` joins a buffer that lost `lost`. */
  lemma OneMoreBenign(s: seq<Event>, e: Event, k: nat, lost: nat, accepted: nat, room: bool)
    requires BenignOf(k).Has(e)
    requires Position(s, BenignOf(k)).Some? <==> lost < accepted
    ensures room && lost <= accepted ==>
              && Position(s + [e], BenignOf(k)).Some?
              && WithoutOldest(s + [e], k) == if lost < accepted then WithoutOldest(s, k) + [e] else WithoutOldest(s, k)
  {
    WithoutOldestSnoc(s, e, k);
    PositionSnoc(s, e, BenignOf(k));
  }

  lemma RoomMeansAccepted(h: seq<Event>, k: nat)
    ensures Seen(h, k) < PER_KIND_CAP ==> Accepted(h, k) == SeenBenign(h, k)
  {
    Ledger(h, k);
  }

  function WithoutOldest(s: seq<Event>, k: nat): seq<Event> {
    var oldest := Position(s, BenignOf(k));
    if oldest.Some? then RemoveAt(s, oldest.value) else s
  }

  lemma WithoutOldestSnoc(s: seq<Event>, e: Event, k: nat)
    ensures WithoutOldest(s + [e], k)
         == if Position(s, BenignOf(k)).Some? then WithoutOldest(s, k) + [e]
            else if BenignOf(k).Has(e) then s else s + [e]
  {
    PositionSnoc(s, e, BenignOf(k));
    RemoveAtSnoc(s, e);
  }

  lemma RemoveAtSnoc(s: seq<Event>, e: Event)
    ensures forall i | 0 <= i < |s| :: RemoveAt(s + [e], i) == RemoveAt(s, i) + [e]
    ensures RemoveAt(s + [e], |s|) == s
  {
  }

  /** Counts in the retained buffer. */
  lemma RetainedCounts(h: seq<Event>, k: nat)
    requires k < 3
    ensures |Only(Retained(h), OfKind(k))| == Min(PER_KIND_CAP, Seen(h, k))
  {
    PicksDenied(h, Lost(h), k);
    PicksBenign(h, Lost(h), k);
    OnlyByKind(Retained(h), k);
    Ledger(h, k);
  }

  lemma {:induction false} ThreeKinds(s: seq<Event>)
    ensures |s| == |Only(s, OfKind(0))| + |Only(s, OfKind(1))| + |Only(s, OfKind(2))|
  {
    if s != [] {
      ThreeKinds(s[..|s| - 1]);
    }
  }

  /** Three kinds of 64 samples never fill 256 slots. */
  lemma TotalCapIsSlack(h: seq<Event>)
    ensures |Retained(h)| <= 3 * PER_KIND_CAP < TOTAL_SAMPLE_CAP
  {
    ThreeKinds(Retained(h));
    RetainedCounts(h, 0);
    RetainedCounts(h, 1);
    RetainedCounts(h, 2);
  }

  /** The closed form: after any run from the default state the buffer is
      exactly the kept events, in arrival order. */
  lemma {:induction false} RunIsRetained(h: seq<Event>)
    ensures Run(h) == Retained(h)
  {
    if h != [] {
      var p, e := h[..|h| - 1], h[|h| - 1];
      assert h == p + [e];
      RunIsRetained(p);
      RetainedStep(p, e);
    }
  }

  lemma RetainedStep(p: seq<Event>, e: Event)
    ensures Retained(p + [e]) == Next(Retained(p), e)
  {
    PicksSnoc(p, e, Lost(p + [e]));
    LostStep(p, e);
    NextOnRetained(p, e);
    Ledger(p, e.Kind());
    EvictOldest(p, Lost(p), e.Kind());
  }

  /** On a retained buffer the step is decided by the counts of the event's kind. */
  lemma NextOnRetained(p: seq<Event>, e: Event)
    ensures Next(Retained(p), e)
         == if Seen(p, e.Kind()) < PER_KIND_CAP then Retained(p) + [e]
            else if e.denied && Position(Retained(p), BenignOf(e.Kind())).Some?
            then WithoutOldest(Retained(p), e.Kind()) + [e]
            else Retained(p)
  {
    TotalCapIsSlack(p);
    RetainedCounts(p, e.Kind());
  }

  lemma LostStep(p: seq<Event>, e: Event)
    ensures var k := e.Kind();
            Lost(p + [e]) == if e.denied && SeenDenied(p, k) < PER_KIND_CAP <= Seen(p, k)
                             then Lost(p)[k := Lost(p)[k] + 1] else Lost(p)
  {
    SeenSnoc(p, e, 0);
    SeenSnoc(p, e, 1);
    SeenSnoc(p, e, 2);
  }

  /** What an operator can rely on, per kind. */
  lemma SamplesByKind(h: seq<Event>, k: nat)
    requires k < 3
    ensures Only(Run(h), DeniedOf(k)) == Only(h, DeniedOf(k))[..Min(PER_KIND_CAP, SeenDenied(h, k))]
    ensures Late(h, k) <= Accepted(h, k) <= SeenBenign(h, k)
    ensures Only(Run(h), BenignOf(k)) == Only(h, BenignOf(k))[Late(h, k)..Accepted(h, k)]
    ensures |Only(Run(h), OfKind(k))| == Min(PER_KIND_CAP, Seen(h, k))
  {
    RunIsRetained(h);
    PicksDenied(h, Lost(h), k);
    PicksBenign(h, Lost(h), k);
    RetainedCounts(h, k);
    Ledger(h, k);
  }

  /** From the default state the total cap never binds, so the eviction across
      kinds never fires: every step behaves as if only the kind cap existed. */
  lemma FallbackNeverFires(h: seq<Event>, ev: Event)
    ensures |Run(h)| < TOTAL_SAMPLE_CAP
    ensures Victim(Run(h), ev.Kind(), |Run(h)| < TOTAL_SAMPLE_CAP) == Position(Run(h), BenignOf(ev.Kind()))
    ensures SeenDenied(h, ev.Kind()) < PER_KIND_CAP && ev.denied ==> Next(Run(h), ev) != Run(h)
  {
    RunIsRetained(h);
    TotalCapIsSlack(h);
    SamplesByKind(h, ev.Kind());
    Ledger(h, ev.Kind());
    if SeenDenied(h, ev.Kind()) < PER_KIND_CAP && ev.denied {
      SamplesByKind(h + [ev], ev.Kind());
      SeenSnoc(h, ev, ev.Kind());
      assert (h + [ev])[..|h|] == h;
      assert Run(h + [ev]) == Next(Run(h), ev);
    }
  }
}
