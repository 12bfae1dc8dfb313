/** Filtering of the crates.io sparse index, line by line, without touching the
    bytes of the lines that stay. */
module SparseIndex {
  import opened Basics
  import opened Sequences
  import opened Ecosystems
  import opened Decider

  const LF: byte := 10
  const CR: byte := 13

  // ---------- Lines ----------

  /** The end of the line that starts at `i`: just past the next LF, or the end. */
  function LineEnd(buf: Bytes, i: nat): (end: nat)
    requires i <= |buf|
    ensures i <= end <= |buf| && (i < |buf| ==> i < end)
    ensures forall j | i <= j < end - 1 :: buf[j] != LF
    ensures end < |buf| ==> end > i && buf[end - 1] == LF
    decreases |buf| - i
  {
    if i == |buf| then i else if buf[i] == LF then i + 1 else LineEnd(buf, i + 1)
  }

  function Lines(buf: Bytes): seq<Bytes> {
    if buf == [] then [] else [buf[..LineEnd(buf, 0)]] + Lines(buf[LineEnd(buf, 0)..])
  }

  /** Nonempty lines with a LF only at their end, and at the end of all but the last. */
  ghost predicate Terminated(lines: seq<Bytes>) {
    forall i | 0 <= i < |lines| ::
      && lines[i] != []
      && (forall j | 0 <= j < |lines[i]| - 1 :: lines[i][j] != LF)
      && (i < |lines| - 1 ==> lines[i][|lines[i]| - 1] == LF)
  }

  lemma TerminatedCons(first: Bytes, rest: seq<Bytes>)
    requires first != [] && (forall j | 0 <= j < |first| - 1 :: first[j] != LF)
    requires Terminated(rest) && (rest != [] ==> first[|first| - 1] == LF)
    ensures Terminated([first] + rest)
  {
  }

  /** Splitting partitions the buffer. */
  lemma {:induction false} LinesPartition(buf: Bytes)
    ensures Flatten(Lines(buf)) == buf && Terminated(Lines(buf))
  {
    if buf != [] {
      var end := LineEnd(buf, 0);
      var first, rest := buf[..end], Lines(buf[end..]);
      LinesPartition(buf[end..]);
      TerminatedCons(first, rest);
      assert ([first] + rest)[1..] == rest;
      assert first + buf[end..] == buf;
    }
  }

  /** Any terminated list of lines is the split of its concatenation. */
  lemma {:induction false} LinesOfFlatten(lines: seq<Bytes>)
    requires Terminated(lines)
    ensures Lines(Flatten(lines)) == lines
  {
    if lines != [] {
      var first, rest := lines[0], Flatten(lines[1..]);
      var buf := first + rest;
      assert Terminated(lines[1..]) by {
        assert forall i | 0 <= i < |lines[1..]| :: lines[1..][i] == lines[i + 1];
      }
      LinesOfFlatten(lines[1..]);
      assert |lines| == 1 ==> buf == first;
      assert LineEnd(buf, 0) == |first| by {
        assert forall j | 0 <= j < |first| - 1 :: buf[j] == first[j];
        assert buf[|first| - 1] == first[|first| - 1];
      }
      assert buf[..|first|] == first && buf[|first|..] == rest;
    }
  }

  lemma LinesStep(buf: Bytes, start: nat, end: nat)
    requires start < end <= |buf| && (forall j | start <= j < end - 1 :: buf[j] != LF)
    requires end == |buf| || buf[end - 1] == LF
    ensures Lines(buf[start..]) == [buf[start..end]] + Lines(buf[end..])
  {
    var tail := buf[start..];
    assert forall j | 0 <= j < |tail| :: tail[j] == buf[start + j];
    assert LineEnd(tail, 0) == end - start;
    assert tail[..end - start] == buf[start..end] && tail[end - start..] == buf[end..];
  }

  lemma LinesMove(lines: seq<Bytes>, buf: Bytes, start: nat, end: nat)
    requires start < end <= |buf| && (forall j | start <= j < end - 1 :: buf[j] != LF)
    requires end == |buf| || buf[end - 1] == LF
    ensures lines + Lines(buf[start..]) == lines + [buf[start..end]] + Lines(buf[end..])
  {
    LinesStep(buf, start, end);
  }

  /** One step of the line iterator. */
  method NextLineEnd(buf: Bytes, start: nat) returns (i: nat)
    requires start < |buf|
    ensures start < i <= |buf| && (forall j | start <= j < i - 1 :: buf[j] != LF)
    ensures i == |buf| || buf[i - 1] == LF
  {
    i := start;
    while i < |buf| && buf[i] != LF
      invariant start <= i <= |buf|
      invariant forall j | start <= j < i :: buf[j] != LF
    {
      i := i + 1;
    }
    if i < |buf| {
      i := i + 1;
    }
  }

  /** The line iterator, run to its end. */
  method SplitLines(buf: Bytes) returns (lines: seq<Bytes>)
    ensures lines == Lines(buf)
  {
    lines := [];
    var i := 0;
    while i < |buf|
      invariant 0 <= i <= |buf|
      invariant lines + Lines(buf[i..]) == Lines(buf)
    {
      var start := i;
      i := NextLineEnd(buf, start);
      LinesMove(lines, buf, start, i);
      lines := lines + [buf[start..i]];
    }
    assert buf[i..] == [];
  }

  function TrimNewline(line: Bytes): Bytes {
    var s := if line != [] && line[|line| - 1] == LF then line[..|line| - 1] else line;
    if s != [] && s[|s| - 1] == CR then s[..|s| - 1] else s
  }

  /** What trimming takes off: a line end, which is LF, CR, or CR and LF. */
  lemma TrimNewlineMeans(line: Bytes, text: Bytes)
    ensures text == TrimNewline(line)
            <==> || line == text + [13, 10]
                 || (line == text + [10] && (text == [] || text[|text| - 1] != 13))
                 || line == text + [13]
                 || (line == text && (text == [] || text[|text| - 1] !in {13, 10}))
  {
    if line != [] {
      var init := line[..|line| - 1];
      assert line == init + [line[|line| - 1]];
      if init != [] {
        assert line == init[..|init| - 1] + [init[|init| - 1], line[|line| - 1]];
      }
    }
  }

  // ---------- The filter ----------

  /** The fields of an index line the filter reads; `pubtime` is `None` also when
      it is not a valid timestamp. */
  datatype IndexLine = IndexLine(name: string, vers: string, pubtime: Option<Time>)
  datatype Job = Job(parse: Bytes -> Option<IndexLine>, decider: Decider, now: Time)
  datatype Stats = Stats(kept: nat, dropped: nat)

  function DecideInline(published: Time, minAge: nat, now: Time): Decision {
    if IsTooYoung(published, minAge, now) then Deny(TooYoung) else Allow
  }

  /** A line's own publish time, when it has one, replaces the whole decider. */
  function Verdict(line: IndexLine, d: Decider, now: Time): Decision {
    if line.pubtime.Some? then DecideInline(line.pubtime.value, d.minAge, now)
    else d.Decide(Crates, line.name, line.vers, now)
  }

  predicate IsBlank(line: Bytes) {
    TrimNewline(line) == []
  }

  /** Blank and unparsable lines stay, others stay if allowed. */
  predicate Stays(line: Bytes, job: Job) {
    var parsed := job.parse(TrimNewline(line));
    IsBlank(line) || parsed.None? || Verdict(parsed.value, job.decider, job.now).Allow?
  }

  /** When a line stays, exactly: it holds nothing, or nothing readable, or a version
      old enough by its own publish time, or else one that the decider allows. */
  lemma StaysExactly(line: Bytes, job: Job)
    ensures Stays(line, job)
            <==> || line in {[], [10], [13], [13, 10]}
                 || match job.parse(TrimNewline(line))
                    case None => true
                    case Some(v) =>
                      match v.pubtime
                      case Some(published) =>
                        job.now - published >= if job.decider.minAge <= MAX_SPAN then job.decider.minAge else 0
                      case None => job.decider.Decide(Crates, v.name, v.vers, job.now).Allow?
  {
    TrimNewlineMeans(line, []);
    assert [] + [13, 10] == [13, 10] && [] + [10] == [10] && [] + [13] == [13];
  }

  function KeptLines(lines: seq<Bytes>, job: Job): seq<Bytes> {
    if lines == [] then []
    else if Stays(lines[0], job) then [lines[0]] + KeptLines(lines[1..], job)
    else KeptLines(lines[1..], job)
  }

  function NonBlank(lines: seq<Bytes>): nat {
    if lines == [] then 0 else (if IsBlank(lines[0]) then 0 else 1) + NonBlank(lines[1..])
  }

  function Dropped(lines: seq<Bytes>, job: Job): nat {
    if lines == [] then 0 else (if Stays(lines[0], job) then 0 else 1) + Dropped(lines[1..], job)
  }

  /** The lines kept are those that stay, each as often as it occurs; the others are
      dropped; and only lines that hold something are counted. */
  lemma {:induction false} KeptMeans(lines: seq<Bytes>, job: Job, line: Bytes)
    ensures multiset(KeptLines(lines, job))[line] == if Stays(line, job) then multiset(lines)[line] else 0
    ensures |KeptLines(lines, job)| + Dropped(lines, job) == |lines|
  {
    if lines != [] {
      KeptMeans(lines[1..], job, line);
      assert lines == [lines[0]] + lines[1..];
    }
  }

  lemma {:induction false} NonBlankMeans(lines: seq<Bytes>)
    ensures NonBlank(lines) == |Filter(lines, (line: Bytes) => line !in {[], [10], [13], [13, 10]})|
  {
    if lines != [] {
      NonBlankMeans(lines[..|lines| - 1]);
      var last := lines[|lines| - 1];
      NonBlankSnoc(lines[..|lines| - 1], last);
      assert lines == lines[..|lines| - 1] + [last];
      TrimNewlineMeans(last, []);
      assert [] + [13, 10] == [13, 10] && [] + [10] == [10] && [] + [13] == [13];
    }
  }

  lemma {:induction false} NonBlankSnoc(lines: seq<Bytes>, last: Bytes)
    ensures NonBlank(lines + [last]) == NonBlank(lines) + if IsBlank(last) then 0 else 1
  {
    if lines != [] {
      NonBlankSnoc(lines[1..], last);
      assert (lines + [last])[1..] == lines[1..] + [last];
    }
  }

  function Rewritten(body: Bytes, job: Job): Bytes {
    Flatten(KeptLines(Lines(body), job))
  }

  method RewriteCratesIndexJsonl(body: Bytes, job: Job) returns (out: Bytes, stats: Stats)
    ensures out == Rewritten(body, job)
    ensures stats.dropped == Dropped(Lines(body), job)
    ensures stats.kept + stats.dropped == NonBlank(Lines(body))
  {
    out, stats := [], Stats(0, 0);
    var lines := SplitLines(body);
    for i := 0 to |lines|
      invariant out + Flatten(KeptLines(lines[i..], job)) == Flatten(KeptLines(lines, job))
      invariant stats.dropped + Dropped(lines[i..], job) == Dropped(lines, job)
      invariant stats.kept + stats.dropped + NonBlank(lines[i..]) == NonBlank(lines)
    {
      var line := lines[i];
      RestStep(lines, i, job);
      Regroup(out, line, Flatten(KeptLines(lines[i + 1..], job)));
      if TrimNewline(line) == [] {
        out := out + line;
        continue;
      }
      var decision := Judge(line, job);
      match decision {
        case Allow =>
          out := out + line;
          stats := stats.(kept := stats.kept + 1);
        case Deny(_) =>
          stats := stats.(dropped := stats.dropped + 1);
      }
    }
  }

  /** The decision on a non-blank line; an unparsable one passes through. */
  method Judge(line: Bytes, job: Job) returns (decision: Decision)
    requires !IsBlank(line)
    ensures decision.Allow? <==> Stays(line, job)
  {
    match job.parse(TrimNewline(line))
    case Some(parsed) =>
      return Verdict(parsed, job.decider, job.now);
    case None =>
      return Allow;
  }

  lemma Regroup(out: Bytes, line: Bytes, tail: Bytes)
    ensures out + (line + tail) == out + line + tail
  {
  }

  lemma RestStep(lines: seq<Bytes>, i: nat, job: Job)
    requires i < |lines|
    ensures Flatten(KeptLines(lines[i..], job))
         == if Stays(lines[i], job) then lines[i] + Flatten(KeptLines(lines[i + 1..], job))
            else Flatten(KeptLines(lines[i + 1..], job))
    ensures Dropped(lines[i..], job) == (if Stays(lines[i], job) then 0 else 1) + Dropped(lines[i + 1..], job)
    ensures NonBlank(lines[i..]) == (if IsBlank(lines[i]) then 0 else 1) + NonBlank(lines[i + 1..])
  {
  }

  // ---------- Properties of the filter ----------

  lemma {:induction false} KeptTerminated(lines: seq<Bytes>, job: Job)
    requires Terminated(lines)
    ensures Terminated(KeptLines(lines, job))
  {
    if lines != [] {
      assert Terminated(lines[1..]) by {
        assert forall i | 0 <= i < |lines[1..]| :: lines[1..][i] == lines[i + 1];
      }
      KeptTerminated(lines[1..], job);
      assert |lines| == 1 ==> KeptLines(lines[1..], job) == [];
    }
  }

  /** Splitting the output again gives exactly the lines kept, each byte for byte. */
  lemma OutputLines(body: Bytes, job: Job)
    ensures Lines(Rewritten(body, job)) == KeptLines(Lines(body), job)
  {
    LinesPartition(body);
    KeptTerminated(Lines(body), job);
    LinesOfFlatten(KeptLines(Lines(body), job));
  }

  /** Two filters in a row, when whatever the one keeps the other keeps too. */
  lemma {:induction false} KeptTwice(lines: seq<Bytes>, strict: Job, lax: Job)
    requires forall line | line in lines :: Stays(line, strict) ==> Stays(line, lax)
    ensures KeptLines(KeptLines(lines, lax), strict) == KeptLines(lines, strict)
    ensures KeptLines(KeptLines(lines, strict), lax) == KeptLines(lines, strict)
    ensures Dropped(KeptLines(lines, strict), lax) == 0
  {
    if lines != [] {
      assert lines[0] in lines;
      KeptTwice(lines[1..], strict, lax);
      if Stays(lines[0], lax) {
        assert ([lines[0]] + KeptLines(lines[1..], lax))[1..] == KeptLines(lines[1..], lax);
      }
      if Stays(lines[0], strict) {
        assert ([lines[0]] + KeptLines(lines[1..], strict))[1..] == KeptLines(lines[1..], strict);
      }
    }
  }

  /** Rewriting the output again changes nothing and drops nothing. */
  lemma RewriteIdempotent(body: Bytes, job: Job)
    ensures Rewritten(Rewritten(body, job), job) == Rewritten(body, job)
    ensures Dropped(Lines(Rewritten(body, job)), job) == 0
  {
    OutputLines(body, job);
    KeptTwice(Lines(body), job, job);
  }

  /** The filter only loosens with time, so an earlier rewrite absorbs a later
      one, whichever runs first. */
  lemma RewriteMonotoneInTime(body: Bytes, job: Job, later: Time)
    requires job.now <= later
    ensures Rewritten(Rewritten(body, job.(now := later)), job) == Rewritten(body, job)
    ensures Rewritten(Rewritten(body, job), job.(now := later)) == Rewritten(body, job)
  {
    var lax := job.(now := later);
    forall line | line in Lines(body) && Stays(line, job)
      ensures Stays(line, lax)
    {
      var parsed := job.parse(TrimNewline(line));
      if parsed.Some? {
        AllowPersists(job.decider, Crates, parsed.value.name, parsed.value.vers, job.now, later);
      }
    }
    KeptTwice(Lines(body), job, lax);
    OutputLines(body, job);
    OutputLines(body, lax);
  }

  /** The fast path and the decider disagree on a line whose publish time the
      oracle confirms exactly when the line is old enough and a hook denies it. */
  lemma FastPathDisagrees(line: IndexLine, d: Decider, now: Time)
    requires line.pubtime.Some? && d.oracle(Crates, line.name, line.vers) == Ok(line.pubtime)
    ensures Verdict(line, d, now).Allow? != d.Decide(Crates, line.name, line.vers, now).Allow?
            <==> !IsTooYoung(line.pubtime.value, d.minAge, now) && d.HooksDeny(Crates, line.name, line.vers)
  {
  }

  /** `slow` reads the same lines as `fast` but without the publish times, and its
      oracle answers them instead; on a line that has none the deciders agree. */
  ghost predicate OracleStandsIn(line: Bytes, fast: Job, slow: Job) {
    var f, s := fast.parse(TrimNewline(line)), slow.parse(TrimNewline(line));
    && (f.None? <==> s.None?)
    && (f.Some? ==>
          && s.value == f.value.(pubtime := None)
          && if f.value.pubtime.Some?
             then slow.decider.oracle(Crates, f.value.name, f.value.vers) == Ok(f.value.pubtime)
             else slow.decider.Decide(Crates, f.value.name, f.value.vers, slow.now).Allow?
                  == fast.decider.Decide(Crates, f.value.name, f.value.vers, fast.now).Allow?)
  }

  /** The slow path drops a line with a publish time that the fast path keeps. */
  predicate OldButDenied(line: Bytes, fast: Job, slow: Job) {
    var f := fast.parse(TrimNewline(line));
    && !IsBlank(line) && f.Some? && f.value.pubtime.Some?
    && !IsTooYoung(f.value.pubtime.value, fast.decider.minAge, fast.now)
    && slow.decider.HooksDeny(Crates, f.value.name, f.value.vers)
  }

  /** With an oracle that answers each line's own publish time, where it has one, the
      two paths give the same output exactly when no line with a publish time is old
      enough and denied by a hook. */
  lemma FastPathExactly(body: Bytes, fast: Job, slow: Job)
    requires fast.now == slow.now && fast.decider.minAge == slow.decider.minAge
    requires forall line | line in Lines(body) :: OracleStandsIn(line, fast, slow)
    ensures Rewritten(body, fast) == Rewritten(body, slow)
            <==> forall line | line in Lines(body) :: !OldButDenied(line, fast, slow)
  {
    SameKept(Lines(body), fast, slow);
    OutputLines(body, fast);
    OutputLines(body, slow);
  }

  lemma StaysOnOne(line: Bytes, fast: Job, slow: Job)
    requires fast.now == slow.now && fast.decider.minAge == slow.decider.minAge && OracleStandsIn(line, fast, slow)
    ensures Stays(line, slow) <==> Stays(line, fast) && !OldButDenied(line, fast, slow)
    ensures OldButDenied(line, fast, slow) ==> Stays(line, fast)
  {
  }

  lemma {:induction false} SameKept(lines: seq<Bytes>, fast: Job, slow: Job)
    requires fast.now == slow.now && fast.decider.minAge == slow.decider.minAge
    requires forall line | line in lines :: OracleStandsIn(line, fast, slow)
    ensures |KeptLines(lines, slow)| <= |KeptLines(lines, fast)|
    ensures KeptLines(lines, fast) == KeptLines(lines, slow)
            <==> forall line | line in lines :: !OldButDenied(line, fast, slow)
  {
    if lines != [] {
      var first, rest := lines[0], lines[1..];
      SameKept(rest, fast, slow);
      StaysOnOne(first, fast, slow);
      assert forall line :: line in lines <==> line == first || line in rest;
      if Stays(first, slow) {
        HeadCancels(first, KeptLines(rest, fast), KeptLines(rest, slow));
      }
    }
  }

  lemma HeadCancels(head: Bytes, a: seq<Bytes>, b: seq<Bytes>)
    ensures [head] + a == [head] + b <==> a == b
  {
    assert ([head] + a)[1..] == a && ([head] + b)[1..] == b;
  }

  /** Without hooks the fast path is only an optimisation. */
  lemma FastPathAgrees(body: Bytes, fast: Job, slow: Job)
    requires fast.now == slow.now && fast.decider.minAge == slow.decider.minAge
    requires slow.decider.knownBad.None? && slow.decider.typosquat.None?
    requires forall line | line in Lines(body) :: OracleStandsIn(line, fast, slow)
    ensures Rewritten(body, fast) == Rewritten(body, slow)
  {
    FastPathExactly(body, fast, slow);
  }
}
