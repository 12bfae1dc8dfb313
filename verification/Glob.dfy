/** The two `*` globbers of the repository, one for path segments and one for
    environment variable names, against one declarative language. */
module Glob {
  import opened Basics
  import opened Text

  /** `pat` describes `s`: a `*` stands for any string, every other character
      for itself. */
  ghost predicate Matches(pat: string, s: string)
    decreases |pat|
  {
    if pat == "" then s == ""
    else if pat[0] == '*' then exists k | 0 <= k <= |s| :: Matches(pat[1..], s[k..])
    else s != "" && s[0] == pat[0] && Matches(pat[1..], s[1..])
  }

  // ---------- The same language, by explicit substitution ----------

  function Stars(pat: string): nat {
    if pat == "" then 0 else (if pat[0] == '*' then 1 else 0) + Stars(pat[1..])
  }

  /** `pat` with its i-th star replaced by `fills[i]`. */
  function Fill(pat: string, fills: seq<string>): string
    requires |fills| == Stars(pat)
  {
    if pat == "" then ""
    else if pat[0] == '*' then fills[0] + Fill(pat[1..], fills[1..])
    else [pat[0]] + Fill(pat[1..], fills)
  }

  ghost predicate IsFilling(pat: string, fills: seq<string>, s: string) {
    |fills| == Stars(pat) && Fill(pat, fills) == s
  }

  lemma {:induction false} FillingMatches(pat: string, fills: seq<string>)
    requires |fills| == Stars(pat)
    ensures Matches(pat, Fill(pat, fills))
  {
    if pat != "" {
      var s := Fill(pat, fills);
      if pat[0] == '*' {
        FillingMatches(pat[1..], fills[1..]);
        assert s[|fills[0]|..] == Fill(pat[1..], fills[1..]);
      } else {
        FillingMatches(pat[1..], fills);
        assert s[1..] == Fill(pat[1..], fills);
      }
    }
  }

  lemma {:induction false} MatchHasFilling(pat: string, s: string) returns (fills: seq<string>)
    requires Matches(pat, s)
    ensures IsFilling(pat, fills, s)
  {
    if pat == "" {
      fills := [];
    } else if pat[0] == '*' {
      var k :| 0 <= k <= |s| && Matches(pat[1..], s[k..]);
      var rest := MatchHasFilling(pat[1..], s[k..]);
      fills := [s[..k]] + rest;
      assert fills[1..] == rest && s[..k] + s[k..] == s;
    } else {
      fills := MatchHasFilling(pat[1..], s[1..]);
      assert [s[0]] + s[1..] == s;
    }
  }

  /** A pattern accepts exactly the strings got by replacing its stars. */
  lemma MatchesIffFilled(pat: string, s: string)
    ensures Matches(pat, s) <==> exists fills :: IsFilling(pat, fills, s)
  {
    if Matches(pat, s) {
      var fills := MatchHasFilling(pat, s);
    }
    forall fills | IsFilling(pat, fills, s) ensures Matches(pat, s) {
      FillingMatches(pat, fills);
    }
  }

  // ---------- The language over the pieces between stars ----------

  /** `parts[0]`, then anything, then `parts[1]`, ..., with `parts[last]` at the end. */
  ghost predicate Pieces(parts: seq<string>, s: string)
    requires parts != []
    decreases |parts|, 0
  {
    if |parts| == 1 then s == parts[0]
    else parts[0] <= s && Gapped(parts[1..], s[|parts[0]|..])
  }

  /** `Pieces`, after a star. */
  ghost predicate Gapped(parts: seq<string>, s: string)
    requires parts != []
    decreases |parts|, 1
  {
    exists k | 0 <= k <= |s| :: Pieces(parts, s[k..])
  }

  lemma {:induction false} MatchesIffPieces(pat: string, s: string)
    ensures Matches(pat, s) <==> Pieces(Split(pat, '*'), s)
  {
    if pat != "" {
      var rest := Split(pat[1..], '*');
      var parts := Split(pat, '*');
      if pat[0] == '*' {
        assert parts[1..] == rest && s[0..] == s;
        forall k | 0 <= k <= |s|
          ensures Matches(pat[1..], s[k..]) <==> Pieces(rest, s[k..])
        {
          MatchesIffPieces(pat[1..], s[k..]);
        }
      } else if s != "" {
        MatchesIffPieces(pat[1..], s[1..]);
        assert parts[1..] == rest[1..] && s == [s[0]] + s[1..];
        if s[0] == pat[0] {
          assert parts[0] == [s[0]] + rest[0];
          assert |rest| > 1 && rest[0] <= s[1..] ==> s[1..][|rest[0]|..] == s[|parts[0]|..];
          assert rest[0] <= s[1..] <==> parts[0] <= s;
        }
      }
    }
  }

  /** Starting a gapped match further left never hurts. */
  lemma GappedMonotone(parts: seq<string>, s: string, i: nat, j: nat)
    requires parts != [] && i <= j <= |s| && Gapped(parts, s[j..])
    ensures Gapped(parts, s[i..])
  {
    var k :| 0 <= k <= |s[j..]| && Pieces(parts, s[j..][k..]);
    assert s[j..][k..] == s[i..][j - i + k..];
  }

  /** The exchange step: taking the leftmost occurrence of the next piece is complete. */
  lemma LeftmostSuffices(parts: seq<string>, s: string)
    requires |parts| > 1
    ensures var found := Find(s, parts[0]);
            Gapped(parts, s)
            <==> found.Some? && Gapped(parts[1..], s[found.value + |parts[0]|..])
  {
    var found := Find(s, parts[0]);
    if Gapped(parts, s) {
      MoveToLeftmost(parts, s);
    }
    if found.Some? {
      PieceAt(parts, s, found.value);
    }
  }

  lemma MoveToLeftmost(parts: seq<string>, s: string)
    requires |parts| > 1 && Gapped(parts, s)
    ensures Find(s, parts[0]).Some? && Gapped(parts[1..], s[Find(s, parts[0]).value + |parts[0]|..])
  {
    var k :| 0 <= k <= |s| && Pieces(parts, s[k..]);
    PieceAt(parts, s, k);
    GappedMonotone(parts[1..], s, Find(s, parts[0]).value + |parts[0]|, k + |parts[0]|);
  }

  /** Matching from an occurrence of the first piece. */
  lemma PieceAt(parts: seq<string>, s: string, k: nat)
    requires |parts| > 1 && k <= |s|
    ensures Pieces(parts, s[k..]) <==> At(s, parts[0], k) && Gapped(parts[1..], s[k + |parts[0]|..])
  {
  }

  lemma LastPieceAtEnd(part: string, s: string)
    ensures Gapped([part], s) <==> EndsWith(s, part)
  {
    if EndsWith(s, part) {
      assert Pieces([part], s[|s| - |part|..]);
    }
  }

  lemma BareStar(s: string)
    ensures Matches("*", s)
  {
    assert s[|s|..] == "";
    assert Matches("*"[1..], s[|s|..]);
  }

  lemma LiteralMatches(pat: string, s: string)
    requires '*' !in pat
    ensures Matches(pat, s) <==> pat == s
  {
    MatchesIffPieces(pat, s);
  }

  // ---------- The two implementations ----------

  /** Single-segment glob: consumes `rest` from the left, one literal piece at a time. */
  method SegmentMatches(pat: string, seg: string) returns (ok: bool)
    ensures ok <==> Matches(pat, seg)
  {
    if pat == "*" {
      BareStar(seg);
      return true;
    }
    if '*' !in pat {
      LiteralMatches(pat, seg);
      return pat == seg;
    }
    var parts := Split(pat, '*');
    MatchesIffPieces(pat, seg);
    StarSplits(pat);
    var rest := seg;
    for i := 0 to |parts|
      invariant i == 0 ==> rest == seg
      invariant 0 < i < |parts| ==> (Matches(pat, seg) <==> Gapped(parts[i..], rest))
      invariant i == |parts| ==> Matches(pat, seg)
    {
      var p := parts[i];
      if i == 0 {
        if !(p <= rest) {
          return false;
        }
        rest := rest[|p|..];
      } else if i == |parts| - 1 {
        assert parts[i..] == [p];
        LastPieceAtEnd(p, rest);
        if !EndsWith(rest, p) {
          return false;
        }
      } else {
        LeftmostSuffices(parts[i..], rest);
        assert parts[i..][1..] == parts[i + 1..];
        var idx := Find(rest, p);
        if idx.None? {
          return false;
        }
        rest := rest[idx.value + |p|..];
      }
    }
    return true;
  }

  lemma {:induction false} StarSplits(pat: string)
    requires '*' in pat
    ensures |Split(pat, '*')| > 1
  {
    if pat[0] != '*' {
      StarSplits(pat[1..]);
    }
  }

  /** Environment-name glob: the same language by a cursor, skipping empty pieces. */
  method GlobMatch(pattern: string, name: string) returns (ok: bool)
    ensures ok <==> Matches(pattern, name)
  {
    if '*' !in pattern {
      LiteralMatches(pattern, name);
      return pattern == name;
    }
    var parts := Split(pattern, '*');
    MatchesIffPieces(pattern, name);
    StarSplits(pattern);
    var cursor := 0;
    for i := 0 to |parts|
      invariant 0 <= cursor <= |name|
      invariant i == 0 ==> cursor == 0
      invariant 0 < i < |parts| ==> (Matches(pattern, name) <==> Gapped(parts[i..], name[cursor..]))
      invariant i == |parts| ==> Matches(pattern, name)
    {
      var part := parts[i];
      if part == "" {
        SkipEmpty(parts, i, name[cursor..]);
        assert i == 0 ==> name[cursor..] == name && part <= name;
        continue;
      }
      if i == 0 {
        if !(part <= name[cursor..]) {
          return false;
        }
        cursor := cursor + |part|;
      } else if i == |parts| - 1 {
        assert parts[i..] == [part];
        LastPieceAtEnd(part, name[cursor..]);
        if !EndsWith(name[cursor..], part) {
          return false;
        }
        if |name| < cursor + |part| {
          return false;
        }
      } else {
        var pos := Find(name[cursor..], part);
        NextPiece(parts, i, name, cursor);
        if pos.None? {
          return false;
        }
        cursor := cursor + pos.value + |part|;
      }
    }
    return true;
  }

  /** The middle step of the loop, on the cursor. */
  lemma NextPiece(parts: seq<string>, i: nat, name: string, cursor: nat)
    requires i + 1 < |parts| && cursor <= |name|
    ensures var pos := Find(name[cursor..], parts[i]);
            Gapped(parts[i..], name[cursor..])
            <==> pos.Some? && Gapped(parts[i + 1..], name[cursor + pos.value + |parts[i]|..])
  {
    LeftmostSuffices(parts[i..], name[cursor..]);
    assert parts[i..][1..] == parts[i + 1..];
    var pos := Find(name[cursor..], parts[i]);
    if pos.Some? {
      assert name[cursor..][pos.value + |parts[i]|..] == name[cursor + pos.value + |parts[i]|..];
    }
  }

  /** An empty piece after a star constrains nothing. */
  lemma SkipEmpty(parts: seq<string>, i: nat, s: string)
    requires i < |parts| && parts[i] == ""
    ensures i + 1 < |parts| ==> (Gapped(parts[i..], s) <==> Gapped(parts[i + 1..], s))
    ensures i + 1 == |parts| ==> Gapped(parts[i..], s)
  {
    if i + 1 < |parts| {
      LeftmostSuffices(parts[i..], s);
      assert At(s, "", 0) && s[0 + |""|..] == s;
      assert parts[i..][1..] == parts[i + 1..];
    } else {
      assert parts[i..] == [""];
      LastPieceAtEnd("", s);
    }
  }
}
