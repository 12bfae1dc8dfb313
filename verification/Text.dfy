/** The parts of the string library the modelled code leans on: splitting on a
    character, joining, searching and trimming. */
module Text {
  import opened Basics

  /** The maximal `sep`-free pieces of `s`, in order; never empty. */
  function Split(s: string, sep: char): (parts: seq<string>)
    ensures |parts| >= 1
    ensures forall i | 0 <= i < |parts| :: sep !in parts[i]
    ensures sep !in s ==> parts == [s]
  {
    if s == "" then [""]
    else
      var rest := Split(s[1..], sep);
      assert sep !in s ==> sep !in s[1..] && [s[0]] + s[1..] == s;
      if s[0] == sep then [""] + rest else [[s[0]] + rest[0]] + rest[1..]
  }

  function Join(parts: seq<string>, sep: char): string {
    if parts == [] then ""
    else if |parts| == 1 then parts[0]
    else parts[0] + [sep] + Join(parts[1..], sep)
  }

  lemma {:induction false} JoinOfSplit(s: string, sep: char)
    ensures Join(Split(s, sep), sep) == s
  {
    if s != "" {
      JoinOfSplit(s[1..], sep);
      var rest := Split(s[1..], sep);
      if s[0] == sep {
        assert ([""] + rest)[1..] == rest;
      } else {
        var parts := [[s[0]] + rest[0]] + rest[1..];
        assert parts[1..] == rest[1..];
        assert s == [s[0]] + s[1..];
      }
    }
  }

  function Prepend(head: string, parts: seq<string>): (r: seq<string>)
    requires parts != []
    ensures |r| == |parts| && r[0] == head + parts[0] && r[1..] == parts[1..]
  {
    [head + parts[0]] + parts[1..]
  }

  /** A `sep`-free prefix only lengthens the first piece. */
  lemma {:induction false} SplitWithHead(head: string, tail: string, sep: char)
    requires sep !in head
    ensures Split(head + tail, sep) == Prepend(head, Split(tail, sep))
  {
    hide Split, Prepend;
    if head == "" {
      assert head + tail == tail;
      PrependNothing(Split(tail, sep));
    } else {
      SplitWithHead(head[1..], tail, sep);
      assert head + tail == [head[0]] + (head[1..] + tail);
      SplitCons(head[0], head[1..] + tail, sep);
      PrependTwice(head[0], head[1..], Split(tail, sep));
      assert [head[0]] + head[1..] == head;
    }
  }

  lemma PrependNothing(parts: seq<string>)
    requires parts != []
    ensures Prepend("", parts) == parts
  {
    assert "" + parts[0] == parts[0];
  }

  lemma PrependTwice(c: char, head: string, parts: seq<string>)
    requires parts != []
    ensures Prepend([c], Prepend(head, parts)) == Prepend([c] + head, parts)
  {
    assert [c] + (head + parts[0]) == [c] + head + parts[0];
  }

  lemma SplitCons(c: char, s: string, sep: char)
    requires c != sep
    ensures Split([c] + s, sep) == Prepend([c], Split(s, sep))
  {
    assert ([c] + s)[1..] == s;
  }

  lemma {:induction false} SplitOfJoin(parts: seq<string>, sep: char)
    requires parts != [] && forall i | 0 <= i < |parts| :: sep !in parts[i]
    ensures Split(Join(parts, sep), sep) == parts
  {
    if |parts| == 1 {
      assert parts == [parts[0]];
    } else {
      var tail := Join(parts[1..], sep);
      SplitOfJoin(parts[1..], sep);
      SplitWithHead(parts[0], [sep] + tail, sep);
      assert ([sep] + tail)[1..] == tail;
      assert parts[0] + [sep] + tail == parts[0] + ([sep] + tail);
      assert Split([sep] + tail, sep) == [""] + parts[1..];
      assert parts[0] + "" == parts[0] && ([""] + parts[1..])[1..] == parts[1..];
    }
  }

  predicate EndsWith(s: string, suffix: string) {
    |suffix| <= |s| && s[|s| - |suffix|..] == suffix
  }

  /** Does `needle` occur in `s` at index `k`? */
  predicate At(s: string, needle: string, k: nat) {
    k + |needle| <= |s| && s[k..k + |needle|] == needle
  }

  /** The leftmost occurrence at or after `from`. */
  function FindFrom(s: string, needle: string, from: nat): (r: Option<nat>)
    requires from <= |s|
    ensures r.Some? ==> from <= r.value && At(s, needle, r.value)
    ensures r.Some? ==> forall k | from <= k < r.value :: !At(s, needle, k)
    ensures r.None? ==> forall k | from <= k :: !At(s, needle, k)
    decreases |s| - from
  {
    if At(s, needle, from) then Some(from)
    else if from == |s| then None
    else FindFrom(s, needle, from + 1)
  }

  function Find(s: string, needle: string): Option<nat> {
    FindFrom(s, needle, 0)
  }

  function TrimStart(s: string, c: char): (r: string)
    ensures r == "" || r[0] != c
    ensures |r| <= |s| && r == s[|s| - |r|..]
    ensures forall i | 0 <= i < |s| - |r| :: s[i] == c
  {
    if s != "" && s[0] == c then TrimStart(s[1..], c) else s
  }

  function TrimEnd(s: string, c: char): (r: string)
    ensures r <= s && (r == "" || r[|r| - 1] != c)
    ensures forall i | |r| <= i < |s| :: s[i] == c
  {
    if s != "" && s[|s| - 1] == c then TrimEnd(s[..|s| - 1], c) else s
  }

  predicate AllSlashes(s: string) {
    forall i | 0 <= i < |s| :: s[i] == '/'
  }

  lemma {:induction false} TrimSlashes(slashes: string, core: string)
    requires AllSlashes(slashes) && core != "" && core[0] != '/'
    ensures TrimStart(slashes + core, '/') == core
  {
    if slashes == "" {
      assert slashes + core == core;
    } else {
      assert (slashes + core)[1..] == slashes[1..] + core;
      TrimSlashes(slashes[1..], core);
    }
  }

  lemma {:induction false} TrimEndSlashes(core: string, slashes: string)
    requires AllSlashes(slashes) && core != "" && core[|core| - 1] != '/'
    ensures TrimEnd(core + slashes, '/') == core
  {
    if slashes == "" {
      assert core + slashes == core;
    } else {
      var init := slashes[..|slashes| - 1];
      assert (core + slashes)[..|core + slashes| - 1] == core + init;
      TrimEndSlashes(core, init);
    }
  }

  /** The Unicode White_Space characters. */
  predicate IsSpace(c: char) {
    || '\t' <= c <= '\r' || c == ' ' || c == '\U{85}' || c == '\U{A0}'
    || c == '\U{1680}' || '\U{2000}' <= c <= '\U{200A}'
    || c == '\U{2028}' || c == '\U{2029}' || c == '\U{202F}'
    || c == '\U{205F}' || c == '\U{3000}'
  }

  function Trim(s: string): (r: string)
    ensures r == "" || (!IsSpace(r[0]) && !IsSpace(r[|r| - 1]))
    ensures r == "" <==> forall i | 0 <= i < |s| :: IsSpace(s[i])
  {
    if s != "" && IsSpace(s[0]) then
      assert s == [s[0]] + s[1..];
      Trim(s[1..])
    else if s != "" && IsSpace(s[|s| - 1]) then
      assert s == s[..|s| - 1] + [s[|s| - 1]];
      Trim(s[..|s| - 1])
    else s
  }

  predicate AllSpaces(s: string) {
    forall i | 0 <= i < |s| :: IsSpace(s[i])
  }

  /** `s` is `t` with spaces at either end. */
  ghost predicate IsPadded(s: string, t: string) {
    exists left, right :: s == left + t + right && AllSpaces(left) && AllSpaces(right)
  }

  lemma PadLeft(c: char, s: string, t: string)
    requires IsSpace(c) && IsPadded(s, t)
    ensures IsPadded([c] + s, t)
  {
    var left, right :| s == left + t + right && AllSpaces(left) && AllSpaces(right);
    var more := [c] + left;
    assert [c] + s == more + t + right && AllSpaces(more);
  }

  lemma PadRight(s: string, c: char, t: string)
    requires IsSpace(c) && IsPadded(s, t)
    ensures IsPadded(s + [c], t)
  {
    var left, right :| s == left + t + right && AllSpaces(left) && AllSpaces(right);
    var more := right + [c];
    assert s + [c] == left + t + more && AllSpaces(more);
  }

  /** Trimming takes spaces off either end and nothing else. */
  lemma {:induction false} TrimMeans(s: string)
    ensures IsPadded(s, Trim(s))
  {
    if s != "" && IsSpace(s[0]) {
      TrimMeans(s[1..]);
      PadLeft(s[0], s[1..], Trim(s[1..]));
      assert s == [s[0]] + s[1..];
    } else if s != "" && IsSpace(s[|s| - 1]) {
      TrimMeans(s[..|s| - 1]);
      PadRight(s[..|s| - 1], s[|s| - 1], Trim(s[..|s| - 1]));
      assert s == s[..|s| - 1] + [s[|s| - 1]];
    } else {
      assert s == "" + s + "" && AllSpaces("");
    }
  }

  /** No printable ASCII character but the blank is a space. */
  lemma AsciiSpaces(c: char)
    requires c <= '~'
    ensures IsSpace(c) <==> c in " \t\n\U{0B}\U{0C}\r"
  {
  }
}
