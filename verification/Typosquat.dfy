/** Typosquat detection: the bounded edit distance, and the search for the
    closest popular name. */
module Typosquat {
  import opened Basics

  // ---------- Edits ----------

  /** One step of an alignment. Each part of a string is edited at most once. */
  datatype Edit =
    | Keep(c: byte) | Substitute(c: byte, d: byte) | Delete(c: byte) | Insert(d: byte)
    | Transpose(c: byte, d: byte)
  {
    function Cost(): nat {
      if Keep? then 0 else 1
    }

    function Reads(): Bytes {
      match this
      case Keep(c) => [c]
      case Substitute(c, _) => [c]
      case Delete(c) => [c]
      case Insert(_) => []
      case Transpose(c, d) => [c, d]
    }

    function Writes(): Bytes {
      match this
      case Keep(c) => [c]
      case Substitute(_, d) => [d]
      case Delete(_) => []
      case Insert(d) => [d]
      case Transpose(c, d) => [d, c]
    }
  }

  function Source(edits: seq<Edit>): Bytes {
    if edits == [] then [] else Source(edits[..|edits| - 1]) + edits[|edits| - 1].Reads()
  }

  function Target(edits: seq<Edit>): Bytes {
    if edits == [] then [] else Target(edits[..|edits| - 1]) + edits[|edits| - 1].Writes()
  }

  function TotalCost(edits: seq<Edit>): nat {
    if edits == [] then 0 else TotalCost(edits[..|edits| - 1]) + edits[|edits| - 1].Cost()
  }

  ghost predicate Rewrites(edits: seq<Edit>, a: Bytes, b: Bytes) {
    Source(edits) == a && Target(edits) == b
  }

  /** The least cost of turning `a` into `b`. */
  ghost predicate IsLeastCost(a: Bytes, b: Bytes, d: nat) {
    && (exists edits :: Rewrites(edits, a, b) && TotalCost(edits) == d)
    && forall edits | Rewrites(edits, a, b) :: d <= TotalCost(edits)
  }

  // ---------- The recurrence ----------

  function Min(x: nat, y: nat): nat {
    if x < y then x else y
  }

  predicate Swapped(a: Bytes, b: Bytes, i: nat, j: nat)
    requires i <= |a| && j <= |b|
  {
    i >= 2 && j >= 2 && a[i - 1] == b[j - 2] && a[i - 2] == b[j - 1]
  }

  /** One entry of the table from its neighbours; `twoBack` if a swap aligns. */
  function Cell(above: nat, left: nat, diagonal: nat, same: bool, twoBack: Option<nat>): nat {
    var plain := Min(Min(above + 1, left + 1), diagonal + if same then 0 else 1);
    if twoBack.Some? then Min(plain, twoBack.value + 1) else plain
  }

  /** The distance of the first `i` bytes of `a` from the first `j` of `b`. */
  function Dist(a: Bytes, b: Bytes, i: nat, j: nat): nat
    requires i <= |a| && j <= |b|
    decreases i + j
  {
    if i == 0 then j
    else if j == 0 then i
    else Cell(Dist(a, b, i, j - 1), Dist(a, b, i - 1, j), Dist(a, b, i - 1, j - 1), a[i - 1] == b[j - 1],
              if Swapped(a, b, i, j) then Some(Dist(a, b, i - 2, j - 2)) else None)
  }

  /** `Dist` unfolded once; the proofs below hide its body and use this. */
  lemma Recurrence(a: Bytes, b: Bytes, i: nat, j: nat)
    requires i <= |a| && j <= |b|
    ensures Dist(a, b, 0, j) == j && Dist(a, b, i, 0) == i
    ensures i > 0 && j > 0 ==>
              Dist(a, b, i, j)
              == Cell(Dist(a, b, i, j - 1), Dist(a, b, i - 1, j), Dist(a, b, i - 1, j - 1), a[i - 1] == b[j - 1],
                      if Swapped(a, b, i, j) then Some(Dist(a, b, i - 2, j - 2)) else None)
  {
  }

  function Distance(a: Bytes, b: Bytes): nat {
    Dist(a, b, |a|, |b|)
  }

  /** A prefix that ends in `tail`. */
  lemma SplitOff(head: Bytes, tail: Bytes, a: Bytes, i: nat)
    requires i <= |a| && head + tail == a[..i]
    ensures |tail| <= i && head == a[..i - |tail|] && tail == a[i - |tail|..i]
  {
    assert |head + tail| == i;
    assert head == (head + tail)[..|head|] && tail == (head + tail)[|head|..];
  }

  /** The distance grows by at most the cost of one more edit. */
  lemma StepBounds(a: Bytes, b: Bytes, i: nat, j: nat)
    requires i <= |a| && j <= |b|
    ensures j > 0 ==> Dist(a, b, i, j) <= Dist(a, b, i, j - 1) + 1
    ensures i > 0 ==> Dist(a, b, i, j) <= Dist(a, b, i - 1, j) + 1
    ensures i > 0 && j > 0 ==>
              Dist(a, b, i, j) <= Dist(a, b, i - 1, j - 1) + if a[i - 1] == b[j - 1] then 0 else 1
    ensures Swapped(a, b, i, j) ==> Dist(a, b, i, j) <= Dist(a, b, i - 2, j - 2) + 1
  {
    hide Dist;
    Recurrence(a, b, i, j);
    if i > 0 {
      Recurrence(a, b, i - 1, j);
    }
    if j > 0 {
      Recurrence(a, b, i, j - 1);
    }
  }

  /** `e` is an edit of the bytes that end at `i` and `j`. */
  predicate EndsAt(e: Edit, a: Bytes, b: Bytes, i: nat, j: nat)
    requires i <= |a| && j <= |b|
  {
    && |e.Reads()| <= i && a[i - |e.Reads()|..i] == e.Reads()
    && |e.Writes()| <= j && b[j - |e.Writes()|..j] == e.Writes()
  }

  lemma EndsInOne(a: Bytes, i: nat, c: byte)
    requires 0 < i <= |a|
    ensures a[i - 1..i] == [c] <==> a[i - 1] == c
  {
    assert a[i - 1..i] == [a[i - 1]];
  }

  lemma EndsInTwo(a: Bytes, i: nat, c: byte, d: byte)
    requires 1 < i <= |a|
    ensures a[i - 2..i] == [c, d] <==> a[i - 2] == c && a[i - 1] == d
  {
    assert a[i - 2..i] == [a[i - 2], a[i - 1]];
  }

  lemma EditBound(e: Edit, a: Bytes, b: Bytes, i: nat, j: nat)
    requires i <= |a| && j <= |b| && EndsAt(e, a, b, i, j)
    ensures Dist(a, b, i, j) <= Dist(a, b, i - |e.Reads()|, j - |e.Writes()|) + e.Cost()
  {
    hide Dist;
    StepBounds(a, b, i, j);
    match e
    case Keep(c) =>
      EndsInOne(a, i, c);
      EndsInOne(b, j, c);
    case Transpose(c, d) =>
      EndsInTwo(a, i, c, d);
      EndsInTwo(b, j, d, c);
    case _ =>
  }

  lemma LastEdit(a: Bytes, b: Bytes, i: nat, j: nat, init: seq<Edit>, e: Edit)
    requires i <= |a| && j <= |b| && Rewrites(init + [e], a[..i], b[..j])
    ensures EndsAt(e, a, b, i, j)
    ensures Rewrites(init, a[..i - |e.Reads()|], b[..j - |e.Writes()|])
  {
    assert (init + [e])[..|init|] == init;
    SplitOff(Source(init), e.Reads(), a, i);
    SplitOff(Target(init), e.Writes(), b, j);
  }

  lemma {:induction false} NoEditsBeatDist(a: Bytes, b: Bytes, i: nat, j: nat, edits: seq<Edit>)
    requires i <= |a| && j <= |b| && Rewrites(edits, a[..i], b[..j])
    ensures Dist(a, b, i, j) <= TotalCost(edits)
    decreases |edits|
  {
    hide Dist;
    if edits == [] {
      assert |a[..i]| == 0 && |b[..j]| == 0;
      Recurrence(a, b, i, j);
    } else {
      var init, e := edits[..|edits| - 1], edits[|edits| - 1];
      assert edits == init + [e];
      LastEdit(a, b, i, j, init, e);
      NoEditsBeatDist(a, b, i - |e.Reads()|, j - |e.Writes()|, init);
      EditBound(e, a, b, i, j);
    }
  }

  lemma BestStep(a: Bytes, b: Bytes, i: nat, j: nat)
    requires i <= |a| && j <= |b| && i + j > 0
    ensures || (j > 0 && Dist(a, b, i, j) == Dist(a, b, i, j - 1) + 1)
            || (i > 0 && Dist(a, b, i, j) == Dist(a, b, i - 1, j) + 1)
            || (Swapped(a, b, i, j) && Dist(a, b, i, j) == Dist(a, b, i - 2, j - 2) + 1)
            || (i > 0 && j > 0
                && Dist(a, b, i, j) == Dist(a, b, i - 1, j - 1) + if a[i - 1] == b[j - 1] then 0 else 1)
  {
    hide Dist;
    Recurrence(a, b, i, j);
    if i > 0 {
      Recurrence(a, b, i - 1, j);
    }
    if j > 0 {
      Recurrence(a, b, i, j - 1);
    }
  }

  predicate Attains(e: Edit, a: Bytes, b: Bytes, i: nat, j: nat)
    requires i <= |a| && j <= |b|
  {
    EndsAt(e, a, b, i, j) && Dist(a, b, i, j) == Dist(a, b, i - |e.Reads()|, j - |e.Writes()|) + e.Cost()
  }

  lemma InsertAttains(a: Bytes, b: Bytes, i: nat, j: nat)
    requires i <= |a| && 0 < j <= |b| && Dist(a, b, i, j) == Dist(a, b, i, j - 1) + 1
    ensures Attains(Insert(b[j - 1]), a, b, i, j)
  {
    hide Dist;
    EndsInOne(b, j, b[j - 1]);
  }

  lemma DeleteAttains(a: Bytes, b: Bytes, i: nat, j: nat)
    requires 0 < i <= |a| && j <= |b| && Dist(a, b, i, j) == Dist(a, b, i - 1, j) + 1
    ensures Attains(Delete(a[i - 1]), a, b, i, j)
  {
    hide Dist;
    EndsInOne(a, i, a[i - 1]);
  }

  lemma TransposeAttains(a: Bytes, b: Bytes, i: nat, j: nat)
    requires i <= |a| && j <= |b| && Swapped(a, b, i, j) && Dist(a, b, i, j) == Dist(a, b, i - 2, j - 2) + 1
    ensures Attains(Transpose(a[i - 2], a[i - 1]), a, b, i, j)
  {
    hide Dist;
    EndsInTwo(a, i, a[i - 2], a[i - 1]);
    EndsInTwo(b, j, a[i - 1], a[i - 2]);
  }

  lemma DiagonalAttains(a: Bytes, b: Bytes, i: nat, j: nat) returns (e: Edit)
    requires 0 < i <= |a| && 0 < j <= |b|
    requires Dist(a, b, i, j) == Dist(a, b, i - 1, j - 1) + if a[i - 1] == b[j - 1] then 0 else 1
    ensures Attains(e, a, b, i, j) && e.Reads() != []
  {
    hide Dist;
    EndsInOne(a, i, a[i - 1]);
    EndsInOne(b, j, b[j - 1]);
    e := if a[i - 1] == b[j - 1] then Keep(a[i - 1]) else Substitute(a[i - 1], b[j - 1]);
  }

  /** Some edit attains the distance. */
  lemma BestEdit(a: Bytes, b: Bytes, i: nat, j: nat) returns (e: Edit)
    requires i <= |a| && j <= |b| && i + j > 0
    ensures Attains(e, a, b, i, j) && |e.Reads()| + |e.Writes()| > 0
  {
    hide Dist, EndsAt;
    BestStep(a, b, i, j);
    if j > 0 && Dist(a, b, i, j) == Dist(a, b, i, j - 1) + 1 {
      e := Insert(b[j - 1]);
      InsertAttains(a, b, i, j);
    } else if i > 0 && Dist(a, b, i, j) == Dist(a, b, i - 1, j) + 1 {
      e := Delete(a[i - 1]);
      DeleteAttains(a, b, i, j);
    } else if Swapped(a, b, i, j) && Dist(a, b, i, j) == Dist(a, b, i - 2, j - 2) + 1 {
      e := Transpose(a[i - 2], a[i - 1]);
      TransposeAttains(a, b, i, j);
    } else {
      e := DiagonalAttains(a, b, i, j);
    }
  }

  lemma {:induction false} BestEdits(a: Bytes, b: Bytes, i: nat, j: nat) returns (edits: seq<Edit>)
    requires i <= |a| && j <= |b|
    ensures Rewrites(edits, a[..i], b[..j]) && TotalCost(edits) == Dist(a, b, i, j)
    decreases i + j
  {
    if i + j == 0 {
      edits := [];
    } else {
      hide Dist, Source, Target, TotalCost;
      var e := BestEdit(a, b, i, j);
      edits := BestEdits(a, b, i - |e.Reads()|, j - |e.Writes()|);
      edits := Append(edits, e, a, b, i, j);
    }
  }

  lemma Append(edits: seq<Edit>, e: Edit, a: Bytes, b: Bytes, i: nat, j: nat) returns (more: seq<Edit>)
    requires i <= |a| && j <= |b| && EndsAt(e, a, b, i, j)
    requires Rewrites(edits, a[..i - |e.Reads()|], b[..j - |e.Writes()|])
    ensures Rewrites(more, a[..i], b[..j]) && TotalCost(more) == TotalCost(edits) + e.Cost()
  {
    more := edits + [e];
    assert more[..|edits|] == edits;
    assert a[..i] == a[..i - |e.Reads()|] + e.Reads();
    assert b[..j] == b[..j - |e.Writes()|] + e.Writes();
  }

  /** The recurrence computes the optimal alignment, and nothing else is optimal. */
  lemma DistanceIsOptimal(a: Bytes, b: Bytes, d: nat)
    ensures IsLeastCost(a, b, d) <==> d == Distance(a, b)
  {
    assert a[..|a|] == a && b[..|b|] == b;
    var best := BestEdits(a, b, |a|, |b|);
    forall edits | Rewrites(edits, a, b)
      ensures Distance(a, b) <= TotalCost(edits)
    {
      NoEditsBeatDist(a, b, |a|, |b|, edits);
    }
  }

  function Kept(s: Bytes): seq<Edit> {
    seq(|s|, i requires 0 <= i < |s| => Keep(s[i]))
  }

  lemma {:induction false} KeptMeans(s: Bytes)
    ensures Source(Kept(s)) == Target(Kept(s)) == s && TotalCost(Kept(s)) == 0
  {
    if s != [] {
      var init := s[..|s| - 1];
      KeptMeans(init);
      assert Kept(s)[..|s| - 1] == Kept(init);
    }
  }

  lemma EditsSnoc(x: seq<Edit>, e: Edit)
    ensures Source(x + [e]) == Source(x) + e.Reads() && Target(x + [e]) == Target(x) + e.Writes()
    ensures TotalCost(x + [e]) == TotalCost(x) + e.Cost()
  {
    assert (x + [e])[..|x|] == x;
  }

  lemma {:induction false} EditsConcat(x: seq<Edit>, y: seq<Edit>)
    ensures Source(x + y) == Source(x) + Source(y) && Target(x + y) == Target(x) + Target(y)
    ensures TotalCost(x + y) == TotalCost(x) + TotalCost(y)
  {
    if y == [] {
      assert x + y == x;
    } else {
      hide Source, Target, TotalCost;
      var init, e := y[..|y| - 1], y[|y| - 1];
      assert y == init + [e] && x + y == (x + init) + [e];
      EditsConcat(x, init);
      EditsSnoc(x + init, e);
      EditsSnoc(init, e);
      Regroup(Source(x), Source(init), e.Reads());
      Regroup(Target(x), Target(init), e.Writes());
    }
  }

  lemma Regroup(a: Bytes, b: Bytes, c: Bytes)
    ensures (a + b) + c == a + (b + c)
  {
  }

  lemma OneEditBetween(before: Bytes, e: Edit, after: Bytes) returns (edits: seq<Edit>)
    ensures Rewrites(edits, before + e.Reads() + after, before + e.Writes() + after) && TotalCost(edits) == e.Cost()
  {
    hide Source, Target, TotalCost;
    KeptMeans(before);
    KeptMeans(after);
    EditsSnoc(Kept(before), e);
    EditsConcat(Kept(before) + [e], Kept(after));
    edits := Kept(before) + [e] + Kept(after);
  }

  /** One edit anywhere in a string makes a distance of one, if it changes the string. */
  lemma OneEditAway(before: Bytes, e: Edit, after: Bytes)
    requires !e.Keep? && before + e.Reads() + after != before + e.Writes() + after
    ensures Distance(before + e.Reads() + after, before + e.Writes() + after) == 1
  {
    var a, b := before + e.Reads() + after, before + e.Writes() + after;
    var edits := OneEditBetween(before, e, after);
    AtMost(a, b, edits);
    NotZero(a, b);
  }

  lemma AtMost(a: Bytes, b: Bytes, edits: seq<Edit>)
    requires Rewrites(edits, a, b)
    ensures Distance(a, b) <= TotalCost(edits)
  {
    hide Distance;
    DistanceIsOptimal(a, b, Distance(a, b));
  }

  lemma NotZero(a: Bytes, b: Bytes)
    ensures Distance(a, b) == 0 <==> a == b
  {
    hide Dist;
    ZeroMeansEqual(a, b, |a|, |b|);
    assert a[..|a|] == a && b[..|b|] == b;
  }

  /** The four edits: one letter typed too many, left out or mistaken, and two letters
      typed in the wrong order. */
  lemma OneTypoAway(before: Bytes, c: byte, d: byte, after: Bytes)
    requires c != d
    ensures Distance(before + [c] + after, before + after) == 1 && Distance(before + after, before + [c] + after) == 1
    ensures Distance(before + [c] + after, before + [d] + after) == 1
    ensures Distance(before + [c, d] + after, before + [d, c] + after) == 1
  {
    hide Distance;
    assert before + [] + after == before + after;
    assert (before + [c] + after)[|before|] != (before + [d] + after)[|before|];
    assert (before + [c, d] + after)[|before|] != (before + [d, c] + after)[|before|];
    assert |before + [c] + after| != |before + after|;
    OneEditAway(before, Delete(c), after);
    OneEditAway(before, Insert(c), after);
    OneEditAway(before, Substitute(c, d), after);
    OneEditAway(before, Transpose(c, d), after);
  }

  // ---------- What the shortcuts rest on ----------

  /** The length filter loses nothing. */
  lemma {:induction false} LengthsBoundDist(a: Bytes, b: Bytes, i: nat, j: nat)
    requires i <= |a| && j <= |b|
    ensures i - j <= Dist(a, b, i, j) && j - i <= Dist(a, b, i, j)
    decreases i + j
  {
    hide Dist;
    Recurrence(a, b, i, j);
    if i > 0 && j > 0 {
      LengthsBoundDist(a, b, i, j - 1);
      LengthsBoundDist(a, b, i - 1, j);
      LengthsBoundDist(a, b, i - 1, j - 1);
      if Swapped(a, b, i, j) {
        LengthsBoundDist(a, b, i - 2, j - 2);
      }
    }
  }

  lemma {:induction false} DistSymmetric(a: Bytes, b: Bytes, i: nat, j: nat)
    requires i <= |a| && j <= |b|
    ensures Dist(a, b, i, j) == Dist(b, a, j, i)
    decreases i + j
  {
    hide Dist;
    Recurrence(a, b, i, j);
    Recurrence(b, a, j, i);
    if i > 0 && j > 0 {
      DistSymmetric(a, b, i, j - 1);
      DistSymmetric(a, b, i - 1, j);
      DistSymmetric(a, b, i - 1, j - 1);
      if Swapped(a, b, i, j) {
        DistSymmetric(a, b, i - 2, j - 2);
      }
    }
  }

  lemma {:induction false} ZeroMeansEqual(a: Bytes, b: Bytes, i: nat, j: nat)
    requires i <= |a| && j <= |b|
    ensures Dist(a, b, i, j) == 0 <==> a[..i] == b[..j]
    decreases i + j
  {
    hide Dist;
    Recurrence(a, b, i, j);
    if i > 0 && j > 0 {
      ZeroMeansEqual(a, b, i - 1, j - 1);
      assert a[..i] == a[..i - 1] + [a[i - 1]] && b[..j] == b[..j - 1] + [b[j - 1]];
    }
  }

  /** Every entry of row `j` is above `max`. */
  ghost predicate RowAbove(a: Bytes, b: Bytes, j: nat, max: nat)
    requires j <= |b|
  {
    forall i | 0 <= i <= |a| :: Dist(a, b, i, j) > max
  }

  /** So is every entry of the next row, although a transposition reads the row
      before: what it reads there is at most one below this row. */
  lemma {:induction false} NextRowAbove(a: Bytes, b: Bytes, i: nat, j: nat, max: nat)
    requires i <= |a| && j < |b| && RowAbove(a, b, j, max)
    ensures Dist(a, b, i, j + 1) > max
  {
    hide Dist;
    Recurrence(a, b, i, j);
    Recurrence(a, b, i, j + 1);
    if i > 0 {
      NextRowAbove(a, b, i - 1, j, max);
      assert Dist(a, b, i, j) > max && Dist(a, b, i - 1, j) > max;
      if Swapped(a, b, i, j + 1) {
        StepBounds(a, b, i - 2, j);
        assert Dist(a, b, i - 2, j) > max;
      }
    }
  }

  /** The early exit is sound: once a row is above `max`, so is the distance. */
  lemma {:induction false} EarlyExit(a: Bytes, b: Bytes, j: nat, max: nat)
    requires j <= |b| && RowAbove(a, b, j, max)
    ensures Distance(a, b) > max
    decreases |b| - j
  {
    hide Dist;
    if j < |b| {
      var next := j + 1;
      forall i | 0 <= i <= |a|
        ensures Dist(a, b, i, next) > max
      {
        NextRowAbove(a, b, i, j, max);
      }
      EarlyExit(a, b, next, max);
    }
  }

  // ---------- The three-row algorithm ----------

  /** The first `n` entries of `row` are those of row `j`. */
  ghost predicate HoldsRow(row: array<nat>, n: nat, a: Bytes, b: Bytes, j: nat)
    requires n <= |a| + 1 <= row.Length && j <= |b|
    reads row
  {
    forall i | 0 <= i < n :: row[i] == Dist(a, b, i, j)
  }

  lemma FirstRow(a: Bytes, b: Bytes)
    ensures forall i | 0 <= i <= |a| :: Dist(a, b, i, 0) == i
  {
    forall i | 0 <= i <= |a|
      ensures Dist(a, b, i, 0) == i
    {
      Recurrence(a, b, i, 0);
    }
  }

  lemma CellMeans(a: Bytes, b: Bytes, i: nat, j: nat, v: nat, twoBack: nat)
    requires 0 < i <= |a| && 0 < j <= |b|
    requires Swapped(a, b, i, j) ==> twoBack == Dist(a, b, i - 2, j - 2)
    requires var plain := Min(Min(Dist(a, b, i, j - 1) + 1, Dist(a, b, i - 1, j) + 1),
                              Dist(a, b, i - 1, j - 1) + if a[i - 1] == b[j - 1] then 0 else 1);
             v == if Swapped(a, b, i, j) then Min(plain, twoBack + 1) else plain
    ensures v == Dist(a, b, i, j)
  {
    hide Dist;
    Recurrence(a, b, i, j);
  }

  /** The inner loop: row `j` from the two rows before it, and a lower bound of its entries. */
  method FillRow(pp: array<nat>, p: array<nat>, c: array<nat>, a: Bytes, b: Bytes, j: nat) returns (rowMin: nat)
    requires pp.Length == p.Length == c.Length == |a| + 1 && pp != p && p != c && c != pp
    requires 1 <= j <= |b| && HoldsRow(p, |a| + 1, a, b, j - 1)
    requires j >= 2 ==> HoldsRow(pp, |a| + 1, a, b, j - 2)
    modifies c
    ensures HoldsRow(c, |a| + 1, a, b, j) && forall i | 0 <= i <= |a| :: rowMin <= c[i]
  {
    hide Dist;
    Recurrence(a, b, 0, j);
    c[0] := j;
    rowMin := c[0];
    for i := 1 to |a| + 1
      invariant HoldsRow(c, i, a, b, j)
      invariant forall k | 0 <= k < i :: rowMin <= c[k]
    {
      var cost := if a[i - 1] == b[j - 1] then 0 else 1;
      var v := Min(Min(p[i] + 1, c[i - 1] + 1), p[i - 1] + cost);
      if i >= 2 && j >= 2 && a[i - 1] == b[j - 2] && a[i - 2] == b[j - 1] {
        v := Min(v, pp[i - 2] + 1);
      }
      assert p[i] == Dist(a, b, i, j - 1) && p[i - 1] == Dist(a, b, i - 1, j - 1) && c[i - 1] == Dist(a, b, i - 1, j);
      CellMeans(a, b, i, j, v, if i >= 2 then pp[i - 2] else 0);
      c[i] := v;
      if c[i] < rowMin {
        rowMin := c[i];
      }
    }
  }

  method EditDistanceBounded(a: Bytes, b: Bytes, max: nat) returns (r: Option<nat>)
    ensures r == if Distance(a, b) <= max then Some(Distance(a, b)) else None
    decreases |a| > |b|
  {
    hide Dist;
    var m, n := |a|, |b|;
    if m > n {
      DistSymmetric(a, b, m, n);
      r := EditDistanceBounded(b, a, max);
      return;
    }
    LengthsBoundDist(a, b, m, n);
    if n - m > max {
      return None;
    }
    var pp, p, c := new nat[m + 1], new nat[m + 1](i => i), new nat[m + 1];
    FirstRow(a, b);
    for j := 1 to n + 1
      invariant pp.Length == p.Length == c.Length == m + 1 && pp != p && p != c && c != pp
      invariant fresh(pp) && fresh(p) && fresh(c)
      invariant HoldsRow(p, m + 1, a, b, j - 1)
      invariant j >= 2 ==> HoldsRow(pp, m + 1, a, b, j - 2)
    {
      var rowMin := FillRow(pp, p, c, a, b, j);
      if rowMin > max {
        EarlyExit(a, b, j, max);
        return None;
      }
      pp, p := p, pp;
      p, c := c, p;
    }
    var d := p[m];
    return if d <= max then Some(d) else None;
  }

  // ---------- The closest popular name ----------

  const DEFAULT_THRESHOLD: nat := 1

  /** Lower-cases ASCII letters. */
  function Lower(s: Bytes): (r: Bytes)
    ensures |r| == |s|
  {
    seq(|s|, i requires 0 <= i < |s| => if 65 <= s[i] <= 90 then s[i] + 32 else s[i])
  }

  /** The same ASCII letter in either case, or the same byte. */
  predicate SameLetter(x: byte, y: byte) {
    x == y || (65 <= x <= 90 && y == x + 32) || (65 <= y <= 90 && x == y + 32)
  }

  /** Two names are the same in lower case exactly when they agree up to case. */
  lemma LowerMeans(s: Bytes, t: Bytes)
    ensures Lower(s) == Lower(t) <==> |s| == |t| && forall i | 0 <= i < |s| :: SameLetter(s[i], t[i])
    ensures (forall i | 0 <= i < |s| :: !(65 <= s[i] <= 90)) ==> Lower(s) == s
  {
    if Lower(s) == Lower(t) {
      forall i | 0 <= i < |s|
        ensures SameLetter(s[i], t[i])
      {
        assert Lower(s)[i] == Lower(t)[i];
      }
    }
  }

  function Near(name: Bytes, top: Bytes): nat {
    Distance(Lower(name), Lower(top))
  }

  predicate Lists(list: seq<Bytes>, name: Bytes) {
    exists k :: 0 <= k < |list| && Lower(list[k]) == Lower(name)
  }

  predicate HasNear(list: seq<Bytes>, name: Bytes, threshold: nat) {
    exists k :: 0 <= k < |list| && Near(name, list[k]) <= threshold
  }

  /** The first of the names closest to `name`. */
  ghost predicate IsClosest(list: seq<Bytes>, name: Bytes, k: nat) {
    && k < |list|
    && (forall j | 0 <= j < |list| :: Near(name, list[k]) <= Near(name, list[j]))
    && (forall j | 0 <= j < k :: Near(name, list[k]) < Near(name, list[j]))
  }

  datatype Outcome = Exact | Match(suggested: Bytes, distance: nat)

  /** The outcome a list gives: exact if it holds the name, otherwise the closest
      name if that is within the threshold. */
  ghost predicate IsOutcome(r: Option<Outcome>, list: seq<Bytes>, name: Bytes, threshold: nat) {
    if Lists(list, name) then r == Some(Exact)
    else if !HasNear(list, name, threshold) then r == None
    else exists k: nat :: IsClosest(list, name, k) && r == Some(Match(list[k], Near(name, list[k])))
  }

  lemma NearIsZero(name: Bytes, top: Bytes)
    ensures Near(name, top) == 0 <==> Lower(top) == Lower(name)
  {
    hide Dist;
    var a, b := Lower(name), Lower(top);
    ZeroMeansEqual(a, b, |a|, |b|);
    assert a[..|a|] == a && b[..|b|] == b;
  }

  /** What the scan knows after the first `n` names, none of them the name itself. */
  ghost predicate BestSoFar(best: Option<(nat, nat)>, list: seq<Bytes>, n: nat, name: Bytes, threshold: nat)
    requires n <= |list|
  {
    && !Lists(list[..n], name)
    && (best.None? <==> !HasNear(list[..n], name, threshold))
    && (best.Some? ==> IsClosest(list[..n], name, best.value.0) && best.value.1 == Near(name, list[best.value.0]))
  }

  lemma NextName(best: Option<(nat, nat)>, list: seq<Bytes>, n: nat, name: Bytes, threshold: nat)
    requires n < |list| && BestSoFar(best, list, n, name, threshold)
    ensures var d := Near(name, list[n]);
            var next := if d <= threshold && (best.None? || d < best.value.1) then Some((n, d)) else best;
            if d == 0 then Lists(list, name) else BestSoFar(next, list, n + 1, name, threshold)
  {
    hide Distance;
    var d := Near(name, list[n]);
    NearIsZero(name, list[n]);
    var more := list[..n + 1];
    assert more[n] == list[n] && forall k | 0 <= k < n :: more[k] == list[..n][k];
    if d <= threshold {
      assert HasNear(more, name, threshold);
    }
  }

  /** The length filter skips only names beyond the threshold. */
  lemma FilteredFar(name: Bytes, top: Bytes, threshold: nat)
    ensures |name| > |top| + threshold || |top| > |name| + threshold ==> Near(name, top) > threshold
    ensures Near(name, top) == Distance(Lower(name), Lower(top))
  {
    hide Dist;
    LengthsBoundDist(Lower(name), Lower(top), |name|, |top|);
  }

  /** The loop over the names; it meets the specification without the exact-match
      test that precedes it, which is only a shortcut. */
  method ClosestName(list: seq<Bytes>, name: Bytes, threshold: nat) returns (r: Option<Outcome>)
    ensures IsOutcome(r, list, name, threshold)
  {
    hide Distance;
    var best: Option<(nat, nat)> := None;
    for n := 0 to |list|
      invariant BestSoFar(best, list, n, name, threshold)
    {
      NextName(best, list, n, name, threshold);
      var a, b := Lower(name), Lower(list[n]);
      FilteredFar(name, list[n], threshold);
      if |a| > |b| + threshold || |b| > |a| + threshold {
        continue;
      }
      var d := EditDistanceBounded(a, b, threshold);
      if d == Some(0) {
        return Some(Exact);
      }
      if d.Some? && (best.None? || d.value < best.value.1) {
        best := Some((n, d.value));
      }
    }
    assert list[..|list|] == list;
    return if best.Some? then Some(Match(list[best.value.0], best.value.1)) else None;
  }

  method Holds(list: seq<Bytes>, name: Bytes) returns (r: bool)
    ensures r <==> Lists(list, name)
  {
    for n := 0 to |list|
      invariant forall k | 0 <= k < n :: Lower(list[k]) != Lower(name)
    {
      if Lower(list[n]) == Lower(name) {
        return true;
      }
    }
    return false;
  }

  method ScanList(list: seq<Bytes>, name: Bytes, threshold: nat) returns (r: Option<Outcome>)
    ensures IsOutcome(r, list, name, threshold)
  {
    var exact := Holds(list, name);
    if exact {
      return Some(Exact);
    }
    r := ClosestName(list, name, threshold);
  }

  /** A suggestion is made for a name that is near the list but not on it. */
  ghost predicate IsSuggestion(r: Option<Outcome>, list: seq<Bytes>, name: Bytes, threshold: nat) {
    if threshold == 0 || name == [] || Lists(list, name) then r == None else IsOutcome(r, list, name, threshold)
  }

  method Suggest(list: seq<Bytes>, name: Bytes, threshold: nat) returns (r: Option<Outcome>)
    ensures IsSuggestion(r, list, name, threshold)
  {
    if threshold == 0 || name == [] {
      return None;
    }
    var scan := ScanList(list, name, threshold);
    return if scan == Some(Exact) then None else scan;
  }

  lemma OneClosest(list: seq<Bytes>, name: Bytes, k: nat, k': nat)
    requires IsClosest(list, name, k) && IsClosest(list, name, k')
    ensures k == k'
  {
    hide Near;
    assert Near(name, list[k]) == Near(name, list[k']);
  }

  /** A suggestion, and whether there is one, is determined by the list, and is
      never the name itself. */
  lemma SuggestionMeans(r: Option<Outcome>, r': Option<Outcome>, list: seq<Bytes>, name: Bytes, threshold: nat)
    requires IsSuggestion(r, list, name, threshold)
    ensures IsSuggestion(r', list, name, threshold) <==> r' == r
    ensures r.Some? <==> threshold > 0 && name != [] && !Lists(list, name) && HasNear(list, name, threshold)
    ensures r.Some? ==> r.value.Match? && r.value.suggested in list && 0 < r.value.distance <= threshold
  {
    hide Distance;
    if threshold > 0 && name != [] && !Lists(list, name) && HasNear(list, name, threshold) {
      var k: nat :| IsClosest(list, name, k) && r == Some(Match(list[k], Near(name, list[k])));
      NearIsZero(name, list[k]);
      forall k': nat | IsClosest(list, name, k')
        ensures k' == k
      {
        OneClosest(list, name, k, k');
      }
    }
  }

  // ---------- Mirror and baseline ----------

  /** The mirrored list first; the baseline whenever that has nothing to say. */
  ghost predicate IsLayered(r: Option<Outcome>, mirror: seq<Bytes>, baseline: seq<Bytes>, name: Bytes, threshold: nat) {
    if Lists(mirror, name) || HasNear(mirror, name, threshold) then IsSuggestion(r, mirror, name, threshold)
    else IsSuggestion(r, baseline, name, threshold)
  }

  method SuggestMirrored(mirror: seq<Bytes>, baseline: seq<Bytes>, name: Bytes, threshold: nat)
    returns (r: Option<Outcome>)
    ensures threshold == 0 || name == [] ==> r == None
    ensures threshold > 0 && name != [] ==> IsLayered(r, mirror, baseline, name, threshold)
  {
    if threshold == 0 || name == [] {
      return None;
    }
    if mirror != [] {
      var fromMirror := ScanList(mirror, name, threshold);
      match fromMirror
      case Some(Exact) => return None;
      case Some(Match(_, _)) => return fromMirror;
      case None =>
    }
    r := Suggest(baseline, name, threshold);
  }

  /** The baseline is documented as used when the mirror has no entries. The code
      agrees exactly if the mirror is empty or decides, or the baseline is silent. */
  lemma DocumentedFallbackExactly(
      r: Option<Outcome>, mirror: seq<Bytes>, baseline: seq<Bytes>, name: Bytes, threshold: nat)
    requires threshold > 0 && name != [] && IsLayered(r, mirror, baseline, name, threshold)
    ensures IsSuggestion(r, if mirror == [] then baseline else mirror, name, threshold)
            <==> || mirror == [] || Lists(mirror, name) || HasNear(mirror, name, threshold)
                 || Lists(baseline, name) || !HasNear(baseline, name, threshold)
  {
    if !Lists(mirror, name) && !HasNear(mirror, name, threshold) {
      SuggestionMeans(r, r, baseline, name, threshold);
    }
  }

  /** Two adjacent letters swapped are one edit apart. */
  lemma SwapIsOneEdit(c: byte, d: byte)
    requires Lower([c, d]) == [c, d] && Lower([d, c]) == [d, c] && c != d
    ensures Near([c, d], [d, c]) == 1
  {
    hide Dist;
    StepBounds([c, d], [d, c], 2, 2);
    Recurrence([c, d], [d, c], 0, 0);
    NearIsZero([c, d], [d, c]);
    assert [c, d][0] == c && [d, c][0] == d;
  }

  /** A name near the baseline only is suggested from it under a mirror with entries. */
  lemma SilentMirrorFallsBack(r: Option<Outcome>, c: byte, d: byte, other: Bytes)
    requires Lower([c, d]) == [c, d] && Lower([d, c]) == [d, c] && c != d && |other| > 3
    requires IsLayered(r, [other], [[d, c]], [c, d], DEFAULT_THRESHOLD)
    ensures r == Some(Match([d, c], 1)) && !IsSuggestion(r, [other], [c, d], DEFAULT_THRESHOLD)
  {
    hide Distance;
    FilteredFar([c, d], other, DEFAULT_THRESHOLD);
    SwapIsOneEdit(c, d);
    assert [[d, c]][0] == [d, c] && [other][0] == other;
    assert HasNear([[d, c]], [c, d], DEFAULT_THRESHOLD);
    assert [c, d][0] != [d, c][0];
  }
}
