/** Truncation of a string to a byte budget without splitting a character. */
module HubIngest {
  import opened Basics

  predicate IsTail(b: byte) {
    0x80 <= b <= 0xBF
  }

  predicate Tails(s: Bytes, from: nat, n: nat) {
    n <= |s| && forall i | from <= i < n :: IsTail(s[i])
  }

  /** Length of the well-formed character `s` starts with, by the table of section
      4 of RFC 3629; 0 if it starts with none. */
  function CharLength(s: Bytes): nat {
    if s == [] then 0
    else if s[0] <= 0x7F then 1
    else if 0xC2 <= s[0] <= 0xDF && Tails(s, 1, 2) then 2
    else if 0xE0 <= s[0] <= 0xEF && Tails(s, 1, 3)
            && (s[0] == 0xE0 ==> s[1] >= 0xA0) && (s[0] == 0xED ==> s[1] <= 0x9F) then 3
    else if 0xF0 <= s[0] <= 0xF4 && Tails(s, 1, 4)
            && (s[0] == 0xF0 ==> s[1] >= 0x90) && (s[0] == 0xF4 ==> s[1] <= 0x8F) then 4
    else 0
  }

  /** A sequence of well-formed characters. */
  predicate IsUtf8(s: Bytes)
    decreases |s|
  {
    s == [] || (0 < CharLength(s) <= |s| && IsUtf8(s[CharLength(s)..]))
  }

  /** The test the string library makes: ends, and any byte that is not a tail. */
  predicate IsCharBoundary(s: Bytes, i: int) {
    i == 0 || i == |s| || (0 < i < |s| && !IsTail(s[i]))
  }

  lemma CharOfPrefix(s: Bytes, i: nat)
    requires 0 < CharLength(s) <= |s| && i <= |s|
    ensures CharLength(s[..i]) == if CharLength(s) <= i then CharLength(s) else 0
    ensures forall j | 0 < j < CharLength(s) :: IsTail(s[j])
    ensures !IsTail(s[0])
  {
  }

  /** In valid UTF-8 the boundary test finds exactly the cuts that leave a valid prefix. */
  lemma {:induction false} BoundaryIffValidPrefix(s: Bytes, i: nat)
    requires IsUtf8(s) && i <= |s|
    ensures IsUtf8(s[..i]) <==> IsCharBoundary(s, i)
    decreases |s|
  {
    if i > 0 {
      var n := CharLength(s);
      CharOfPrefix(s, i);
      if i >= n {
        var rest := s[n..];
        BoundaryIffValidPrefix(rest, i - n);
        assert s[..i][n..] == rest[..i - n];
        if rest != [] {
          CharOfPrefix(rest, 0);
        }
      }
    }
  }

  /** A boundary is never more than three bytes away. */
  lemma {:induction false} BoundaryIsNear(s: Bytes, i: nat)
    requires IsUtf8(s) && i <= |s|
    ensures exists j :: 0 <= j && i - 3 <= j <= i && IsCharBoundary(s, j)
    decreases |s|
  {
    if i == 0 {
      assert IsCharBoundary(s, 0);
    } else {
      var n := CharLength(s);
      CharOfPrefix(s, i);
      if i < n {
        assert IsCharBoundary(s, 0);
      } else {
        var rest := s[n..];
        BoundaryIsNear(rest, i - n);
        var j :| 0 <= j && i - n - 3 <= j <= i - n && IsCharBoundary(rest, j);
        if rest != [] {
          CharOfPrefix(rest, 0);
        }
        assert IsCharBoundary(s, j + n);
      }
    }
  }

  /** The longest valid UTF-8 prefix of at most `maxBytes` bytes; when something is
      cut, at most three bytes of the budget stay unused. */
  method TruncateOnCharBoundary(s: Bytes, maxBytes: nat) returns (t: Bytes)
    requires IsUtf8(s)
    ensures t <= s && |t| <= maxBytes && IsUtf8(t)
    ensures forall p | p <= s && |p| <= maxBytes && IsUtf8(p) :: |p| <= |t|
    ensures |s| > maxBytes ==> maxBytes - |t| <= 3
  {
    if |s| <= maxBytes {
      return s;
    }
    var end: nat := maxBytes;
    while end > 0 && !IsCharBoundary(s, end)
      invariant end <= maxBytes
      invariant forall i | end < i <= maxBytes :: !IsCharBoundary(s, i)
    {
      end := end - 1;
    }
    BoundaryIffValidPrefix(s, end);
    BoundaryIsNear(s, maxBytes);
    forall p | p <= s && |p| <= maxBytes && IsUtf8(p)
      ensures |p| <= end
    {
      BoundaryIffValidPrefix(s, |p|);
      assert p == s[..|p|];
    }
    return s[..end];
  }
}
