/** The lexicographic order on strings, and sorting by it. */
module Order {
  /** `a <= b`; on valid UTF-8 this is also the order of the bytes. */
  predicate Below(a: string, b: string) {
    a == "" || (b != "" && (a[0] < b[0] || (a[0] == b[0] && Below(a[1..], b[1..]))))
  }

  lemma {:induction false} BelowTotal(a: string, b: string)
    ensures Below(a, b) || Below(b, a)
    ensures Below(a, b) && Below(b, a) ==> a == b
  {
    if a != "" && b != "" && a[0] == b[0] {
      BelowTotal(a[1..], b[1..]);
      assert a == [a[0]] + a[1..] && b == [b[0]] + b[1..];
    }
  }

  lemma {:induction false} BelowTransitive(a: string, b: string, c: string)
    requires Below(a, b) && Below(b, c)
    ensures Below(a, c)
  {
    if a != "" && a[0] == b[0] == c[0] {
      BelowTransitive(a[1..], b[1..], c[1..]);
    }
  }

  /** A prefix comes first; otherwise the first character that differs decides. */
  lemma {:induction false} BelowMeans(a: string, b: string)
    ensures Below(a, b) <==>
              || a <= b
              || exists k :: 0 <= k < |a| && k < |b| && a[..k] == b[..k] && a[k] < b[k]
  {
    if a != "" && b != "" && a[0] == b[0] {
      var a', b' := a[1..], b[1..];
      BelowMeans(a', b');
      assert a == [a[0]] + a' && b == [b[0]] + b';
      forall k | 0 < k <= |a| && k <= |b|
        ensures a[..k] == b[..k] <==> a'[..k - 1] == b'[..k - 1]
      {
        assert a[..k] == [a[0]] + a'[..k - 1] && b[..k] == [b[0]] + b'[..k - 1];
      }
      if k :| 0 <= k < |a'| && k < |b'| && a'[..k] == b'[..k] && a'[k] < b'[k] {
        assert a[..k + 1] == b[..k + 1] && a[k + 1] < b[k + 1];
      }
      if k :| 0 <= k < |a| && k < |b| && a[..k] == b[..k] && a[k] < b[k] {
        assert k > 0 && a'[..k - 1] == b'[..k - 1] && a'[k - 1] < b'[k - 1];
      }
    } else if a != "" && b != "" && a[0] < b[0] {
      assert a[..0] == b[..0];
    } else if a != "" && b != "" {
      assert forall k | 0 < k <= |a| && k <= |b| :: a[..k][0] != b[..k][0];
    }
  }

  ghost predicate Sorted(s: seq<string>) {
    forall i, j | 0 <= i < j < |s| :: Below(s[i], s[j])
  }

  /** Insertion sort, for the library's sort. */
  method Sort(s: seq<string>) returns (sorted: seq<string>)
    ensures Sorted(sorted) && multiset(sorted) == multiset(s)
  {
    sorted := [];
    for i := 0 to |s|
      invariant Sorted(sorted) && multiset(sorted) == multiset(s[..i])
    {
      sorted := Insert(sorted, s[i]);
      assert s[..i + 1] == s[..i] + [s[i]];
    }
    assert s[..|s|] == s;
  }

  method Insert(sorted: seq<string>, x: string) returns (r: seq<string>)
    requires Sorted(sorted)
    ensures Sorted(r) && multiset(r) == multiset(sorted) + multiset{x}
  {
    var i := |sorted|;
    while i > 0 && !Below(sorted[i - 1], x)
      invariant 0 <= i <= |sorted|
      invariant forall j | i <= j < |sorted| :: !Below(sorted[j], x)
    {
      i := i - 1;
    }
    r := sorted[..i] + [x] + sorted[i..];
    assert sorted == sorted[..i] + sorted[i..];
    forall j | 0 <= j < i ensures Below(sorted[j], x) {
      if j < i - 1 {
        BelowTransitive(sorted[j], sorted[i - 1], x);
      }
    }
    forall j | i <= j < |sorted| ensures Below(x, sorted[j]) {
      BelowTotal(sorted[j], x);
    }
  }
}
