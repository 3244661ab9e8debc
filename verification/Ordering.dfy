/** The order std::map and std::set keep their string keys in, and the enumeration it fixes. */
module Ordering {

  /** std::string's operator<: lexicographic, a proper prefix first. */
  predicate Less(a: string, b: string) {
    b != "" && (a == "" || a[0] < b[0] || (a[0] == b[0] && Less(a[1..], b[1..])))
  }

  /** What is equal up to position n is ordered by the characters there; a shorter text comes first. */
  predicate DiffersUpwards(a: string, b: string, n: nat) {
    && n <= |a| && n < |b| && a[..n] == b[..n]
    && (n < |a| ==> a[n] < b[n])
  }

  /** The first position that differs decides. */
  lemma {:induction false} LessIff(a: string, b: string)
    ensures Less(a, b) <==> exists n :: DiffersUpwards(a, b, n)
    decreases |a|
  {
    if a == "" || b == "" || a[0] != b[0] {
      if Less(a, b) {
        assert DiffersUpwards(a, b, 0);
      }
      if n: nat :| DiffersUpwards(a, b, n) {
        assert n > 0 ==> a[..n][0] == b[..n][0];
      }
    } else {
      LessIff(a[1..], b[1..]);
      if n: nat :| DiffersUpwards(a[1..], b[1..], n) {
        OneLower(a, b, n);
      }
      if n: nat :| DiffersUpwards(a, b, n) {
        OneLower(a, b, n - 1);
      }
    }
  }

  lemma OneLower(a: string, b: string, n: int)
    requires a != "" && b != "" && a[0] == b[0] && n >= -1
    ensures n >= 0 ==> (DiffersUpwards(a, b, n + 1) <==> DiffersUpwards(a[1..], b[1..], n))
    ensures !DiffersUpwards(a, b, 0)
  {
    if 0 <= n < |a| && n < |b| {
      assert a[..n + 1] == [a[0]] + a[1..][..n] && b[..n + 1] == [b[0]] + b[1..][..n];
      assert a[1..][..n] == a[..n + 1][1..] && b[1..][..n] == b[..n + 1][1..];
    }
  }

  lemma {:induction false} LessTrichotomy(a: string, b: string)
    ensures a == b <==> !Less(a, b) && !Less(b, a)
    ensures !(Less(a, b) && Less(b, a))
  {
    if a != "" && b != "" && a[0] == b[0] {
      LessTrichotomy(a[1..], b[1..]);
      assert a == [a[0]] + a[1..] && b == [b[0]] + b[1..];
    }
  }

  lemma {:induction false} LessTransitive(a: string, b: string, c: string)
    requires Less(a, b) && Less(b, c)
    ensures Less(a, c)
  {
    if a != "" && a[0] == b[0] == c[0] {
      LessTransitive(a[1..], b[1..], c[1..]);
    }
  }

  predicate IsLeast(k: string, s: set<string>) {
    k in s && forall x | x in s :: x == k || Less(k, x)
  }

  lemma {:induction false} LeastExists(s: set<string>)
    requires s != {}
    ensures exists k :: IsLeast(k, s)
  {
    var x :| x in s;
    if s == {x} {
      assert IsLeast(x, s);
    } else {
      LeastExists(s - {x});
      var k :| IsLeast(k, s - {x});
      LessTrichotomy(x, k);
      if Less(k, x) {
        assert IsLeast(k, s);
      } else {
        forall y | y in s
          ensures y == x || Less(x, y)
        {
          if y != x && y != k {
            LessTransitive(x, k, y);
          }
        }
        assert IsLeast(x, s);
      }
    }
  }

  lemma LeastUnique(s: set<string>, k: string, k': string)
    requires IsLeast(k, s) && IsLeast(k', s)
    ensures k == k'
  {
    LessTrichotomy(k, k');
  }

  /** The keys in iteration order: each key of the set exactly once, least first. */
  ghost function SortedKeys(s: set<string>): (order: seq<string>)
    ensures forall k :: k in order <==> k in s
    ensures |order| == |s|
  {
    if s == {} then []
    else
      LeastExists(s);
      var k :| IsLeast(k, s);
      [k] + SortedKeys(s - {k})
  }

  lemma {:induction false} SortedKeysIncrease(s: set<string>, i: nat, j: nat)
    requires i < j < |s|
    ensures Less(SortedKeys(s)[i], SortedKeys(s)[j])
  {
    LeastExists(s);
    var k :| IsLeast(k, s);
    var all, rest := SortedKeys(s), SortedKeys(s - {k});
    assert all == [k] + rest by {
      SortedKeysStep(s, k);
    }
    if i > 0 {
      SortedKeysIncrease(s - {k}, i - 1, j - 1);
    } else {
      assert rest[j - 1] in s - {k};
    }
  }

  /** Removing the least key removes the head of the enumeration. */
  lemma SortedKeysStep(s: set<string>, k: string)
    requires IsLeast(k, s)
    ensures SortedKeys(s) == [k] + SortedKeys(s - {k})
  {
    LeastExists(s);
    var least :| IsLeast(least, s) && SortedKeys(s) == [least] + SortedKeys(s - {least});
    LeastUnique(s, k, least);
  }
}
