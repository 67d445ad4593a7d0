/** The order `Array.prototype.sort()` uses when given no comparator: strings
    compared code unit by code unit, a proper prefix sorting first. Keys are
    ASCII here, so a `char` stands for one UTF-16 code unit. */
module StringOrder {

  /** `a` sorts at or before `b`. */
  predicate LexLe(a: string, b: string)
  {
    |a| == 0 || (|b| > 0 && (a[0] < b[0] || (a[0] == b[0] && LexLe(a[1..], b[1..]))))
  }

  predicate LexLess(a: string, b: string) {
    LexLe(a, b) && a != b
  }

  /** Reference definition: `a` is a prefix of `b`, or the first position
      where they differ holds a smaller unit in `a`. */
  predicate FirstDifferenceLe(a: string, b: string) {
    (|a| <= |b| && a == b[..|a|])
    || exists k :: 0 <= k < |a| && k < |b| && a[..k] == b[..k] && a[k] < b[k]
  }

  lemma {:induction false} LexLeIsFirstDifference(a: string, b: string)
    ensures LexLe(a, b) <==> FirstDifferenceLe(a, b)
  {
    if |a| == 0 || |b| == 0 {
    } else if a[0] < b[0] {
      assert a[..0] == b[..0];
    } else if a[0] > b[0] {
      assert !(|a| <= |b| && a == b[..|a|]);
      assert forall k :: 0 <= k < |a| && k < |b| && a[..k] == b[..k] ==> k == 0;
    } else {
      LexLeIsFirstDifference(a[1..], b[1..]);
      if FirstDifferenceLe(a[1..], b[1..]) {
        if |a[1..]| <= |b[1..]| && a[1..] == b[1..][..|a[1..]|] {
          assert a == [a[0]] + a[1..];
          assert b[..|a|] == [b[0]] + b[1..][..|a[1..]|];
        } else {
          var k :| 0 <= k < |a[1..]| && k < |b[1..]| && a[1..][..k] == b[1..][..k] && a[1..][k] < b[1..][k];
          assert a[..k + 1] == [a[0]] + a[1..][..k];
          assert b[..k + 1] == [b[0]] + b[1..][..k];
        }
      }
      if FirstDifferenceLe(a, b) {
        if |a| <= |b| && a == b[..|a|] {
          assert forall i :: 0 <= i < |a| - 1 ==> a[1..][i] == a[i + 1] == b[i + 1] == b[1..][..|a[1..]|][i];
          assert a[1..] == b[1..][..|a[1..]|];
        } else {
          var k :| 0 <= k < |a| && k < |b| && a[..k] == b[..k] && a[k] < b[k];
          assert k > 0;
          assert a[1..][..k - 1] == a[..k][1..];
          assert b[1..][..k - 1] == b[..k][1..];
        }
      }
    }
  }

  lemma {:induction false} LexLeReflexive(a: string)
    ensures LexLe(a, a)
  {
    if |a| > 0 {
      LexLeReflexive(a[1..]);
    }
  }

  lemma {:induction false} LexLeAntisymmetric(a: string, b: string)
    requires LexLe(a, b) && LexLe(b, a)
    ensures a == b
  {
    if |a| > 0 && |b| > 0 {
      LexLeAntisymmetric(a[1..], b[1..]);
      assert a == [a[0]] + a[1..];
      assert b == [b[0]] + b[1..];
    }
  }

  /** A strictly smaller string does not also sort at or after the other. */
  lemma {:induction false} LexLessAsymmetric(a: string, b: string)
    requires LexLess(a, b)
    ensures !LexLe(b, a)
  {
    if |a| > 0 && |b| > 0 && a[0] == b[0] {
      assert a == [a[0]] + a[1..];
      assert b == [b[0]] + b[1..];
      LexLessAsymmetric(a[1..], b[1..]);
    }
  }

  lemma {:induction false} LexLeTransitive(a: string, b: string, c: string)
    requires LexLe(a, b) && LexLe(b, c)
    ensures LexLe(a, c)
  {
    if |a| > 0 && a[0] == b[0] && b[0] == c[0] {
      LexLeTransitive(a[1..], b[1..], c[1..]);
    }
  }

  lemma {:induction false} LexLeTotal(a: string, b: string)
    ensures LexLe(a, b) || LexLe(b, a)
  {
    if |a| > 0 && |b| > 0 && a[0] == b[0] {
      LexLeTotal(a[1..], b[1..]);
    }
  }

  /** The default sort orders "2024-10" before "2024-2": the third character
      after the year decides, and '1' < '2'. */
  lemma OctoberKeySortsBeforeFebruary()
    ensures LexLess("2024-10", "2024-2")
    ensures LexLess("2024-11", "2024-9")
    ensures LexLess("2024-12", "2025-1")
    ensures LexLess("2024-10", "2024-3")
  {
    assert "2024-10"[1..] == "024-10";
    assert "2024-2"[1..] == "024-2";
    assert "2024-11"[1..] == "024-11";
    assert "2024-9"[1..] == "024-9";
    assert "2024-3"[1..] == "024-3";
    assert "024-3"[1..] == "24-3";
    assert "24-3"[1..] == "4-3";
    assert "4-3"[1..] == "-3";
    assert "-3"[1..] == "3";
    assert "2024-12"[1..] == "024-12";
    assert "2025-1"[1..] == "025-1";
    assert "024-10"[1..] == "24-10";
    assert "024-2"[1..] == "24-2";
    assert "024-11"[1..] == "24-11";
    assert "024-9"[1..] == "24-9";
    assert "024-12"[1..] == "24-12";
    assert "025-1"[1..] == "25-1";
    assert "24-10"[1..] == "4-10";
    assert "24-2"[1..] == "4-2";
    assert "24-11"[1..] == "4-11";
    assert "24-9"[1..] == "4-9";
    assert "4-10"[1..] == "-10";
    assert "4-2"[1..] == "-2";
    assert "4-11"[1..] == "-11";
    assert "4-9"[1..] == "-9";
    assert "-10"[1..] == "10";
    assert "-2"[1..] == "2";
    assert "-11"[1..] == "11";
    assert "-9"[1..] == "9";
  }

  predicate SortedStrings(s: seq<string>) {
    forall i, j :: 0 <= i < j < |s| ==> LexLe(s[i], s[j])
  }

  predicate StrictlySortedStrings(s: seq<string>) {
    forall i, j :: 0 <= i < j < |s| ==> LexLess(s[i], s[j])
  }

  predicate Distinct<T(==)>(s: seq<T>) {
    forall i, j :: 0 <= i < j < |s| ==> s[i] != s[j]
  }

  /** Places `k` before the first element it sorts at or before. */
  function InsertString(k: string, s: seq<string>): (r: seq<string>)
    requires SortedStrings(s)
    ensures multiset(r) == multiset(s) + multiset{k}
    ensures SortedStrings(r)
  {
    if |s| == 0 then [k]
    else if LexLe(k, s[0]) then
      LexLeTransitiveFrom(k, s);
      [k] + s
    else
      LexLeTotal(k, s[0]);
      var t := InsertString(k, s[1..]);
      assert multiset(s) == multiset{s[0]} + multiset(s[1..]) by { assert s == [s[0]] + s[1..]; }
      HeadBelowRest(s);
      SortedCons(s[0], t);
      [s[0]] + t
  }

  lemma HeadBelowRest(s: seq<string>)
    requires SortedStrings(s) && |s| > 0
    ensures forall x :: x in multiset(s[1..]) ==> LexLe(s[0], x)
  {
    forall x | x in multiset(s[1..]) ensures LexLe(s[0], x) {
      var m :| 0 <= m < |s[1..]| && s[1..][m] == x;
      assert s[m + 1] == x;
    }
  }

  lemma SortedCons(x: string, t: seq<string>)
    requires SortedStrings(t)
    requires forall y :: y in multiset(t) ==> LexLe(x, y)
    ensures SortedStrings([x] + t)
  {
    forall i, j | 0 <= i < j < |[x] + t| ensures LexLe(([x] + t)[i], ([x] + t)[j]) {
      if i == 0 {
        assert ([x] + t)[j] == t[j - 1];
        assert t[j - 1] in multiset(t);
      } else {
        assert ([x] + t)[i] == t[i - 1] && ([x] + t)[j] == t[j - 1];
      }
    }
  }

  lemma LexLeTransitiveFrom(k: string, s: seq<string>)
    requires SortedStrings(s) && |s| > 0 && LexLe(k, s[0])
    ensures forall j :: 0 <= j < |s| ==> LexLe(k, s[j])
  {
    forall j | 0 <= j < |s| ensures LexLe(k, s[j]) {
      if j > 0 {
        LexLeTransitive(k, s[0], s[j]);
      }
    }
  }

  /** `Object.keys(groups).sort()`: insertion sort under the default order. */
  function SortStrings(s: seq<string>): (r: seq<string>)
    ensures multiset(r) == multiset(s)
    ensures SortedStrings(r)
  {
    if |s| == 0 then []
    else
      assert s == [s[0]] + s[1..];
      InsertString(s[0], SortStrings(s[1..]))
  }

  lemma {:induction false} DistinctCountsOnce<T>(s: seq<T>, x: T)
    requires Distinct(s)
    ensures multiset(s)[x] <= 1
  {
    if |s| > 0 {
      assert s == [s[0]] + s[1..];
      DistinctCountsOnce(s[1..], x);
      assert s[0] !in s[1..];
    }
  }

  lemma SameElementsDistinct<T>(r: seq<T>, s: seq<T>)
    requires multiset(r) == multiset(s) && Distinct(s)
    ensures Distinct(r)
  {
    forall i, j | 0 <= i < j < |r| ensures r[i] != r[j] {
      if r[i] == r[j] {
        assert r == r[..j] + r[j..];
        assert r[i] in r[..j];
        assert r[j] in r[j..];
        assert multiset(r)[r[i]] == multiset(r[..j])[r[i]] + multiset(r[j..])[r[i]];
        DistinctCountsOnce(s, r[i]);
      }
    }
  }

  /** Sorting distinct keys puts them in strictly increasing order. */
  lemma SortDistinctStrictly(s: seq<string>)
    requires Distinct(s)
    ensures StrictlySortedStrings(SortStrings(s))
  {
    SameElementsDistinct(SortStrings(s), s);
  }

  /** Two strictly increasing sequences holding the same strings are equal:
      the sorted keys do not depend on the order the keys were listed in. */
  lemma {:induction false} StrictlySortedUnique(a: seq<string>, b: seq<string>)
    requires StrictlySortedStrings(a) && StrictlySortedStrings(b)
    requires forall x :: x in a <==> x in b
    ensures a == b
  {
    assert |a| > 0 ==> a[0] in a;
    assert |b| > 0 ==> b[0] in b;
    if |a| > 0 && |b| > 0 {
      if a[0] != b[0] {
        assert b[0] in a;
        assert a[0] in b;
        var i :| 0 <= i < |a| && a[i] == b[0];
        var j :| 0 <= j < |b| && b[j] == a[0];
        assert LexLe(a[0], b[0]);
        assert LexLe(b[0], a[0]);
        LexLeAntisymmetric(a[0], b[0]);
      } else {
        forall x ensures x in a[1..] <==> x in b[1..] {
          if x in a[1..] {
            var i :| 0 <= i < |a[1..]| && a[1..][i] == x;
            assert LexLess(a[0], a[i + 1]);
            assert x in a;
            assert x in b;
            var j :| 0 <= j < |b| && b[j] == x;
            assert b[1..][j - 1] == x;
          }
          if x in b[1..] {
            var j :| 0 <= j < |b[1..]| && b[1..][j] == x;
            assert LexLess(b[0], b[j + 1]);
            assert x in b;
            assert x in a;
            var i :| 0 <= i < |a| && a[i] == x;
            assert a[1..][i - 1] == x;
          }
        }
        StrictlySortedUnique(a[1..], b[1..]);
        assert a == [a[0]] + a[1..];
        assert b == [b[0]] + b[1..];
      }
    }
  }
}
