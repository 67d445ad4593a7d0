/** The month buckets of `Calendar`: `items.forEach` pushes each item onto
    the array stored under its key, creating the array on first use. The key
    function is a parameter; the calendar passes the month key of the
    viewer's zone. */
module Grouping {
  import opened CalendarItems
  import opened StringOrder

  /** Reference definition of a bucket: the items whose key is `k`, in
      input order. */
  function WithKey(items: seq<CalendarItem>, k: string, key: CalendarItem -> string): (r: seq<CalendarItem>)
    ensures forall j :: 0 <= j < |r| ==> key(r[j]) == k
  {
    if |items| == 0 then []
    else
      var last := items[|items| - 1];
      WithKey(items[..|items| - 1], k, key) + (if key(last) == k then [last] else [])
  }

  /** Appending an item extends its own bucket only. */
  lemma WithKeyOfSnoc(items: seq<CalendarItem>, x: CalendarItem, k: string, key: CalendarItem -> string)
    ensures WithKey(items + [x], k, key) == WithKey(items, k, key) + (if key(x) == k then [x] else [])
  {
    assert (items + [x])[..|items|] == items;
  }

  /** The keys some item has. */
  function KeySet(items: seq<CalendarItem>, key: CalendarItem -> string): set<string> {
    set i | 0 <= i < |items| :: key(items[i])
  }

  lemma KeySetOfSnoc(items: seq<CalendarItem>, x: CalendarItem, key: CalendarItem -> string)
    ensures KeySet(items + [x], key) == KeySet(items, key) + {key(x)}
  {
    var s := items + [x];
    forall k | k in KeySet(s, key) ensures k in KeySet(items, key) + {key(x)} {
      var i :| 0 <= i < |s| && key(s[i]) == k;
      if i < |items| {
        assert s[i] == items[i];
      }
    }
    forall k | k in KeySet(items, key) ensures k in KeySet(s, key) {
      var i :| 0 <= i < |items| && key(items[i]) == k;
      assert s[i] == items[i];
    }
    assert key(s[|items|]) in KeySet(s, key);
  }

  /** The `map` object after the `forEach`: one entry per key that occurs,
      holding exactly that key's items in input order (each `push` appends). */
  function Bucket(items: seq<CalendarItem>, key: CalendarItem -> string): (m: map<string, seq<CalendarItem>>)
    ensures m.Keys == KeySet(items, key)
    ensures forall k :: k in m ==> m[k] == WithKey(items, k, key)
  {
    if |items| == 0 then map[]
    else
      var prefix := items[..|items| - 1];
      var last := items[|items| - 1];
      var m := Bucket(prefix, key);
      var k := key(last);
      assert items == prefix + [last];
      KeySetOfSnoc(prefix, last, key);
      assert forall k' :: WithKey(items, k', key) == WithKey(prefix, k', key) + (if key(last) == k' then [last] else []) by {
        forall k' ensures WithKey(items, k', key) == WithKey(prefix, k', key) + (if key(last) == k' then [last] else []) {
          WithKeyOfSnoc(prefix, last, k', key);
        }
      }
      if k in m then m[k := m[k] + [last]]
      else
        WithKeyAbsent(prefix, k, key);
        m[k := [last]]
  }

  lemma {:induction false} WithKeyAbsent(items: seq<CalendarItem>, k: string, key: CalendarItem -> string)
    requires k !in KeySet(items, key)
    ensures WithKey(items, k, key) == []
  {
    if |items| > 0 {
      var prefix := items[..|items| - 1];
      assert KeySet(prefix, key) <= KeySet(items, key) by {
        forall k' | k' in KeySet(prefix, key) ensures k' in KeySet(items, key) {
          var i :| 0 <= i < |prefix| && key(prefix[i]) == k';
          assert items[i] == prefix[i];
        }
      }
      WithKeyAbsent(prefix, k, key);
      assert key(items[|items| - 1]) in KeySet(items, key);
    }
  }

  /** `Object.keys(map)`: the keys in the order they were first inserted. */
  function InsertionOrderKeys(items: seq<CalendarItem>, key: CalendarItem -> string): (ks: seq<string>)
    ensures Distinct(ks)
    ensures forall k :: k in ks <==> k in KeySet(items, key)
  {
    if |items| == 0 then []
    else
      var prefix := items[..|items| - 1];
      var last := items[|items| - 1];
      var ks := InsertionOrderKeys(prefix, key);
      var k := key(last);
      assert items == prefix + [last];
      KeySetOfSnoc(prefix, last, key);
      if k in ks then ks else ks + [k]
  }

  /** Every key that occurs has a non-empty bucket. */
  lemma {:induction false} WithKeyPresent(items: seq<CalendarItem>, k: string, key: CalendarItem -> string)
    requires k in KeySet(items, key)
    ensures |WithKey(items, k, key)| > 0
  {
    var prefix := items[..|items| - 1];
    if key(items[|items| - 1]) != k {
      var i :| 0 <= i < |items| && key(items[i]) == k;
      assert prefix[i] == items[i];
      WithKeyPresent(prefix, k, key);
    }
  }

  /** The buckets of the keys `ks`, one after another. */
  function Gather(items: seq<CalendarItem>, ks: seq<string>, key: CalendarItem -> string): seq<CalendarItem>
  {
    if |ks| == 0 then [] else WithKey(items, ks[0], key) + Gather(items, ks[1..], key)
  }

  lemma {:induction false} GatherOfSnoc(items: seq<CalendarItem>, x: CalendarItem, ks: seq<string>, key: CalendarItem -> string)
    requires Distinct(ks)
    ensures multiset(Gather(items + [x], ks, key))
      == multiset(Gather(items, ks, key)) + (if key(x) in ks then multiset{x} else multiset{})
  {
    var s := items + [x];
    assert s[..|s| - 1] == items;
    if |ks| > 0 {
      GatherOfSnoc(items, x, ks[1..], key);
      assert ks == [ks[0]] + ks[1..];
      assert key(x) in ks <==> key(x) == ks[0] || key(x) in ks[1..];
      assert ks[0] !in ks[1..];
    }
  }

  /** Nothing is lost or duplicated: when `ks` lists every key once, the
      buckets of `ks` together hold exactly the input items. */
  lemma {:induction false} GatherIsPermutation(items: seq<CalendarItem>, ks: seq<string>, key: CalendarItem -> string)
    requires Distinct(ks)
    requires forall k :: k in KeySet(items, key) ==> k in ks
    ensures multiset(Gather(items, ks, key)) == multiset(items)
  {
    if |items| == 0 {
      GatherOfEmpty(ks, key);
    } else {
      var prefix := items[..|items| - 1];
      var last := items[|items| - 1];
      assert items == prefix + [last];
      KeySetOfSnoc(prefix, last, key);
      GatherIsPermutation(prefix, ks, key);
      GatherOfSnoc(prefix, last, ks, key);
    }
  }

  lemma {:induction false} GatherOfEmpty(ks: seq<string>, key: CalendarItem -> string)
    ensures Gather([], ks, key) == []
  {
    if |ks| > 0 {
      GatherOfEmpty(ks[1..], key);
    }
  }
}
