/** Sorting of (key, payload) pairs by key, with the payload carried along.
    The k-d tree sorts coordinates together with point indices when it
    builds a subtree, and branch distances together with branch slots when
    it orders a search; both go through `SortByKey`. */
module Sorting {

  /** The keys of s never decrease. */
  ghost predicate SortedByKey(s: seq<(real, int)>)
  {
    forall i, j :: 0 <= i < j < |s| ==> s[i].0 <= s[j].0
  }

  /** x inserted into s after the leading pairs whose key is at most x's. */
  function Insert(x: (real, int), s: seq<(real, int)>): (r: seq<(real, int)>)
    ensures |r| == |s| + 1 && (r[0] == x || (|s| > 0 && r[0] == s[0]))
  {
    if |s| == 0 || x.0 < s[0].0 then [x] + s
    else [s[0]] + Insert(x, s[1..])
  }

  /** Inserting into a sorted sequence keeps it sorted. */
  lemma {:induction false} InsertSorted(x: (real, int), s: seq<(real, int)>)
    requires SortedByKey(s)
    ensures SortedByKey(Insert(x, s))
    decreases |s|
  {
    if |s| > 0 && x.0 >= s[0].0 {
      var rest := Insert(x, s[1..]);
      InsertSorted(x, s[1..]);
      if |s| > 1 {
        assert s[1..][0] == s[1];
      }
      assert s[0].0 <= rest[0].0;
    }
  }

  /** Inserting adds exactly x. */
  lemma {:induction false} InsertCounts(x: (real, int), s: seq<(real, int)>)
    ensures multiset(Insert(x, s)) == multiset(s) + multiset{x}
    decreases |s|
  {
    if |s| > 0 && x.0 >= s[0].0 {
      InsertCounts(x, s[1..]);
      assert s == [s[0]] + s[1..];
    }
  }

  /** s sorted by key; pairs with equal keys keep their order (SortStable). */
  function SortByKey(s: seq<(real, int)>): (r: seq<(real, int)>)
    ensures SortedByKey(r) && multiset(r) == multiset(s) && |r| == |s|
  {
    if |s| == 0 then []
    else
      var init, last := s[..|s| - 1], s[|s| - 1];
      assert s == init + [last];
      InsertSorted(last, SortByKey(init));
      InsertCounts(last, SortByKey(init));
      Insert(last, SortByKey(init))
  }

  /** The payloads of s, in order. */
  function Payloads(s: seq<(real, int)>): (r: seq<int>)
    ensures |r| == |s| && forall i :: 0 <= i < |s| ==> r[i] == s[i].1
  {
    seq(|s|, i requires 0 <= i < |s| => s[i].1)
  }

  /** The keys of s, in order. */
  function Keys(s: seq<(real, int)>): (r: seq<real>)
    ensures |r| == |s| && forall i :: 0 <= i < |s| ==> r[i] == s[i].0
  {
    seq(|s|, i requires 0 <= i < |s| => s[i].0)
  }

  /** Sorting keeps exactly the pairs of s. */
  lemma SortKeepsPairs(s: seq<(real, int)>, p: (real, int))
    ensures p in SortByKey(s) <==> p in s
  {
    var r := SortByKey(s);
    assert p in r <==> p in multiset(r);
    assert p in s <==> p in multiset(s);
  }

  /** No two pairs of s carry the same payload. */
  ghost predicate DistinctPayloads(s: seq<(real, int)>)
  {
    forall i, j :: 0 <= i < j < |s| ==> s[i].1 != s[j].1
  }

  lemma {:induction false} InsertDistinct(x: (real, int), s: seq<(real, int)>)
    requires DistinctPayloads(s) && forall i :: 0 <= i < |s| ==> s[i].1 != x.1
    ensures DistinctPayloads(Insert(x, s))
    decreases |s|
  {
    if |s| > 0 && x.0 >= s[0].0 {
      InsertDistinct(x, s[1..]);
      var rest := Insert(x, s[1..]);
      InsertCounts(x, s[1..]);
      forall i | 0 <= i < |rest|
        ensures rest[i].1 != s[0].1
      {
        assert rest[i] in multiset(rest);
      }
    }
  }

  /** Sorting keeps payloads distinct. */
  lemma {:induction false} SortDistinct(s: seq<(real, int)>)
    requires DistinctPayloads(s)
    ensures DistinctPayloads(SortByKey(s))
    ensures forall i :: 0 <= i < |s| ==> SortByKey(s)[i] in s
    decreases |s|
  {
    if |s| > 0 {
      var init := s[..|s| - 1];
      SortDistinct(init);
      var t := SortByKey(init);
      forall i | 0 <= i < |t|
        ensures t[i].1 != s[|s| - 1].1
      {
        var k :| 0 <= k < |init| && init[k] == t[i];
      }
      InsertDistinct(s[|s| - 1], t);
      forall i | 0 <= i < |s|
        ensures SortByKey(s)[i] in s
      {
        var r := SortByKey(s);
        assert r[i] in multiset(r);
      }
    }
  }

  /** Pairs in ascending key order, and in ascending payload order among equal keys. */
  ghost predicate SortedByKeyThenPayload(s: seq<(real, int)>)
  {
    forall i, j :: 0 <= i < j < |s| ==> s[i].0 < s[j].0 || (s[i].0 == s[j].0 && s[i].1 < s[j].1)
  }

  /** Inserting a pair whose payload exceeds every payload of s keeps the
      key-then-payload order: x lands after every pair of equal key. */
  lemma {:induction false} InsertAfterEqual(x: (real, int), s: seq<(real, int)>)
    requires SortedByKeyThenPayload(s) && forall i :: 0 <= i < |s| ==> s[i].1 < x.1
    ensures SortedByKeyThenPayload(Insert(x, s))
    decreases |s|
  {
    if |s| > 0 && x.0 >= s[0].0 {
      var rest := Insert(x, s[1..]);
      InsertAfterEqual(x, s[1..]);
      InsertCounts(x, s[1..]);
      forall i | 0 <= i < |rest|
        ensures s[0].0 < rest[i].0 || (s[0].0 == rest[i].0 && s[0].1 < rest[i].1)
      {
        assert rest[i] in multiset(rest);
        if rest[i] != x {
          var k :| 0 <= k < |s[1..]| && s[1..][k] == rest[i];
          assert s[k + 1] == rest[i];
        }
      }
    }
  }

  /** Sorting is stable: when the payloads record the input order (they
      increase along s), pairs of equal key come out in that order. */
  lemma {:induction false} SortStable(s: seq<(real, int)>)
    requires forall i, j :: 0 <= i < j < |s| ==> s[i].1 < s[j].1
    ensures SortedByKeyThenPayload(SortByKey(s))
    decreases |s|
  {
    if |s| > 0 {
      var init, last := s[..|s| - 1], s[|s| - 1];
      SortStable(init);
      var t := SortByKey(init);
      forall i | 0 <= i < |t|
        ensures t[i].1 < last.1
      {
        assert t[i] in multiset(t);
        var k :| 0 <= k < |init| && init[k] == t[i];
      }
      InsertAfterEqual(last, t);
    }
  }

  /** The key of branch slot 1, 2 or 3. */
  function SlotKey(k1: real, k2: real, k3: real, slot: int): real
  {
    if slot == 1 then k1 else if slot == 2 then k2 else k3
  }

  /** The three slots paired with their keys, in slot order. */
  function SlotPairs(k1: real, k2: real, k3: real): (s: seq<(real, int)>)
    ensures |s| == 3 && forall i :: 0 <= i < 3 ==> s[i] == (SlotKey(k1, k2, k3, i + 1), i + 1)
  {
    [(k1, 1), (k2, 2), (k3, 3)]
  }

  /** Sorting the slot pairs: each sorted pair is one of the input pairs,
      so it carries its slot's own key, and the slots come out by key, then
      by slot. */
  lemma SlotKeys(k1: real, k2: real, k3: real)
    ensures var r := SortByKey(SlotPairs(k1, k2, k3));
            && |r| == 3 && (forall i :: 0 <= i < 3 ==> 1 <= r[i].1 <= 3 && r[i].0 == SlotKey(k1, k2, k3, r[i].1))
            && SortedByKeyThenPayload(r)
  {
    var s := SlotPairs(k1, k2, k3);
    SortStable(s);
    var r := SortByKey(s);
    forall i | 0 <= i < 3
      ensures 1 <= r[i].1 <= 3 && r[i].0 == SlotKey(k1, k2, k3, r[i].1)
    {
      assert r[i] in multiset(r);
      assert r[i] in s;
    }
  }

  /** The slots 1, 2, 3 ordered by their keys k1, k2, k3; ties keep slot order. */
  function SlotOrder(k1: real, k2: real, k3: real): (o: seq<int>)
    ensures |o| == 3 && (forall i :: 0 <= i < 3 ==> 1 <= o[i] <= 3)
    ensures o[0] != o[1] && o[0] != o[2] && o[1] != o[2]
    ensures forall i, j :: 0 <= i < j < 3 ==>
              SlotKey(k1, k2, k3, o[i]) < SlotKey(k1, k2, k3, o[j]) ||
              (SlotKey(k1, k2, k3, o[i]) == SlotKey(k1, k2, k3, o[j]) && o[i] < o[j])
  {
    SlotKeys(k1, k2, k3);
    Payloads(SortByKey(SlotPairs(k1, k2, k3)))
  }
}
