/**
 The zone list kept by the lighting manager, as values: the records it
 holds, the filtering done by its removal loop, the sort after a push,
 and the first-match property lookup. The functions only compute; what
 they guarantee is stated and proved in the lemmas after them.
 */
module ZoneRegistry {

  /** A zone the user is inside: entity id, size (smaller wins) and its lighting properties. */
  datatype Zone = Zone(id: string, size: real, properties: map<string, real>)

  ghost predicate SortedBySize(s: seq<Zone>)
  {
    forall i, j :: 0 <= i < j < |s| ==> s[i].size <= s[j].size
  }

  ghost predicate UniqueIds(s: seq<Zone>)
  {
    forall i, j :: 0 <= i < j < |s| ==> s[i].id != s[j].id
  }

  /** Some zone in `s` carries `id`. */
  ghost predicate HasId(s: seq<Zone>, id: string)
  {
    exists z :: z in s && z.id == id
  }

  /** What is left of `s` after the `splice(i--, 1)` loop drops every zone with `id`. */
  function Without(s: seq<Zone>, id: string): seq<Zone>
    decreases |s|
  {
    if s == [] then []
    else
      var last := s[|s| - 1];
      Without(s[..|s| - 1], id) + (if last.id == id then [] else [last])
  }

  /** Places `z` into `s` after the leading zones no larger than it. */
  function Insert(s: seq<Zone>, z: Zone): seq<Zone>
    decreases |s|
  {
    if s == [] then [z]
    else if s[0].size <= z.size then [s[0]] + Insert(s[1..], z)
    else [z] + s
  }

  /** `zones.sort((a, b) => a.size - b.size)`, as an insertion sort. */
  function SortBySize(s: seq<Zone>): seq<Zone>
    decreases |s|
  {
    if s == [] then [] else Insert(SortBySize(s[..|s| - 1]), s[|s| - 1])
  }

  /** The zone list after `enteredZone`: old records with the same id removed, the new one pushed, then sorted. */
  function AfterEnter(s: seq<Zone>, z: Zone): seq<Zone>
  {
    SortBySize(Without(s, z.id) + [z])
  }

  /**
   `getValue(key, defaultValue)`: the value of `key` in the first zone that
   defines it, or the default when none does.
   */
  function Lookup(zones: seq<Zone>, key: string, defaultValue: real): real
  {
    LookupFrom(zones, key, defaultValue, 0)
  }

  /** The lookup restricted to the zones from index `i` on. */
  function LookupFrom(zones: seq<Zone>, key: string, defaultValue: real, i: nat): real
    requires i <= |zones|
    decreases |zones| - i
  {
    if i == |zones| then defaultValue
    else if key in zones[i].properties then zones[i].properties[key]
    else LookupFrom(zones, key, defaultValue, i + 1)
  }

  // ---------------------------------------------------------------------------
  // Removal

  /** The zones kept are exactly those of `s` that do not carry `id`, and there are no more of them. */
  lemma {:induction false} WithoutMembers(s: seq<Zone>, id: string)
    ensures forall z :: z in Without(s, id) <==> z in s && z.id != id
    ensures |Without(s, id)| <= |s|
    decreases |s|
  {
    if s != [] {
      var init := s[..|s| - 1];
      WithoutMembers(init, id);
      assert s == init + [s[|s| - 1]];
    }
  }

  lemma {:induction false} WithoutKeepsSorted(s: seq<Zone>, id: string)
    requires SortedBySize(s)
    ensures SortedBySize(Without(s, id))
    decreases |s|
  {
    if s != [] {
      var init := s[..|s| - 1];
      var last := s[|s| - 1];
      WithoutKeepsSorted(init, id);
      WithoutMembers(init, id);
      var w := Without(init, id);
      forall x | x in w ensures x.size <= last.size {
        var i :| 0 <= i < |init| && init[i] == x;
        assert s[i] == x;
      }
    }
  }

  lemma {:induction false} WithoutKeepsUniqueIds(s: seq<Zone>, id: string)
    requires UniqueIds(s)
    ensures UniqueIds(Without(s, id))
    decreases |s|
  {
    if s != [] {
      var init := s[..|s| - 1];
      var last := s[|s| - 1];
      WithoutKeepsUniqueIds(init, id);
      WithoutMembers(init, id);
      var w := Without(init, id);
      forall x | x in w ensures x.id != last.id {
        var i :| 0 <= i < |init| && init[i] == x;
        assert s[i] == x;
      }
    }
  }

  /** One more zone of the prefix examined: it is kept unless it carries `id`. */
  lemma WithoutStep(s: seq<Zone>, k: nat, id: string)
    requires k < |s|
    ensures Without(s[..k + 1], id) == Without(s[..k], id) + (if s[k].id == id then [] else [s[k]])
  {
    assert s[..k + 1][..k] == s[..k];
  }

  /**
   One iteration of the removal loop: `zones` is the filtered first `k`
   zones of `s` followed by the rest, and index `i` points at zone `k`.
   Splicing it out (when it carries `id`) or stepping past it keeps that
   shape for `k + 1`.
   */
  lemma RemovalStep(s: seq<Zone>, k: nat, zones: seq<Zone>, i: nat, id: string)
    requires k < |s|
    requires zones == Without(s[..k], id) + s[k..] && i == |Without(s[..k], id)|
    ensures i < |zones| && zones[i] == s[k]
    ensures zones[i].id == id ==>
              zones[..i] + zones[i + 1..] == Without(s[..k + 1], id) + s[k + 1..]
              && i == |Without(s[..k + 1], id)|
    ensures zones[i].id != id ==>
              zones == Without(s[..k + 1], id) + s[k + 1..]
              && i + 1 == |Without(s[..k + 1], id)|
  {
    var done := Without(s[..k], id);
    var rest := s[k + 1..];
    WithoutStep(s, k, id);
    assert s[k..] == [s[k]] + rest;
    assert zones == done + [s[k]] + rest;
    assert zones[..i] == done;
    assert zones[i + 1..] == rest;
  }

  /** With no zone carrying `id`, the removal loop leaves the list untouched. */
  lemma WithoutAbsent(s: seq<Zone>, id: string)
    requires !HasId(s, id)
    ensures Without(s, id) == s
  {
    forall i | 0 <= i < |s| ensures s[i].id != id {
      assert s[i] in s;
    }
    WithoutKeepsAll(s, id);
  }

  lemma {:induction false} WithoutKeepsAll(s: seq<Zone>, id: string)
    requires forall i :: 0 <= i < |s| ==> s[i].id != id
    ensures Without(s, id) == s
    decreases |s|
  {
    if s != [] {
      var init := s[..|s| - 1];
      assert forall i :: 0 <= i < |init| ==> init[i] == s[i];
      WithoutKeepsAll(init, id);
      assert init + [s[|s| - 1]] == s;
    }
  }

  /**
   Removal works zone by zone: filtering a concatenation filters each part,
   so the zones kept stay in their original relative order.
   */
  lemma {:induction false} WithoutConcat(a: seq<Zone>, b: seq<Zone>, id: string)
    ensures Without(a + b, id) == Without(a, id) + Without(b, id)
    decreases |b|
  {
    if b == [] {
      assert a + b == a;
    } else {
      var binit := b[..|b| - 1];
      var last := b[|b| - 1];
      assert (a + b)[..|a + b| - 1] == a + binit;
      assert (a + b)[|a + b| - 1] == last;
      WithoutConcat(a, binit, id);
    }
  }

  /** Removing twice is removing once. */
  lemma WithoutIdempotent(s: seq<Zone>, id: string)
    ensures Without(Without(s, id), id) == Without(s, id)
  {
    WithoutMembers(s, id);
    WithoutAbsent(Without(s, id), id);
  }

  // ---------------------------------------------------------------------------
  // Sorting after a push

  /** Insertion adds exactly the one zone. */
  lemma {:induction false} InsertPermutes(s: seq<Zone>, z: Zone)
    ensures multiset(Insert(s, z)) == multiset(s) + multiset{z}
    ensures |Insert(s, z)| == |s| + 1
    decreases |s|
  {
    if s != [] && s[0].size <= z.size {
      InsertPermutes(s[1..], z);
      assert s == [s[0]] + s[1..];
    }
  }

  /** Insertion keeps every zone at least `v` in size when the new one is. */
  lemma {:induction false} InsertLowerBound(s: seq<Zone>, z: Zone, v: real)
    requires forall x :: x in s ==> v <= x.size
    requires v <= z.size
    ensures forall x :: x in Insert(s, z) ==> v <= x.size
    decreases |s|
  {
    if s != [] && s[0].size <= z.size {
      assert forall x :: x in s[1..] ==> x in s;
      InsertLowerBound(s[1..], z, v);
    }
  }

  /** Insertion brings in no id other than the new zone's own. */
  lemma {:induction false} InsertAvoidsId(s: seq<Zone>, z: Zone, id: string)
    requires forall x :: x in s ==> x.id != id
    requires z.id != id
    ensures forall x :: x in Insert(s, z) ==> x.id != id
    decreases |s|
  {
    if s != [] && s[0].size <= z.size {
      assert forall x :: x in s[1..] ==> x in s;
      InsertAvoidsId(s[1..], z, id);
    }
  }

  /** A zone no larger than any of a sorted list may go in front of it. */
  lemma ConsKeepsSorted(h: Zone, s: seq<Zone>)
    requires SortedBySize(s) && forall x :: x in s ==> h.size <= x.size
    ensures SortedBySize([h] + s)
  {
    var r := [h] + s;
    forall i, j | 0 <= i < j < |r| ensures r[i].size <= r[j].size {
      assert r[j] == s[j - 1];
      if i > 0 {
        assert r[i] == s[i - 1];
      } else {
        assert r[j] in s;
      }
    }
  }

  /** A zone whose id no zone of the list has may go in front of it. */
  lemma ConsKeepsUniqueIds(h: Zone, s: seq<Zone>)
    requires UniqueIds(s) && forall x :: x in s ==> x.id != h.id
    ensures UniqueIds([h] + s)
  {
    var r := [h] + s;
    forall i, j | 0 <= i < j < |r| ensures r[i].id != r[j].id {
      assert r[j] == s[j - 1];
      if i > 0 {
        assert r[i] == s[i - 1];
      } else {
        assert r[j] in s;
      }
    }
  }

  lemma {:induction false} InsertKeepsSorted(s: seq<Zone>, z: Zone)
    requires SortedBySize(s)
    ensures SortedBySize(Insert(s, z))
    decreases |s|
  {
    if s != [] && s[0].size <= z.size {
      var tail := s[1..];
      var rest := Insert(tail, z);
      InsertKeepsSorted(tail, z);
      assert forall x :: x in tail ==> s[0].size <= x.size by {
        forall x | x in tail ensures s[0].size <= x.size {
          var k :| 0 <= k < |tail| && tail[k] == x;
          assert s[k + 1] == x;
        }
      }
      InsertLowerBound(tail, z, s[0].size);
      ConsKeepsSorted(s[0], rest);
    }
  }

  lemma {:induction false} InsertKeepsUniqueIds(s: seq<Zone>, z: Zone)
    requires UniqueIds(s) && !HasId(s, z.id)
    ensures UniqueIds(Insert(s, z))
    decreases |s|
  {
    if s != [] && s[0].size <= z.size {
      var tail := s[1..];
      var rest := Insert(tail, z);
      assert !HasId(tail, z.id) by {
        forall x | x in tail ensures x.id != z.id {
          assert x in s;
        }
      }
      InsertKeepsUniqueIds(tail, z);
      assert forall x :: x in tail ==> x.id != s[0].id by {
        forall x | x in tail ensures x.id != s[0].id {
          var k :| 0 <= k < |tail| && tail[k] == x;
          assert s[k + 1] == x;
        }
      }
      assert s[0] in s;
      InsertAvoidsId(tail, z, s[0].id);
      ConsKeepsUniqueIds(s[0], rest);
    }
  }

  /**
   The sort orders the zones by non-decreasing size and is a permutation
   of its input; it never makes two zones share an id.
   */
  lemma {:induction false} SortBySizeSpec(s: seq<Zone>)
    ensures SortedBySize(SortBySize(s))
    ensures multiset(SortBySize(s)) == multiset(s)
    ensures |SortBySize(s)| == |s|
    ensures UniqueIds(s) ==> UniqueIds(SortBySize(s))
    decreases |s|
  {
    if s != [] {
      var init := s[..|s| - 1];
      var last := s[|s| - 1];
      assert s == init + [last];
      SortBySizeSpec(init);
      var sorted := SortBySize(init);
      InsertPermutes(sorted, last);
      InsertKeepsSorted(sorted, last);
      if UniqueIds(s) {
        assert !HasId(sorted, last.id) by {
          forall x | x in sorted ensures x.id != last.id {
            assert x in multiset(sorted);
            var i :| 0 <= i < |init| && init[i] == x;
            assert s[i] == x;
          }
        }
        InsertKeepsUniqueIds(sorted, last);
      }
    }
  }

  /** Sorting neither adds nor drops a zone. */
  lemma SortBySizeMembers(s: seq<Zone>)
    ensures forall x :: x in SortBySize(s) <==> x in s
  {
    SortBySizeSpec(s);
    forall x ensures x in SortBySize(s) <==> x in s {
      assert x in SortBySize(s) <==> x in multiset(SortBySize(s));
      assert x in s <==> x in multiset(s);
    }
  }

  /** Pushing a zone whose id is new keeps ids unique. */
  lemma PushFreshKeepsUniqueIds(s: seq<Zone>, z: Zone)
    requires UniqueIds(s) && forall x :: x in s ==> x.id != z.id
    ensures UniqueIds(s + [z])
  {
    var t := s + [z];
    forall i, j | 0 <= i < j < |t| ensures t[i].id != t[j].id {
      if j < |s| {
        assert t[i] == s[i] && t[j] == s[j];
      } else {
        assert t[i] in s;
      }
    }
  }

  /**
   After `enteredZone` the list is sorted by size, is a permutation of the
   old zones without those carrying the new id plus the new zone, holds the
   new zone as the only one with its id, and keeps ids unique.
   */
  lemma AfterEnterSpec(s: seq<Zone>, z: Zone)
    ensures SortedBySize(AfterEnter(s, z))
    ensures multiset(AfterEnter(s, z)) == multiset(Without(s, z.id)) + multiset{z}
    ensures z in AfterEnter(s, z)
    ensures forall x :: x in AfterEnter(s, z) && x.id == z.id ==> x == z
    ensures UniqueIds(s) ==> UniqueIds(AfterEnter(s, z))
  {
    var kept := Without(s, z.id);
    SortBySizeSpec(kept + [z]);
    SortBySizeMembers(kept + [z]);
    WithoutMembers(s, z.id);
    if UniqueIds(s) {
      WithoutKeepsUniqueIds(s, z.id);
      PushFreshKeepsUniqueIds(kept, z);
    }
  }

  // ---------------------------------------------------------------------------
  // Lookup

  /**
   First-match lookup: with no zone defining `key` the default itself comes
   back; otherwise the value of the lowest-index zone defining it.
   */
  lemma LookupFirstMatch(zones: seq<Zone>, key: string, defaultValue: real)
    ensures (forall i :: 0 <= i < |zones| ==> key !in zones[i].properties) ==> Lookup(zones, key, defaultValue) == defaultValue
    ensures forall i :: 0 <= i < |zones| && key in zones[i].properties && (forall j :: 0 <= j < i ==> key !in zones[j].properties)
              ==> Lookup(zones, key, defaultValue) == zones[i].properties[key]
  {
    if forall i :: 0 <= i < |zones| ==> key !in zones[i].properties {
      LookupFromNone(zones, key, defaultValue, 0);
    }
    forall i | 0 <= i < |zones| && key in zones[i].properties && (forall j :: 0 <= j < i ==> key !in zones[j].properties)
      ensures Lookup(zones, key, defaultValue) == zones[i].properties[key]
    {
      LookupFromFirst(zones, key, defaultValue, 0, i);
    }
  }

  lemma {:induction false} LookupFromNone(zones: seq<Zone>, key: string, defaultValue: real, lo: nat)
    requires lo <= |zones|
    requires forall i :: lo <= i < |zones| ==> key !in zones[i].properties
    ensures LookupFrom(zones, key, defaultValue, lo) == defaultValue
    decreases |zones| - lo
  {
    if lo < |zones| {
      LookupFromNone(zones, key, defaultValue, lo + 1);
    }
  }

  lemma {:induction false} LookupFromFirst(zones: seq<Zone>, key: string, defaultValue: real, lo: nat, i: nat)
    requires lo <= i < |zones| && key in zones[i].properties
    requires forall j :: lo <= j < i ==> key !in zones[j].properties
    ensures LookupFrom(zones, key, defaultValue, lo) == zones[i].properties[key]
    decreases i - lo
  {
    if lo < i {
      LookupFromFirst(zones, key, defaultValue, lo + 1, i);
    }
  }

  /**
   Smallest zone wins: on a size-sorted list, when some zone defines `key`,
   the lookup returns the value of a zone defining it whose size is no larger
   than that of any other zone defining it.
   */
  lemma LookupSmallestWins(zones: seq<Zone>, key: string, defaultValue: real)
    requires SortedBySize(zones)
    requires exists j :: 0 <= j < |zones| && key in zones[j].properties
    ensures exists i :: 0 <= i < |zones| && key in zones[i].properties
              && Lookup(zones, key, defaultValue) == zones[i].properties[key]
              && forall j :: 0 <= j < |zones| && key in zones[j].properties ==> zones[i].size <= zones[j].size
  {
    var j :| 0 <= j < |zones| && key in zones[j].properties;
    var i := FirstDefining(zones, key, 0, j);
    LookupFirstMatch(zones, key, defaultValue);
    forall k | 0 <= k < |zones| && key in zones[k].properties
      ensures zones[i].size <= zones[k].size
    {
      assert i <= k;
    }
  }

  /** The first index from `lo` on whose zone defines `key`, given that zone `j` does. */
  function FirstDefining(zones: seq<Zone>, key: string, lo: nat, j: nat): (i: nat)
    requires lo <= j < |zones| && key in zones[j].properties
    requires forall k :: 0 <= k < lo ==> key !in zones[k].properties
    ensures i <= j && key in zones[i].properties
    ensures forall k :: 0 <= k < i ==> key !in zones[k].properties
    decreases j - lo
  {
    if key in zones[lo].properties then lo else FirstDefining(zones, key, lo + 1, j)
  }
}
