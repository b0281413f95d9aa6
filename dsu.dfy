/** The list-of-lists disjoint-set structure of q4.py: each set is a list of
    items, the structure a list of sets; join appends one set to another and
    deletes the second. */
module DisjointSet {
  import opened Common

  /** The sets partition their items: none is empty, no item is in two sets,
      and no set lists an item twice. */
  ghost predicate Partition<T>(sets: seq<seq<T>>) {
    && (forall i :: 0 <= i < |sets| ==> sets[i] != [])
    && (forall i, j, x :: 0 <= i < |sets| && 0 <= j < |sets| && x in sets[i] && x in sets[j] ==> i == j)
    && (forall i :: 0 <= i < |sets| ==> NoDuplicates(sets[i]))
  }

  /** Every item in some set. */
  ghost function Elements<T>(sets: seq<seq<T>>): set<T> {
    set i, x | 0 <= i < |sets| && x in sets[i] :: x
  }

  /** a and b are in one set. */
  ghost predicate SameSet<T>(sets: seq<seq<T>>, a: T, b: T) {
    exists k :: 0 <= k < |sets| && a in sets[k] && b in sets[k]
  }

  /** The index of the first set from position i on that holds x. */
  function IndexFrom<T(==)>(sets: seq<seq<T>>, x: T, i: nat): (r: Option<nat>)
    requires i <= |sets|
    ensures r.Some? ==> i <= r.value < |sets| && x in sets[r.value]
                        && forall k :: i <= k < r.value ==> x !in sets[k]
    ensures r.None? ==> forall k :: i <= k < |sets| ==> x !in sets[k]
    decreases |sets| - i
  {
    if i == |sets| then None
    else if x in sets[i] then Some(i)
    else IndexFrom(sets, x, i + 1)
  }

  /** The index of the set holding x, or None when no set does (_get_index). */
  function IndexOf<T(==)>(sets: seq<seq<T>>, x: T): Option<nat> {
    IndexFrom(sets, x, 0)
  }

  /** IndexOf finds x exactly when x is an item, and then names x's set. */
  lemma IndexOfSpec<T>(sets: seq<seq<T>>, x: T)
    ensures IndexOf(sets, x).Some? <==> x in Elements(sets)
    ensures IndexOf(sets, x).Some? ==> IndexOf(sets, x).value < |sets| && x in sets[IndexOf(sets, x).value]
    ensures Partition(sets) && IndexOf(sets, x).Some? ==>
              forall k :: 0 <= k < |sets| && x in sets[k] ==> k == IndexOf(sets, x).value
  {
    if IndexOf(sets, x).Some? {
      var i := IndexOf(sets, x).value;
      assert x in sets[i];
    }
  }

  lemma ElementsSnoc<T>(sets: seq<seq<T>>, s: seq<T>)
    ensures Elements(sets + [s]) == Elements(sets) + set x | x in s
  {
    var r := sets + [s];
    forall x | x in Elements(r)
      ensures x in Elements(sets) || x in s
    {
      var k :| 0 <= k < |r| && x in r[k];
      if k < |sets| {
        assert x in sets[k];
      }
    }
    forall x | x in s
      ensures x in Elements(r)
    {
      assert x in r[|sets|];
    }
    forall x | x in Elements(sets)
      ensures x in Elements(r)
    {
      var k :| 0 <= k < |sets| && x in sets[k];
      assert x in r[k];
    }
  }

  /** The sets with the j-th appended to the i-th and the j-th deleted. */
  function Joined<T>(sets: seq<seq<T>>, i: nat, j: nat): (r: seq<seq<T>>)
    requires i < |sets| && j < |sets| && i != j
    ensures |r| == |sets| - 1
  {
    var merged := sets[i := sets[i] + sets[j]];
    merged[..j] + merged[j + 1..]
  }

  /** Where each set of the input lands after Joined. */
  lemma JoinedAt<T>(sets: seq<seq<T>>, i: nat, j: nat, k: nat)
    requires i < |sets| && j < |sets| && i != j && k < |sets| - 1
    ensures Joined(sets, i, j)[k] == (if k < j then (if k == i then sets[i] + sets[j] else sets[k])
                                     else (if k + 1 == i then sets[i] + sets[j] else sets[k + 1]))
  {
  }

  /** The position in Joined of the set that was at k, k != j. */
  function Moved(k: nat, j: nat): nat
    requires k != j
  {
    if k < j then k else k - 1
  }

  /** join on the sets: both items present joins their sets (a no-op when they
      share one), both absent changes nothing, and exactly one absent fails (the
      source indexes with None there). */
  function JoinSets<T(==)>(sets: seq<seq<T>>, x: T, y: T): (r: Option<seq<seq<T>>>)
    ensures r.None? <==> (IndexOf(sets, x).Some? != IndexOf(sets, y).Some?)
  {
    match (IndexOf(sets, x), IndexOf(sets, y))
    case (Some(i), Some(j)) => if i == j then Some(sets) else Some(Joined(sets, i, j))
    case (None, None) => Some(sets)
    case _ => None
  }

  /** Joining two items in different sets keeps the partition and its items,
      removes one set and puts the two items together; two items in one set
      leave everything as it was. */
  lemma JoinSetsFacts<T>(sets: seq<seq<T>>, x: T, y: T)
    requires Partition(sets) && x in Elements(sets) && y in Elements(sets)
    ensures JoinSets(sets, x, y).Some?
    ensures Partition(JoinSets(sets, x, y).value)
    ensures Elements(JoinSets(sets, x, y).value) == Elements(sets)
    ensures SameSet(JoinSets(sets, x, y).value, x, y)
    ensures SameSet(sets, x, y) ==> JoinSets(sets, x, y).value == sets
    ensures !SameSet(sets, x, y) ==> |JoinSets(sets, x, y).value| == |sets| - 1
  {
    IndexOfSpec(sets, x);
    IndexOfSpec(sets, y);
    var i, j := IndexOf(sets, x).value, IndexOf(sets, y).value;
    if i == j {
      assert SameSet(sets, x, y);
    } else {
      assert !SameSet(sets, x, y);
      var r := Joined(sets, i, j);
      forall k | 0 <= k < |r|
        ensures r[k] == (if k == Moved(i, j) then sets[i] + sets[j] else sets[if k < j then k else k + 1])
      {
        JoinedAt(sets, i, j, k);
      }
      JoinedPartition(sets, i, j);
      JoinedElements(sets, i, j);
      assert x in r[Moved(i, j)] && y in r[Moved(i, j)];
    }
  }

  /** Two items share a set after the join iff they did before, or each was in
      one of the two joined sets. */
  lemma JoinSetsTogether<T>(sets: seq<seq<T>>, x: T, y: T, a: T, b: T)
    requires Partition(sets) && x in Elements(sets) && y in Elements(sets)
    ensures JoinSets(sets, x, y).Some?
    ensures SameSet(JoinSets(sets, x, y).value, a, b) <==>
              SameSet(sets, a, b) ||
              ((SameSet(sets, a, x) || SameSet(sets, a, y)) && (SameSet(sets, b, x) || SameSet(sets, b, y)))
  {
    IndexOfSpec(sets, x);
    IndexOfSpec(sets, y);
    var i, j := IndexOf(sets, x).value, IndexOf(sets, y).value;
    SameSetWith(sets, i, x, a);
    SameSetWith(sets, i, x, b);
    SameSetWith(sets, j, y, a);
    SameSetWith(sets, j, y, b);
    if i == j {
      if (a in sets[i]) && (b in sets[i]) {
        assert SameSet(sets, a, b);
      }
    } else {
      JoinedSameSet(sets, i, j, a, b);
    }
  }

  /** In a partition, sharing a set with an item of the k-th set is being in it. */
  lemma SameSetWith<T>(sets: seq<seq<T>>, k: nat, x: T, a: T)
    requires Partition(sets) && k < |sets| && x in sets[k]
    ensures SameSet(sets, a, x) <==> a in sets[k]
  {
    if a in sets[k] {
      assert a in sets[k] && x in sets[k];
    }
  }

  /** After Joined, two items share a set iff they did before or each is in one
      of the two joined sets. */
  lemma JoinedSameSet<T>(sets: seq<seq<T>>, i: nat, j: nat, a: T, b: T)
    requires i < |sets| && j < |sets| && i != j
    ensures SameSet(Joined(sets, i, j), a, b) <==>
              SameSet(sets, a, b) || ((a in sets[i] || a in sets[j]) && (b in sets[i] || b in sets[j]))
  {
    var r := Joined(sets, i, j);
    var m := Moved(i, j);
    if SameSet(r, a, b) {
      var k :| 0 <= k < |r| && a in r[k] && b in r[k];
      JoinedAt(sets, i, j, k);
      if k != m {
        var k' := if k < j then k else k + 1;
        assert a in sets[k'] && b in sets[k'];
      }
    }
    if SameSet(sets, a, b) {
      var k :| 0 <= k < |sets| && a in sets[k] && b in sets[k];
      if k != i && k != j {
        JoinedAt(sets, i, j, Moved(k, j));
        assert a in r[Moved(k, j)] && b in r[Moved(k, j)];
      }
    }
    JoinedAt(sets, i, j, m);
    if (a in sets[i] || a in sets[j]) && (b in sets[i] || b in sets[j]) {
      assert a in r[m] && b in r[m];
    }
  }

  lemma JoinedPartition<T>(sets: seq<seq<T>>, i: nat, j: nat)
    requires Partition(sets) && i < |sets| && j < |sets| && i != j
    ensures Partition(Joined(sets, i, j))
  {
    var r := Joined(sets, i, j);
    var m := Moved(i, j);
    forall k | 0 <= k < |r|
      ensures r[k] == (if k == m then sets[i] + sets[j] else sets[if k < j then k else k + 1])
    {
      JoinedAt(sets, i, j, k);
    }
    forall k | 0 <= k < |r|
      ensures NoDuplicates(r[k])
    {
      if k == m {
        forall a, b | 0 <= a < b < |r[k]|
          ensures r[k][a] != r[k][b]
        {
          if b >= |sets[i]| && a < |sets[i]| {
            assert r[k][a] in sets[i] && r[k][b] in sets[j];
          }
        }
      }
    }
    forall k1, k2, x | 0 <= k1 < |r| && 0 <= k2 < |r| && x in r[k1] && x in r[k2]
      ensures k1 == k2
    {
    }
  }

  lemma JoinedElements<T>(sets: seq<seq<T>>, i: nat, j: nat)
    requires i < |sets| && j < |sets| && i != j
    ensures Elements(Joined(sets, i, j)) == Elements(sets)
  {
    var r := Joined(sets, i, j);
    var m := Moved(i, j);
    forall x | x in Elements(r)
      ensures x in Elements(sets)
    {
      var k :| 0 <= k < |r| && x in r[k];
      JoinedAt(sets, i, j, k);
      if k == m {
        assert x in sets[i] || x in sets[j];
      } else {
        assert x in sets[if k < j then k else k + 1];
      }
    }
    forall x | x in Elements(sets)
      ensures x in Elements(r)
    {
      var k :| 0 <= k < |sets| && x in sets[k];
      if k == i || k == j {
        JoinedAt(sets, i, j, m);
        assert x in r[m];
      } else {
        JoinedAt(sets, i, j, Moved(k, j));
        assert x in r[Moved(k, j)];
      }
    }
  }

  /** Two sets of a partition with the same items are the same set; so the
      source's comparison of sorted sets compares sets by position. */
  lemma SameItemsSameSet<T>(sets: seq<seq<T>>, i: nat, j: nat)
    requires Partition(sets) && i < |sets| && j < |sets|
    ensures multiset(sets[i]) == multiset(sets[j]) <==> i == j
  {
    if multiset(sets[i]) == multiset(sets[j]) {
      var x := sets[i][0];
      assert x in multiset(sets[i]);
      assert x in sets[j];
    }
  }

  class Dsu<T(==)> {
    var sets: seq<seq<T>>

    ghost predicate Valid()
      reads this
    {
      Partition(sets)
    }

    /** One singleton per distinct node. The source takes the nodes through a
        hash set, so the order of the singletons is not specified here. */
    constructor (nodes: seq<T>)
      ensures Valid()
      ensures Elements(sets) == set x | x in nodes
      ensures forall i :: 0 <= i < |sets| ==> |sets[i]| == 1
    {
      var acc: seq<seq<T>> := [];
      for n := 0 to |nodes|
        invariant Partition(acc)
        invariant forall i :: 0 <= i < |acc| ==> |acc[i]| == 1
        invariant Elements(acc) == set x | x in nodes[..n]
      {
        assert nodes[..n + 1] == nodes[..n] + [nodes[n]];
        if !Listed(acc, nodes[n]) {
          ElementsSnoc(acc, [nodes[n]]);
          acc := acc + [[nodes[n]]];
        }
      }
      assert nodes[..|nodes|] == nodes;
      sets := acc;
    }

    /** The position of the set holding item, or None (_get_index). */
    method GetIndex(item: T) returns (r: Option<nat>)
      ensures r == IndexOf(sets, item)
    {
      for i := 0 to |sets|
        invariant IndexFrom(sets, item, 0) == IndexFrom(sets, item, i)
      {
        for k := 0 to |sets[i]|
          invariant item !in sets[i][..k]
        {
          if sets[i][k] == item {
            return Some(i);
          }
        }
        assert sets[i][..|sets[i]|] == sets[i];
      }
      return None;
    }

    /** The set holding item, or None. */
    method Find(item: T) returns (r: Option<seq<T>>)
      ensures IndexOf(sets, item).None? ==> r.None?
      ensures IndexOf(sets, item).Some? ==> r == Some(sets[IndexOf(sets, item).value])
    {
      for i := 0 to |sets|
        invariant IndexFrom(sets, item, 0) == IndexFrom(sets, item, i)
      {
        if item in sets[i] {
          return Some(sets[i]);
        }
      }
      return None;
    }

    /** The 1-based position of the set holding item, or None. */
    method FindSet(item: T) returns (r: Option<nat>)
      ensures IndexOf(sets, item).None? ==> r.None?
      ensures IndexOf(sets, item).Some? ==> r == Some(IndexOf(sets, item).value + 1)
    {
      var i := GetIndex(item);
      if i.Some? {
        r := Some(i.value + 1);
      } else {
        r := None;
      }
    }

    /** join: fails, changing nothing, when exactly one item is absent. */
    method Join(item1: T, item2: T) returns (ok: bool)
      requires Valid()
      modifies this
      ensures Valid()
      ensures ok <==> JoinSets(old(sets), item1, item2).Some?
      ensures ok ==> sets == JoinSets(old(sets), item1, item2).value
      ensures !ok ==> sets == old(sets)
    {
      IndexOfSpec(sets, item1);
      IndexOfSpec(sets, item2);
      if item1 in Elements(sets) && item2 in Elements(sets) {
        JoinSetsFacts(sets, item1, item2);
      }
      var i := GetIndex(item1);
      var j := GetIndex(item2);
      if i != j {
        if i.None? || j.None? {
          return false;
        }
        var merged := sets[i.value := sets[i.value] + sets[j.value]];
        sets := merged[..j.value] + merged[j.value + 1..];
      }
      return true;
    }

    method Get() returns (r: seq<seq<T>>)
      ensures r == sets
    {
      r := sets;
    }
  }

  /** Whether some set holds x. */
  predicate Listed<T(==)>(sets: seq<seq<T>>, x: T) {
    exists i :: 0 <= i < |sets| && x in sets[i]
  }
}
