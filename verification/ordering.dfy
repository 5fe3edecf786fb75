/**
 * `dicom_files.sort(key=lambda x: x[0].InstanceNumber)`: Python's stable
 * sort by instance number, and what it guarantees for the duplicate removal
 * that follows it.
 */
module Ordering {
  import opened Wrappers
  import opened Slices
  import opened Grouping
  import opened Dedup

  predicate SortedByInstance(s: seq<Slice>) {
    forall i, j :: 0 <= i < j < |s| ==> s[i].instance <= s[j].instance
  }

  predicate StrictlyIncreasing(ks: seq<int>) {
    forall i, j :: 0 <= i < j < |ks| ==> ks[i] < ks[j]
  }

  /** Places `x` after every slice whose instance number is not larger than its own. */
  function Insert(x: Slice, r: seq<Slice>): (t: seq<Slice>)
    ensures multiset(t) == multiset(r) + multiset{x}
    decreases |r|
  {
    if r == [] || r[|r| - 1].instance <= x.instance then r + [x]
    else
      assert r == r[..|r| - 1] + [r[|r| - 1]];
      Insert(x, r[..|r| - 1]) + [r[|r| - 1]]
  }

  /** Insertion sort, taking the slices in input order. */
  function SortByInstance(s: seq<Slice>): (r: seq<Slice>)
    ensures multiset(r) == multiset(s)
    decreases |s|
  {
    if s == [] then []
    else
      assert s == s[..|s| - 1] + [s[|s| - 1]];
      Insert(s[|s| - 1], SortByInstance(s[..|s| - 1]))
  }

  lemma {:induction false} InsertKeepsSorted(x: Slice, r: seq<Slice>)
    requires SortedByInstance(r)
    ensures SortedByInstance(Insert(x, r))
    decreases |r|
  {
    if r != [] && r[|r| - 1].instance > x.instance {
      var r' := r[..|r| - 1];
      var y := r[|r| - 1];
      InsertKeepsSorted(x, r');
      var t' := Insert(x, r');
      forall z | z in t' ensures z.instance <= y.instance {
        assert z in multiset(t');
        if z != x {
          assert z in multiset(r');
        }
      }
    }
  }

  /** The sort yields instance numbers in non-decreasing order, and a permutation of its input. */
  lemma {:induction false} SortIsSorted(s: seq<Slice>)
    ensures SortedByInstance(SortByInstance(s))
    ensures multiset(SortByInstance(s)) == multiset(s)
    decreases |s|
  {
    if s != [] {
      SortIsSorted(s[..|s| - 1]);
      InsertKeepsSorted(s[|s| - 1], SortByInstance(s[..|s| - 1]));
    }
  }

  /** Inserting `x` adds it at the end of its own group and leaves every other group alone. */
  lemma {:induction false} InsertGroup(x: Slice, r: seq<Slice>, k: int)
    ensures Group(Insert(x, r), k) == Group(r, k) + GroupPart(x, k)
    decreases |r|
  {
    if r == [] || r[|r| - 1].instance <= x.instance {
      assert Insert(x, r) == r + [x];
      GroupSnoc(r, x, k);
    } else {
      var r', y := r[..|r| - 1], r[|r| - 1];
      assert r == r' + [y];
      assert Insert(x, r) == Insert(x, r') + [y];
      InsertGroup(x, r', k);
      InsertGroupStep(x, y, r', Insert(x, r'), k);
    }
  }

  /** Moving `x` in front of a later slice `y` of another instance number leaves every list as it was. */
  lemma InsertGroupStep(x: Slice, y: Slice, r': seq<Slice>, t': seq<Slice>, k: int)
    requires x.instance != y.instance
    requires Group(t', k) == Group(r', k) + GroupPart(x, k)
    ensures Group(t' + [y], k) == Group(r' + [y], k) + GroupPart(x, k)
  {
    GroupSnoc(t', y, k);
    GroupSnoc(r', y, k);
    var a, px, py := Group(r', k), GroupPart(x, k), GroupPart(y, k);
    if x.instance == k {
      assert py == [];
      assert (a + px) + py == a + px && a + py == a;
    } else {
      assert px == [];
      assert (a + px) + py == a + py && (a + py) + px == a + py;
    }
  }

  /**
   * Stability: the slices sharing an instance number keep their input order.
   * So the group `remove_duplicates` builds for a key lists the duplicates in
   * the order the directory listing produced them.
   */
  lemma {:induction false} SortIsStable(s: seq<Slice>, k: int)
    ensures Group(SortByInstance(s), k) == Group(s, k)
    decreases |s|
  {
    if s != [] {
      SortIsStable(s[..|s| - 1], k);
      InsertGroup(s[|s| - 1], SortByInstance(s[..|s| - 1]), k);
    }
  }

  /** The dictionary keys of a sorted list come out in strictly increasing order. */
  lemma {:induction false} SortedKeysIncrease(s: seq<Slice>)
    requires SortedByInstance(s)
    ensures StrictlyIncreasing(Keys(s))
    decreases |s|
  {
    if s != [] {
      var s' := s[..|s| - 1];
      var x := s[|s| - 1];
      SortedKeysIncrease(s');
      var ks, ks' := Keys(s), Keys(s');
      if x.instance !in ks' {
        assert ks == ks' + [x.instance];
        forall i | 0 <= i < |ks'| ensures ks'[i] < x.instance {
          assert ks'[i] in Instances(s');
          var m :| 0 <= m < |s'| && Instances(s')[m] == ks'[i];
          assert s'[m] == s[m];
        }
      }
    }
  }

  /** Sorting keeps the set of instance numbers. */
  lemma SortKeepsInstances(s: seq<Slice>)
    ensures forall k :: k in Instances(SortByInstance(s)) <==> k in Instances(s)
  {
    var t := SortByInstance(s);
    forall k ensures k in Instances(t) <==> k in Instances(s) {
      if k in Instances(t) {
        var i :| 0 <= i < |t| && Instances(t)[i] == k;
        assert t[i] in multiset(s);
      }
      if k in Instances(s) {
        var i :| 0 <= i < |s| && Instances(s)[i] == k;
        assert s[i] in multiset(t);
      }
    }
  }

  /** A slice kept after sorting is the representative of its duplicates taken in input order. */
  lemma SortedRepresentative(p: Policy, s: seq<Slice>, x: Slice)
    requires Deduplicate(p, SortByInstance(s)).Some?
    requires x in Deduplicate(p, SortByInstance(s)).value
    ensures x in s
    ensures |Group(s, x.instance)| > 0
    ensures Some(x) == Representative(p, Group(s, x.instance))
  {
    var t := SortByInstance(s);
    var d := Deduplicate(p, t).value;
    var r := RemoveDuplicates(p, t);
    var i :| 0 <= i < |d| && d[i] == x;
    assert r[i] == Some(x);
    assert x in multiset(t);
    SortIsStable(s, x.instance);
  }

  /**
   * Sorting and then removing duplicates yields strictly increasing instance
   * numbers, one per distinct instance number of the input, each taken from
   * the input and chosen from its duplicates in their original order.
   */
  lemma SortThenDedup(p: Policy, s: seq<Slice>)
    requires Deduplicate(p, SortByInstance(s)).Some?
    ensures StrictlyIncreasing(Instances(Deduplicate(p, SortByInstance(s)).value))
    ensures forall k :: k in Instances(Deduplicate(p, SortByInstance(s)).value) <==> k in Instances(s)
    ensures forall x :: x in Deduplicate(p, SortByInstance(s)).value ==>
      x in s && |Group(s, x.instance)| > 0 && Some(x) == Representative(p, Group(s, x.instance))
  {
    var t := SortByInstance(s);
    var d := Deduplicate(p, t).value;
    SortIsSorted(s);
    SortedKeysIncrease(t);
    OnePerInstance(p, t);
    SortKeepsInstances(s);
    forall x | x in d ensures x in s && |Group(s, x.instance)| > 0 && Some(x) == Representative(p, Group(s, x.instance)) {
      SortedRepresentative(p, s, x);
    }
  }
}
