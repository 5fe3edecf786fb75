/**
 * The `defaultdict(list)` that `remove_duplicates` fills: one key per
 * distinct instance number, in the order the keys were first inserted, and
 * for each key the list of slices carrying it, in input order.
 */
module Grouping {
  import opened Slices

  predicate Distinct(ks: seq<int>) {
    forall i, j :: 0 <= i < j < |ks| ==> ks[i] != ks[j]
  }

  /** Keys of the dictionary after every slice has been appended to its list. */
  function Keys(s: seq<Slice>): (ks: seq<int>)
    ensures forall k :: k in ks <==> k in Instances(s)
    ensures Distinct(ks)
    ensures |ks| <= |s|
    decreases |s|
  {
    if s == [] then []
    else
      var ks := Keys(s[..|s| - 1]);
      if s[|s| - 1].instance in ks then ks else ks + [s[|s| - 1].instance]
  }

  /** The position of the first slice with instance number `k`. */
  function FirstIndex(s: seq<Slice>, k: int): (p: nat)
    requires k in Instances(s)
    ensures p < |s| && s[p].instance == k
    ensures forall q :: 0 <= q < p ==> s[q].instance != k
    decreases |s|
  {
    if k in Instances(s[..|s| - 1]) then FirstIndex(s[..|s| - 1], k) else |s| - 1
  }

  /** The list `instance_dict[k]`: the slices with instance number `k`, in input order. */
  function Group(s: seq<Slice>, k: int): (g: seq<Slice>)
    ensures |g| <= |s|
    decreases |s|
  {
    if s == [] then []
    else Group(s[..|s| - 1], k) + GroupPart(s[|s| - 1], k)
  }

  /** What one slice adds to the list of key `k`. */
  function GroupPart(x: Slice, k: int): (g: seq<Slice>)
    ensures g == [] || g == [x]
  {
    if x.instance == k then [x] else []
  }

  /** Appending a slice to the input appends it to its own list only. */
  lemma GroupSnoc(a: seq<Slice>, z: Slice, k: int)
    ensures Group(a + [z], k) == Group(a, k) + GroupPart(z, k)
  {
    assert (a + [z])[..|a + [z]| - 1] == a;
  }

  /** Python dictionaries iterate in insertion order: keys come out in order of first appearance. */
  lemma {:induction false} KeysInFirstAppearanceOrder(s: seq<Slice>)
    ensures forall i, j :: 0 <= i < j < |Keys(s)| ==>
      FirstIndex(s, Keys(s)[i]) < FirstIndex(s, Keys(s)[j])
    decreases |s|
  {
    if s != [] {
      var s' := s[..|s| - 1];
      KeysInFirstAppearanceOrder(s');
      var ks, ks' := Keys(s), Keys(s');
      forall i, j | 0 <= i < j < |ks| ensures FirstIndex(s, ks[i]) < FirstIndex(s, ks[j]) {
        assert ks[i] in ks' by {
          assert i < |ks'|;
          assert ks[i] == ks'[i];
        }
        if j < |ks'| {
          assert ks[j] == ks'[j];
        } else {
          assert ks[j] !in Instances(s');
        }
      }
    }
  }

  /** The list of key `k` holds slices of the input with instance number `k`. */
  lemma {:induction false} GroupMembers(s: seq<Slice>, k: int)
    ensures forall x :: x in Group(s, k) ==> x in s && x.instance == k
    decreases |s|
  {
    if s != [] {
      GroupMembers(s[..|s| - 1], k);
    }
  }

  /** Every slice of the input sits in the list of its own instance number. */
  lemma {:induction false} GroupIsComplete(s: seq<Slice>, k: int)
    ensures forall i :: 0 <= i < |s| && s[i].instance == k ==> s[i] in Group(s, k)
    decreases |s|
  {
    if s != [] {
      var s' := s[..|s| - 1];
      GroupIsComplete(s', k);
      forall i | 0 <= i < |s| && s[i].instance == k ensures s[i] in Group(s, k) {
        if i < |s| - 1 {
          assert s[i] == s'[i];
        }
      }
    }
  }

  /** A key has a non-empty list exactly when some slice of the input carries it. */
  lemma GroupNonEmpty(s: seq<Slice>, k: int)
    ensures |Group(s, k)| > 0 <==> k in Instances(s)
  {
  }

  lemma AllGroupsNonEmpty(s: seq<Slice>)
    ensures forall k :: |Group(s, k)| > 0 <==> k in Instances(s)
  {
    forall k ensures |Group(s, k)| > 0 <==> k in Instances(s) {
      GroupNonEmpty(s, k);
    }
  }

  /** The first member of a list is the first slice of the input with that key. */
  lemma {:induction false} GroupStartsAtFirstOccurrence(s: seq<Slice>, k: int)
    requires k in Instances(s)
    ensures |Group(s, k)| > 0
    ensures Group(s, k)[0] == s[FirstIndex(s, k)]
    decreases |s|
  {
    GroupNonEmpty(s, k);
    var s' := s[..|s| - 1];
    GroupNonEmpty(s', k);
    if k in Instances(s') {
      GroupStartsAtFirstOccurrence(s', k);
    }
  }

  /** A one-element list holds the only slice of the input with that key. */
  lemma SingletonGroupIsTheSlice(s: seq<Slice>, k: int)
    requires |Group(s, k)| == 1
    ensures forall i :: 0 <= i < |s| && s[i].instance == k ==> s[i] == Group(s, k)[0]
  {
    GroupIsComplete(s, k);
  }
}
