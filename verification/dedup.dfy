/**
 * Duplicate resolution (`remove_duplicates` and its `HandScanDataset2`
 * twin): one entry per distinct instance number, chosen from the slices that
 * share it.
 */
module Dedup {
  import opened Wrappers
  import opened Slices
  import opened Selection
  import opened Grouping

  /** How a group of duplicates is reduced to one slice. */
  datatype Policy = MaxIntensity | ContrastTag

  /** The policy each pipeline uses for duplicates. */
  function DedupPolicy(v: Variant): Policy {
    match v
    case ModuleLevel => MaxIntensity
    case DatasetClass => ContrastTag
  }

  /** `r` is what the intensity scan yields for `g`. */
  ghost predicate IntensityChoice(g: seq<Slice>, r: Option<Slice>) {
    || (r.None? && NoneAboveSeed(g))
    || (r.Some? && exists k :: IsFirstMax(g, k) && r.value == g[k])
  }

  /** `r` is what the contrast search yields for `g`. */
  ghost predicate ContrastChoice(g: seq<Slice>, r: Slice)
    requires |g| > 0
  {
    || (NoneTagged(g) && r == g[0])
    || (exists k :: IsFirstTagged(g, k) && r == g[k])
  }

  /**
   * `e` is the entry the source keeps for the group `g`: a single slice is
   * kept as it is; a larger group goes through the pipeline's best-slice
   * function, which for the intensity policy may give `None`.
   */
  ghost predicate ChosenFrom(p: Policy, g: seq<Slice>, e: Option<Slice>) {
    && |g| > 0
    && (|g| == 1 ==> e == Some(g[0]))
    && (|g| > 1 && p == MaxIntensity ==> IntensityChoice(g, e))
    && (|g| > 1 && p == ContrastTag ==> e.Some? && ContrastChoice(g, e.value))
  }

  /** The entry kept for one group of slices sharing an instance number. */
  function Representative(p: Policy, g: seq<Slice>): (r: Option<Slice>)
    requires |g| > 0
    ensures ChosenFrom(p, g, r)
    ensures r.Some? ==> r.value in g
  {
    if |g| > 1 then
      match p
      case MaxIntensity => FindBestSlice(g)
      case ContrastTag => Some(FindTaggedSlice(g))
    else Some(g[0])
  }

  /**
   * `remove_duplicates`: the list of chosen entries, one per dictionary key,
   * in key order. An entry is `None` when the intensity scan found nothing
   * in a group of two or more.
   */
  function RemoveDuplicates(p: Policy, s: seq<Slice>): (r: seq<Option<Slice>>)
    ensures |r| == |Keys(s)|
    ensures forall i :: 0 <= i < |r| ==> ChosenFrom(p, Group(s, Keys(s)[i]), r[i])
    ensures forall i :: 0 <= i < |r| && r[i].Some? ==>
      r[i].value in s && r[i].value.instance == Keys(s)[i]
  {
    AllGroupsNonEmpty(s);
    EntriesChosen(p, s, Keys(s));
    Entries(p, s, Keys(s))
  }

  /** One entry per key of `ks`, each chosen from the group of that key. */
  function Entries(p: Policy, s: seq<Slice>, ks: seq<int>): (r: seq<Option<Slice>>)
    requires forall k :: k in ks ==> |Group(s, k)| > 0
    ensures |r| == |ks|
    ensures forall i :: 0 <= i < |r| ==> r[i] == Representative(p, Group(s, ks[i]))
  {
    seq(|ks|, i requires 0 <= i < |ks| => Representative(p, Group(s, ks[i])))
  }

  lemma EntriesChosen(p: Policy, s: seq<Slice>, ks: seq<int>)
    requires forall k :: k in ks ==> |Group(s, k)| > 0
    ensures forall i :: 0 <= i < |ks| ==> ChosenFrom(p, Group(s, ks[i]), Entries(p, s, ks)[i])
    ensures forall i :: 0 <= i < |ks| && Entries(p, s, ks)[i].Some? ==>
      Entries(p, s, ks)[i].value in s && Entries(p, s, ks)[i].value.instance == ks[i]
  {
    var r := Entries(p, s, ks);
    forall i | 0 <= i < |ks|
      ensures ChosenFrom(p, Group(s, ks[i]), r[i])
      ensures r[i].Some? ==> r[i].value in s && r[i].value.instance == ks[i]
    {
      assert r[i] == Representative(p, Group(s, ks[i]));
      GroupMembers(s, ks[i]);
    }
  }

  /**
   * The `for dicom_file, image_path in dicom_files` that follows duplicate
   * removal: unpacking a `None` entry raises TypeError, modelled as `None`.
   */
  function Unpack(r: seq<Option<Slice>>): (d: Option<seq<Slice>>)
    ensures d.Some? <==> forall i :: 0 <= i < |r| ==> r[i].Some?
    ensures d.Some? ==> |d.value| == |r| && forall i :: 0 <= i < |r| ==> r[i] == Some(d.value[i])
  {
    if forall i :: 0 <= i < |r| ==> r[i].Some? then
      Some(seq(|r|, i requires 0 <= i < |r| => r[i].value))
    else None
  }

  /**
   * Duplicate removal followed by unpacking; `None` stands for the TypeError.
   * A result holds one slice per key, in key order, each from the input.
   */
  function Deduplicate(p: Policy, s: seq<Slice>): (d: Option<seq<Slice>>)
    ensures d.None? <==> exists i :: 0 <= i < |Keys(s)| && RemoveDuplicates(p, s)[i].None?
    ensures d.Some? ==> |d.value| == |Keys(s)|
    ensures d.Some? ==> forall i :: 0 <= i < |d.value| ==> d.value[i] in s && d.value[i].instance == Keys(s)[i]
  {
    Unpack(RemoveDuplicates(p, s))
  }

  /**
   * When unpacking succeeds, the result has exactly one slice per distinct
   * instance number, listed in order of first appearance, and each slice
   * comes from the input.
   */
  lemma OnePerInstance(p: Policy, s: seq<Slice>)
    requires Deduplicate(p, s).Some?
    ensures Instances(Deduplicate(p, s).value) == Keys(s)
    ensures Distinct(Instances(Deduplicate(p, s).value))
    ensures forall k :: k in Instances(Deduplicate(p, s).value) <==> k in Instances(s)
    ensures forall x :: x in Deduplicate(p, s).value ==> x in s
    ensures var d := Deduplicate(p, s).value;
      forall i, j :: 0 <= i < j < |d| ==> FirstIndex(s, d[i].instance) < FirstIndex(s, d[j].instance)
  {
    var d := Deduplicate(p, s).value;
    var r := RemoveDuplicates(p, s);
    KeysInFirstAppearanceOrder(s);
    forall x | x in d ensures x in s {
      var i :| 0 <= i < |d| && d[i] == x;
      assert r[i] == Some(x);
    }
  }

  /** The contrast policy always yields a slice, so unpacking never fails. */
  lemma ContrastNeverFails(s: seq<Slice>)
    ensures Deduplicate(ContrastTag, s).Some?
  {
  }

  /**
   * The intensity policy fails exactly when some group of two or more
   * duplicates has no sum above -1.
   */
  lemma IntensityFailsOnlyOnNegativeGroups(s: seq<Slice>)
    ensures Deduplicate(MaxIntensity, s).None? <==>
      exists i :: 0 <= i < |Keys(s)| && NegativeGroup(s, Keys(s)[i])
  {
    var r := RemoveDuplicates(MaxIntensity, s);
    if Deduplicate(MaxIntensity, s).None? {
      var i :| 0 <= i < |r| && r[i].None?;
      EntryFails(s, i);
    } else {
      forall i | 0 <= i < |Keys(s)| ensures !NegativeGroup(s, Keys(s)[i]) {
        EntryFails(s, i);
      }
    }
  }

  /** A group of two or more slices whose sums all stay at or below the scan's seed. */
  ghost predicate NegativeGroup(s: seq<Slice>, k: int) {
    |Group(s, k)| > 1 && NoneAboveSeed(Group(s, k))
  }

  lemma EntryFails(s: seq<Slice>, i: nat)
    requires i < |Keys(s)|
    ensures RemoveDuplicates(MaxIntensity, s)[i].None? <==> NegativeGroup(s, Keys(s)[i])
  {
  }

  /** In the intensity policy each kept slice has the largest sum among the slices sharing its instance number. */
  lemma IntensityKeepsGroupMaximum(s: seq<Slice>)
    requires Deduplicate(MaxIntensity, s).Some?
    ensures var d := Deduplicate(MaxIntensity, s).value;
      forall i, j :: 0 <= i < |d| && 0 <= j < |s| && s[j].instance == d[i].instance ==>
        s[j].intensity <= d[i].intensity
  {
    var d := Deduplicate(MaxIntensity, s).value;
    forall i, j | 0 <= i < |d| && 0 <= j < |s| && s[j].instance == d[i].instance
      ensures s[j].intensity <= d[i].intensity
    {
      GroupMaximum(s, i, j);
    }
  }

  lemma GroupMaximum(s: seq<Slice>, i: nat, j: nat)
    requires Deduplicate(MaxIntensity, s).Some?
    requires i < |Deduplicate(MaxIntensity, s).value| && j < |s|
    requires s[j].instance == Deduplicate(MaxIntensity, s).value[i].instance
    ensures s[j].intensity <= Deduplicate(MaxIntensity, s).value[i].intensity
  {
    var d := Deduplicate(MaxIntensity, s).value;
    var r := RemoveDuplicates(MaxIntensity, s);
    var key := Keys(s)[i];
    var g := Group(s, key);
    assert r[i] == Some(d[i]);
    assert d[i].instance == key;
    assert ChosenFrom(MaxIntensity, g, r[i]);
    GroupIsComplete(s, key);
    assert s[j] in g;
    var m :| 0 <= m < |g| && g[m] == s[j];
    if |g| > 1 {
      var k :| IsFirstMax(g, k) && d[i] == g[k];
      assert g[m].intensity <= g[k].intensity;
    }
  }
}
