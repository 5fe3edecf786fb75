/**
 * Best-slice selection. Two policies exist in the source: the largest pixel
 * sum (`find_best_slice`, also inlined in `HandScanDataset2`), and the first
 * slice tagged with the reference contrast agent
 * (`HandScanDataset2.find_best_slice`).
 */
module Selection {
  import opened Wrappers
  import opened Slices

  /** The running maximum the intensity scan starts from. */
  const Seed: int := -1

  /**
   * `k` is the first position holding the largest intensity sum, and that sum
   * beats the seed: the slice the intensity scan must settle on.
   */
  predicate IsFirstMax(s: seq<Slice>, k: int) {
    && 0 <= k < |s|
    && s[k].intensity > Seed
    && (forall j :: 0 <= j < |s| ==> s[j].intensity <= s[k].intensity)
    && (forall j :: 0 <= j < k ==> s[j].intensity < s[k].intensity)
  }

  /** No slice has a sum above the seed, so the scan never records a best slice. */
  predicate NoneAboveSeed(s: seq<Slice>) {
    forall j :: 0 <= j < |s| ==> s[j].intensity <= Seed
  }

  /** What the scan knows after looking at the first `i` slices. */
  predicate ScanState(s: seq<Slice>, i: nat, maxSum: int, best: Option<nat>) {
    && i <= |s|
    && match best
       case None => maxSum == Seed && NoneAboveSeed(s[..i])
       case Some(k) => IsFirstMax(s[..i], k) && maxSum == s[k].intensity
  }

  /**
   * The `for` loop of `find_best_slice`: a slice replaces the current best
   * only when its sum is strictly larger, so the first of tied maxima stays.
   */
  function Scan(s: seq<Slice>, i: nat, maxSum: int, best: Option<nat>): (r: Option<nat>)
    requires ScanState(s, i, maxSum, best)
    ensures r.None? <==> NoneAboveSeed(s)
    ensures r.Some? ==> IsFirstMax(s, r.value)
    decreases |s| - i
  {
    if i == |s| then
      assert s[..i] == s;
      best
    else if s[i].intensity > maxSum then
      Scan(s, i + 1, s[i].intensity, Some(i))
    else
      Scan(s, i + 1, maxSum, best)
  }

  /**
   * `find_best_slice`: the slice with the largest intensity sum, the first
   * one on ties, or `None` when the list is empty or no sum exceeds -1.
   */
  function FindBestSlice(s: seq<Slice>): (r: Option<Slice>)
    ensures r.None? <==> NoneAboveSeed(s)
    ensures r.Some? ==> exists k :: IsFirstMax(s, k) && r.value == s[k]
    ensures forall k :: IsFirstMax(s, k) ==> r == Some(s[k])
  {
    assert s[..0] == [];
    match Scan(s, 0, Seed, None)
    case None => None
    case Some(k) =>
      assert forall k' :: IsFirstMax(s, k') ==> k' == k by {
        forall k' | IsFirstMax(s, k') ensures k' == k {
          FirstMaxIsUnique(s, k, k');
        }
      }
      Some(s[k])
  }

  /** At most one position can be the first maximum. */
  lemma FirstMaxIsUnique(s: seq<Slice>, a: int, b: int)
    requires IsFirstMax(s, a) && IsFirstMax(s, b)
    ensures a == b
  {
  }

  /** `k` is the first position tagged with the reference agent. */
  predicate IsFirstTagged(s: seq<Slice>, k: int) {
    && 0 <= k < |s|
    && Tagged(s[k])
    && (forall j :: 0 <= j < k ==> !Tagged(s[j]))
  }

  predicate NoneTagged(s: seq<Slice>) {
    forall j :: 0 <= j < |s| ==> !Tagged(s[j])
  }

  /** The search loop of the contrast policy, stopping at the first tagged slice. */
  function FirstTagged(s: seq<Slice>): (r: Option<nat>)
    ensures r.None? <==> NoneTagged(s)
    ensures r.Some? ==> IsFirstTagged(s, r.value)
    decreases |s|
  {
    if s == [] then None
    else if Tagged(s[0]) then Some(0)
    else
      match FirstTagged(s[1..])
      case None => None
      case Some(k) => Some(k + 1)
  }

  /**
   * `HandScanDataset2.find_best_slice`: the first slice whose contrast agent
   * is `DOTAREM`, otherwise the first slice. The source indexes `[0]`, so the
   * list must not be empty.
   */
  function FindTaggedSlice(s: seq<Slice>): (r: Slice)
    requires |s| > 0
    ensures NoneTagged(s) ==> r == s[0]
    ensures !NoneTagged(s) ==> Tagged(r) && exists k :: IsFirstTagged(s, k) && r == s[k]
  {
    match FirstTagged(s)
    case None => s[0]
    case Some(k) => s[k]
  }
}
