/**
 * The labelled dataset index (`HandScanDataset` and `HandScanDataset2`):
 * zero-padded patient IDs, binary labels, the ID-to-label dictionary, and
 * per-index access that assembles a patient's frames.
 */
module Dataset {
  import opened Wrappers
  import opened Slices
  import opened Windowing
  import opened Assembly

  /** One row of the labels table: `patient ID` (already rendered as text) and `progression`. */
  datatype Row = Row(patientId: string, progression: string)

  /** `patient_ids` and `labels`, position by position. */
  datatype Index = Index(ids: seq<string>, labels: seq<int>)

  predicate Valid(ix: Index) {
    |ix.ids| == |ix.labels|
  }

  /** Width of a patient directory name. */
  const IdWidth: nat := 5

  function ZeroRun(n: nat): (z: string)
    ensures |z| == n && forall i :: 0 <= i < n ==> z[i] == '0'
  {
    seq(n, _ => '0')
  }

  predicate HasSign(s: string) {
    |s| > 0 && (s[0] == '+' || s[0] == '-')
  }

  /**
   * `str.zfill(width)`: zeros on the left up to `width` characters, inserted
   * after a leading `+` or `-`; a string already that long is unchanged.
   */
  function ZFill(s: string, width: nat): (r: string)
    ensures |r| == if |s| >= width then |s| else width
    ensures |s| >= width ==> r == s
    ensures |s| < width && !HasSign(s) ==>
      r[width - |s|..] == s && forall i :: 0 <= i < width - |s| ==> r[i] == '0'
    ensures |s| < width && HasSign(s) ==>
      r[0] == s[0] && r[width - |s| + 1..] == s[1..] && forall i :: 1 <= i <= width - |s| ==> r[i] == '0'
  {
    if |s| >= width then s
    else if HasSign(s) then [s[0]] + ZeroRun(width - |s|) + s[1..]
    else ZeroRun(width - |s|) + s
  }

  /** `1 if x == 'y' else 0`. */
  function Label(progression: string): (l: int)
    ensures l == 1 <==> progression == "y"
    ensures l == 0 <==> progression != "y"
  {
    if progression == "y" then 1 else 0
  }

  /** The lists `__init__` builds from the labels table. */
  function Build(rows: seq<Row>): (ix: Index)
    ensures Valid(ix) && |ix.ids| == |rows|
    ensures forall i :: 0 <= i < |rows| ==> ix.ids[i] == ZFill(rows[i].patientId, IdWidth)
    ensures forall i :: 0 <= i < |rows| ==> |ix.ids[i]| >= IdWidth
    ensures forall i :: 0 <= i < |rows| ==> (ix.labels[i] == 1 <==> rows[i].progression == "y")
    ensures forall i :: 0 <= i < |rows| ==> ix.labels[i] in {0, 1}
  {
    Index(seq(|rows|, i requires 0 <= i < |rows| => ZFill(rows[i].patientId, IdWidth)),
          seq(|rows|, i requires 0 <= i < |rows| => Label(rows[i].progression)))
  }

  /** `__len__`. */
  function Length(ix: Index): nat {
    |ix.ids|
  }

  /** The dataset has one entry per row of the labels table. */
  lemma LengthIsRowCount(rows: seq<Row>)
    ensures Length(Build(rows)) == |rows|
  {
  }

  /** The ID of a row is not repeated further down the table. */
  predicate LastOccurrence(ids: seq<string>, i: nat)
    requires i < |ids|
  {
    forall j :: i < j < |ids| ==> ids[j] != ids[i]
  }

  /** `dict(zip(patient_ids, labels))`: a later row overwrites an earlier one with the same ID. */
  function LabelMap(ids: seq<string>, labels: seq<int>): (m: map<string, int>)
    requires |ids| == |labels|
    ensures m.Keys == set i | 0 <= i < |ids| :: ids[i]
    decreases |ids|
  {
    if ids == [] then map[]
    else
      var n := |ids| - 1;
      var m := LabelMap(ids[..n], labels[..n]);
      assert (set i | 0 <= i < |ids| :: ids[i]) == (set i | 0 <= i < n :: ids[..n][i]) + {ids[n]};
      m[ids[n] := labels[n]]
  }

  /** The label stored for an ID is the one on the last row carrying that ID. */
  lemma {:induction false} LabelMapLastRowWins(ids: seq<string>, labels: seq<int>)
    requires |ids| == |labels|
    ensures forall i :: 0 <= i < |ids| && LastOccurrence(ids, i) ==> LabelMap(ids, labels)[ids[i]] == labels[i]
    decreases |ids|
  {
    if ids != [] {
      var n := |ids| - 1;
      var ids', labels' := ids[..n], labels[..n];
      LabelMapLastRowWins(ids', labels');
      forall i | 0 <= i < |ids| && LastOccurrence(ids, i)
        ensures LabelMap(ids, labels)[ids[i]] == labels[i]
      {
        if i < n {
          assert ids'[i] == ids[i] && labels'[i] == labels[i];
          assert LastOccurrence(ids', i);
          assert ids[n] != ids[i];
        }
      }
    }
  }

  /** Python list indexing: negative indices count from the end. */
  function PyIndex(n: nat, idx: int): (r: Option<nat>)
    ensures r.Some? <==> -(n as int) <= idx < n
    ensures r.Some? ==> r.value < n && (r.value == idx || r.value == idx + n)
  {
    if 0 <= idx < n then Some(idx)
    else if -(n as int) <= idx < 0 then Some(idx + n)
    else None
  }

  /** What `__getitem__` hands back: the module class returns the label, the second class only the frames. */
  datatype Item = Labelled(volume: seq<Frame>, progression: int) | Unlabelled(volume: seq<Frame>)

  /** The `t1_vibe_we` folders found under a patient directory; a missing directory has none. */
  function PatientFolders(disk: map<string, seq<seq<Slice>>>, id: string): seq<seq<Slice>> {
    if id in disk then disk[id] else []
  }

  /**
   * `__getitem__`: look up the patient at `idx`, assemble the frames, and
   * raise ValueError when there are none.
   */
  function GetItem(v: Variant, ix: Index, idx: int, disk: map<string, seq<seq<Slice>>>): (r: Result<Item, Error>)
    requires Valid(ix)
    ensures r == Failure(IndexError) <==> !(-(|ix.ids| as int) <= idx < |ix.ids|)
    ensures r.Failure? && r.error != IndexError ==>
      var folders := PatientFolders(disk, ix.ids[PyIndex(|ix.ids|, idx).value]);
      GetBestPatientImages(v, folders).Failure? ==> r.error == GetBestPatientImages(v, folders).error
    ensures r.Success? ==>
      var k := PyIndex(|ix.ids|, idx).value;
      var folders := PatientFolders(disk, ix.ids[k]);
      && GetBestPatientImages(v, folders) == Success(r.value.volume)
      && |r.value.volume| == SeqLen(v) * CountQualifying(v, folders)
      && |r.value.volume| > 0
      && (v == ModuleLevel <==> r.value.Labelled?)
      && (r.value.Labelled? ==> r.value.progression == ix.labels[k])
    ensures PyIndex(|ix.ids|, idx).Some? ==>
      var k := PyIndex(|ix.ids|, idx).value;
      var folders := PatientFolders(disk, ix.ids[k]);
      GetBestPatientImages(v, folders).Success? ==>
        && (r.Success? <==> |GetBestPatientImages(v, folders).value| > 0)
        && (r.Failure? ==> r.error == ValueError(ix.ids[k]))
  {
    match PyIndex(|ix.ids|, idx)
    case None => Failure(IndexError)
    case Some(k) =>
      var id := ix.ids[k];
      var folders := PatientFolders(disk, id);
      match GetBestPatientImages(v, folders)
      case Failure(e) => Failure(e)
      case Success(frames) =>
        AssembledLength(v, InitialPadShape(v), folders);
        if |frames| == 0 then Failure(ValueError(id))
        else if v == ModuleLevel then Success(Labelled(frames, ix.labels[k]))
        else Success(Unlabelled(frames))
  }

  /**
   * For a patient whose folders assemble without error, `__getitem__` raises
   * ValueError exactly when no folder has a best slice.
   */
  lemma NoQualifyingFolderRaises(v: Variant, ix: Index, k: nat, disk: map<string, seq<seq<Slice>>>)
    requires Valid(ix) && k < |ix.ids|
    requires GetBestPatientImages(v, PatientFolders(disk, ix.ids[k])).Success?
    ensures GetItem(v, ix, k, disk) == Failure(ValueError(ix.ids[k])) <==>
      CountQualifying(v, PatientFolders(disk, ix.ids[k])) == 0
  {
    var folders := PatientFolders(disk, ix.ids[k]);
    var frames := GetBestPatientImages(v, folders).value;
    AssembledLength(v, InitialPadShape(v), folders);
    var n, c := SeqLen(v), CountQualifying(v, folders);
    assert n > 0;
    assert |frames| == n * c;
    assert n * c == 0 <==> c == 0;
    assert PyIndex(|ix.ids|, k) == Some(k);
  }

  /** A patient without any `t1_vibe_we` folder raises ValueError. */
  lemma MissingFoldersRaise(v: Variant, ix: Index, k: nat, disk: map<string, seq<seq<Slice>>>)
    requires Valid(ix) && k < |ix.ids|
    requires ix.ids[k] !in disk
    ensures GetItem(v, ix, k, disk) == Failure(ValueError(ix.ids[k]))
  {
  }
}
