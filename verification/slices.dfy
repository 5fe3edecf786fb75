/**
 * The slice record the curation pipeline works on, and the two pipeline
 * variants of `pre_processing_py.py`: the module-level functions (window of
 * 20, intensity-based duplicate resolution) and the `HandScanDataset2`
 * methods (window of 32, contrast-tag duplicate resolution).
 */
module Slices {
  import opened Wrappers

  /** A numpy array shape, `(rows, columns)`. */
  datatype Shape = Shape(rows: nat, cols: nat)

  /**
   * One DICOM slice after it has been read: its `InstanceNumber`, the sum of
   * its pixel array, its `ContrastBolusAgent` tag when the file has one, and
   * the shape of its pixel array.
   */
  datatype Slice = Slice(instance: int, intensity: int, agent: Option<string>, shape: Shape)

  /** The contrast agent the `HandScanDataset2` duplicate resolver looks for. */
  const ReferenceAgent: string := "DOTAREM"

  predicate Tagged(x: Slice) {
    x.agent == Some(ReferenceAgent)
  }

  /** A pixel array with a zero-sized dimension. */
  predicate Degenerate(sh: Shape) {
    sh.rows == 0 || sh.cols == 0
  }

  /** Shape of every processed image: PIL `resize((384, 512))` gives 512 rows of 384 pixels. */
  const Target: Shape := Shape(512, 384)

  /** The pad shape `HandScanDataset2.get_best_patient_images` starts from. */
  const ClassDefaultShape: Shape := Shape(512, 352)

  /** Instance numbers of a list of slices, position by position. */
  function Instances(s: seq<Slice>): (r: seq<int>)
    ensures |r| == |s|
    ensures forall i :: 0 <= i < |s| ==> r[i] == s[i].instance
    decreases |s|
  {
    if s == [] then [] else Instances(s[..|s| - 1]) + [s[|s| - 1].instance]
  }

  /** The two pipelines of the source. */
  datatype Variant = ModuleLevel | DatasetClass

  /** `seq_len` of each pipeline. */
  function SeqLen(v: Variant): nat {
    match v
    case ModuleLevel => 20
    case DatasetClass => 32
  }

  /**
   * The value `img_shape` holds before any folder is processed: unbound in
   * the module-level function, `(512, 352)` in the dataset class.
   */
  function InitialPadShape(v: Variant): Option<Shape> {
    match v
    case ModuleLevel => None
    case DatasetClass => Some(ClassDefaultShape)
  }

  /** The exceptions the core raises. */
  datatype Error =
    | IndexError          // dataset index outside the list of patient IDs
    | TypeError           // a `None` left by duplicate resolution is unpacked as a pair
    | UnboundLocalError   // padding is needed before `img_shape` was ever assigned
    | ValueError(patientId: string)  // no images at all for a patient
    | InhomogeneousShape  // the ValueError of `np.array` stacking frames of different shapes
}
