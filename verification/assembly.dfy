/**
 * `get_best_patient_images` (module function and `HandScanDataset2` method):
 * every `t1_vibe_we` folder found under a patient directory is sorted,
 * deduplicated and windowed, and the windows are concatenated in the order
 * the directory walk finds the folders. `img_shape` lives for the whole call,
 * so a folder's padding may take its shape from an earlier folder.
 */
module Assembly {
  import opened Wrappers
  import opened Slices
  import opened Selection
  import opened Grouping
  import opened Dedup
  import opened Ordering
  import opened Windowing

  /**
   * A folder's slices sorted by instance number and deduplicated; `None` is
   * the TypeError. The result runs through the folder's instance numbers in
   * increasing order, one slice of the folder for each.
   */
  function Curate(v: Variant, folder: seq<Slice>): (r: Option<seq<Slice>>)
    ensures r.Some? ==> StrictlyIncreasing(Instances(r.value))
    ensures r.Some? ==> forall k :: k in Instances(r.value) <==> k in Instances(folder)
    ensures r.Some? ==> forall x :: x in r.value ==> x in folder
  {
    var d := Deduplicate(DedupPolicy(v), SortByInstance(folder));
    if d.Some? then (SortThenDedup(DedupPolicy(v), folder); d) else d
  }

  /** The folder has a best slice, so it contributes a window. */
  predicate Qualifies(v: Variant, folder: seq<Slice>) {
    Curate(v, folder).Some? && FindBestSlice(Curate(v, folder).value).Some?
  }

  /** What one folder does to the patient's list of frames. */
  datatype Step = Skipped | Emitted(block: Block)

  /** The body of the `os.walk` loop for one `t1_vibe_we` folder. */
  function ProcessFolder(v: Variant, carried: Option<Shape>, folder: seq<Slice>): (r: Result<Step, Error>)
    ensures r == Failure(TypeError) <==> Curate(v, folder).None?
    ensures r == Success(Skipped) <==> Curate(v, folder).Some? && !Qualifies(v, folder)
    ensures r == Failure(UnboundLocalError) <==> (
      && Qualifies(v, folder)
      && var d := Curate(v, folder).value;
         var images := RealFrames(v, d, FindBestSlice(d).value.instance);
         |images| < SeqLen(v) && PadShape(images, carried).None?)
    ensures r.Failure? ==> r.error in {TypeError, UnboundLocalError}
    ensures r.Success? && r.value.Emitted? ==>
      && Qualifies(v, folder)
      && |r.value.block.frames| == SeqLen(v)
      && var d := Curate(v, folder).value;
         var images := RealFrames(v, d, FindBestSlice(d).value.instance);
         && r.value.block.frames[..|images|] == images
         && r.value.block.padShape == PadShape(images, carried)
  {
    match Curate(v, folder)
    case None => Failure(TypeError)
    case Some(d) =>
      match FindBestSlice(d)
      case None => Success(Skipped)
      case Some(b) =>
        match FolderWindow(v, carried, d, b.instance)
        case Failure(e) => Failure(e)
        case Success(blk) => Success(Emitted(blk))
  }

  /** The number of folders that contribute a window. */
  function CountQualifying(v: Variant, folders: seq<seq<Slice>>): nat
    decreases |folders|
  {
    if folders == [] then 0
    else (if Qualifies(v, folders[0]) then 1 else 0) + CountQualifying(v, folders[1..])
  }

  /** The walk over the folders, starting from `img_shape` value `carried`. */
  function AssembleFrom(v: Variant, carried: Option<Shape>, folders: seq<seq<Slice>>): (r: Result<seq<Frame>, Error>)
    ensures r.Failure? ==> r.error in {TypeError, UnboundLocalError}
    decreases |folders|
  {
    if folders == [] then Success([])
    else
      match ProcessFolder(v, carried, folders[0])
      case Failure(e) => Failure(e)
      case Success(Skipped) => AssembleFrom(v, carried, folders[1..])
      case Success(Emitted(blk)) =>
        match AssembleFrom(v, blk.padShape, folders[1..])
        case Failure(e) => Failure(e)
        case Success(rest) => Success(blk.frames + rest)
  }

  /** Running two stretches of the walk one after the other: the first error wins. */
  function Chain(first: Result<seq<Frame>, Error>, second: Result<seq<Frame>, Error>): Result<seq<Frame>, Error> {
    match first
    case Failure(e) => Failure(e)
    case Success(a) =>
      match second
      case Failure(e) => Failure(e)
      case Success(b) => Success(a + b)
  }

  /** What one folder contributes on its own: its window, nothing, or its error. */
  function FolderFrames(step: Result<Step, Error>): Result<seq<Frame>, Error> {
    match step
    case Failure(e) => Failure(e)
    case Success(Skipped) => Success([])
    case Success(Emitted(blk)) => Success(blk.frames)
  }

  /** The value of `img_shape` after one folder: set by an emitted window, otherwise unchanged. */
  function NextShape(v: Variant, carried: Option<Shape>, folder: seq<Slice>): Option<Shape> {
    match ProcessFolder(v, carried, folder)
    case Success(Emitted(blk)) => blk.padShape
    case _ => carried
  }

  /** The value of `img_shape` once the walk has passed the given folders. */
  function ShapeAfter(v: Variant, carried: Option<Shape>, folders: seq<seq<Slice>>): Option<Shape>
    decreases |folders|
  {
    if folders == [] then carried
    else ShapeAfter(v, NextShape(v, carried, folders[0]), folders[1..])
  }

  lemma ChainAssociates(x: Result<seq<Frame>, Error>, y: Result<seq<Frame>, Error>, z: Result<seq<Frame>, Error>)
    ensures Chain(Chain(x, y), z) == Chain(x, Chain(y, z))
  {
    if x.Success? && y.Success? && z.Success? {
      assert (x.value + y.value) + z.value == x.value + (y.value + z.value);
    }
  }

  /** One step of the walk: the first folder's contribution, then the rest of the walk. */
  lemma AssembleStep(v: Variant, carried: Option<Shape>, folders: seq<seq<Slice>>)
    requires folders != []
    ensures AssembleFrom(v, carried, folders) ==
      Chain(FolderFrames(ProcessFolder(v, carried, folders[0])),
            AssembleFrom(v, NextShape(v, carried, folders[0]), folders[1..]))
  {
    match AssembleFrom(v, NextShape(v, carried, folders[0]), folders[1..])
    case Failure(e) =>
    case Success(y) => assert [] + y == y;
  }

  /** A walk over one folder yields that folder's window. */
  lemma AssembleOne(v: Variant, carried: Option<Shape>, folder: seq<Slice>)
    ensures AssembleFrom(v, carried, [folder]) == FolderFrames(ProcessFolder(v, carried, folder))
  {
    AssembleStep(v, carried, [folder]);
    assert [folder][1..] == [];
    var head := FolderFrames(ProcessFolder(v, carried, folder));
    if head.Success? {
      assert head.value + [] == head.value;
    }
  }

  /**
   * The walk over `a + b` is the walk over `a` followed by the walk over `b`
   * from the `img_shape` that `a` left behind; with `AssembleOne`, the
   * patient's frames are the folders' windows concatenated in walk order.
   */
  lemma {:induction false} AssembleAppend(v: Variant, carried: Option<Shape>, a: seq<seq<Slice>>, b: seq<seq<Slice>>)
    ensures AssembleFrom(v, carried, a + b) ==
      Chain(AssembleFrom(v, carried, a), AssembleFrom(v, ShapeAfter(v, carried, a), b))
    decreases |a|
  {
    if a == [] {
      assert a + b == b;
      match AssembleFrom(v, carried, b)
      case Failure(e) =>
      case Success(y) => assert [] + y == y;
    } else {
      var f, a' := a[0], a[1..];
      var head := FolderFrames(ProcessFolder(v, carried, f));
      var next := NextShape(v, carried, f);
      assert (a + b)[0] == f;
      assert (a + b)[1..] == a' + b;
      AssembleStep(v, carried, a + b);
      AssembleStep(v, carried, a);
      AssembleAppend(v, next, a', b);
      ChainAssociates(head, AssembleFrom(v, next, a'), AssembleFrom(v, ShapeAfter(v, next, a'), b));
    }
  }

  /**
   * A patient's frame list has `seq_len` frames for every folder that has a
   * best slice, and none for the others.
   */
  lemma {:induction false} AssembledLength(v: Variant, carried: Option<Shape>, folders: seq<seq<Slice>>)
    requires AssembleFrom(v, carried, folders).Success?
    ensures |AssembleFrom(v, carried, folders).value| == SeqLen(v) * CountQualifying(v, folders)
    decreases |folders|
  {
    if folders != [] {
      var step := ProcessFolder(v, carried, folders[0]);
      var n, c := SeqLen(v), CountQualifying(v, folders[1..]);
      assert step.Success?;
      if step.value.Skipped? {
        var rest := AssembleFrom(v, carried, folders[1..]);
        assert AssembleFrom(v, carried, folders) == rest;
        AssembledLength(v, carried, folders[1..]);
        assert CountQualifying(v, folders) == c;
      } else {
        var blk := step.value.block;
        var rest := AssembleFrom(v, blk.padShape, folders[1..]);
        assert rest.Success? && AssembleFrom(v, carried, folders).value == blk.frames + rest.value;
        AssembledLength(v, blk.padShape, folders[1..]);
        assert |blk.frames| == n;
        assert CountQualifying(v, folders) == 1 + c;
        MulSucc(n, c);
      }
    }
  }

  lemma MulSucc(n: nat, c: nat)
    ensures n * (1 + c) == n + n * c
  {
  }

  /** All frames have one shape, so `np.array` can stack them into one array. */
  predicate SameShape(frames: seq<Frame>) {
    forall i, j :: 0 <= i < |frames| && 0 <= j < |frames| ==> FrameShape(frames[i]) == FrameShape(frames[j])
  }

  /**
   * `get_best_patient_images` of either pipeline: the walk over the folders,
   * then `np.array(all_images)`, which raises when the frames differ in shape.
   */
  function GetBestPatientImages(v: Variant, folders: seq<seq<Slice>>): (r: Result<seq<Frame>, Error>)
    ensures r.Failure? ==> r.error in {TypeError, UnboundLocalError, InhomogeneousShape}
    ensures r == Failure(InhomogeneousShape) <==>
      AssembleFrom(v, InitialPadShape(v), folders).Success? &&
      !SameShape(AssembleFrom(v, InitialPadShape(v), folders).value)
    ensures r.Success? ==> r == AssembleFrom(v, InitialPadShape(v), folders) && SameShape(r.value)
  {
    match AssembleFrom(v, InitialPadShape(v), folders)
    case Failure(e) => Failure(e)
    case Success(frames) => if SameShape(frames) then Success(frames) else Failure(InhomogeneousShape)
  }

  /**
   * The dataset-class pipeline never raises while assembling: its duplicate
   * policy always finds a slice and `img_shape` starts out bound.
   */
  lemma {:induction false} ClassVariantNeverFails(carried: Shape, folders: seq<seq<Slice>>)
    ensures AssembleFrom(DatasetClass, Some(carried), folders).Success?
    decreases |folders|
  {
    if folders != [] {
      ContrastNeverFails(SortByInstance(folders[0]));
      var step := ProcessFolder(DatasetClass, Some(carried), folders[0]);
      if step.Success? && step.value.Emitted? {
        var sh := step.value.block.padShape;
        assert sh.Some?;
        ClassVariantNeverFails(sh.value, folders[1..]);
      } else {
        ClassVariantNeverFails(carried, folders[1..]);
      }
    }
  }

  /** An emitted block is the window cut around the folder's best slice. */
  lemma EmittedWindow(v: Variant, carried: Option<Shape>, folder: seq<Slice>)
    requires ProcessFolder(v, carried, folder).Success?
    requires ProcessFolder(v, carried, folder).value.Emitted?
    ensures Qualifies(v, folder)
    ensures var d := Curate(v, folder).value;
      var w := FolderWindow(v, carried, d, FindBestSlice(d).value.instance);
      w.Success? && ProcessFolder(v, carried, folder).value.block == w.value
  {
  }

  /** Each frame of a window is the processed frame at its position or tail padding. */
  lemma WindowFrames(v: Variant, carried: Option<Shape>, d: seq<Slice>, best: int)
    requires FolderWindow(v, carried, d, best).Success?
    ensures var blk := FolderWindow(v, carried, d, best).value;
      var images := RealFrames(v, d, best);
      forall i :: 0 <= i < |blk.frames| ==>
        (i < |images| && blk.frames[i] == images[i]) ||
        (blk.padShape.Some? && blk.frames[i] == Zeros(blk.padShape.value))
  {
    var blk := FolderWindow(v, carried, d, best).value;
    var images := RealFrames(v, d, best);
    forall i | 0 <= i < |images| ensures blk.frames[i] == images[i] {
      assert blk.frames[i] == blk.frames[..|images|][i];
    }
  }

  /** One folder's frames: processed images, or padding in the carried `img_shape`, which it passes on or replaces by the image shape. */
  lemma BlockShapes(v: Variant, carried: Option<Shape>, folder: seq<Slice>)
    requires ProcessFolder(v, carried, folder).Success?
    requires ProcessFolder(v, carried, folder).value.Emitted?
    ensures var blk := ProcessFolder(v, carried, folder).value.block;
      && (blk.padShape == carried || blk.padShape == Some(Target))
      && forall f :: f in blk.frames ==> FrameShape(f) == Target || Some(FrameShape(f)) == carried
  {
    EmittedWindow(v, carried, folder);
    var d := Curate(v, folder).value;
    var best := FindBestSlice(d).value.instance;
    var blk := FolderWindow(v, carried, d, best).value;
    var images := RealFrames(v, d, best);
    WindowFrames(v, carried, d, best);
    forall f | f in blk.frames
      ensures FrameShape(f) == Target || Some(FrameShape(f)) == carried
    {
      var i :| 0 <= i < |blk.frames| && blk.frames[i] == f;
    }
  }

  /** Every image in a folder's window shows a slice of that folder; the rest is padding. */
  lemma BlockSources(v: Variant, carried: Option<Shape>, folder: seq<Slice>)
    requires ProcessFolder(v, carried, folder).Success?
    requires ProcessFolder(v, carried, folder).value.Emitted?
    ensures forall f :: f in ProcessFolder(v, carried, folder).value.block.frames && f.Image? ==>
      f.source in folder
  {
    EmittedWindow(v, carried, folder);
    var d := Curate(v, folder).value;
    var best := FindBestSlice(d).value.instance;
    var blk := FolderWindow(v, carried, d, best).value;
    var sel := Selected(d, best, SeqLen(v));
    var images := RealFrames(v, d, best);
    WindowFrames(v, carried, d, best);
    forall f | f in blk.frames && f.Image? ensures f.source in folder {
      var i :| 0 <= i < |blk.frames| && blk.frames[i] == f;
      assert f == images[i];
      assert f.source in sel;
      var j :| 0 <= j < |sel| && sel[j] == f.source;
      assert f.source in d;
    }
  }

  /** Every image of a patient's volume shows a slice read from one of the patient's folders. */
  lemma {:induction false} ImagesComeFromFolders(v: Variant, carried: Option<Shape>, folders: seq<seq<Slice>>)
    requires AssembleFrom(v, carried, folders).Success?
    ensures forall f :: f in AssembleFrom(v, carried, folders).value && f.Image? ==>
      exists j :: 0 <= j < |folders| && f.source in folders[j]
    decreases |folders|
  {
    if folders != [] {
      var step := ProcessFolder(v, carried, folders[0]);
      var next := if step.value.Emitted? then step.value.block.padShape else carried;
      var rest := AssembleFrom(v, next, folders[1..]).value;
      ImagesComeFromFolders(v, next, folders[1..]);
      var head: seq<Frame> := if step.value.Emitted? then step.value.block.frames else [];
      if step.value.Emitted? {
        BlockSources(v, carried, folders[0]);
      }
      assert AssembleFrom(v, carried, folders).value == head + rest;
      forall f | f in head + rest && f.Image?
        ensures exists j :: 0 <= j < |folders| && f.source in folders[j]
      {
        if f in head {
          assert f.source in folders[0];
        } else {
          var j :| 0 <= j < |folders[1..]| && f.source in folders[1..][j];
          assert f.source in folders[j + 1];
        }
      }
    }
  }

  /**
   * Every frame has the processed-image shape, except padding frames that
   * kept the `img_shape` the walk started with.
   */
  lemma {:induction false} FrameShapes(v: Variant, carried: Option<Shape>, folders: seq<seq<Slice>>)
    requires AssembleFrom(v, carried, folders).Success?
    ensures forall f :: f in AssembleFrom(v, carried, folders).value ==>
      FrameShape(f) == Target || Some(FrameShape(f)) == carried
    decreases |folders|
  {
    if folders != [] {
      var step := ProcessFolder(v, carried, folders[0]);
      if step.value.Skipped? {
        FrameShapes(v, carried, folders[1..]);
      } else {
        var blk := step.value.block;
        BlockShapes(v, carried, folders[0]);
        FrameShapes(v, blk.padShape, folders[1..]);
        var rest := AssembleFrom(v, blk.padShape, folders[1..]).value;
        assert AssembleFrom(v, carried, folders).value == blk.frames + rest;
      }
    }
  }

  /**
   * In the module pipeline every frame has shape `(512, 384)`, so neither the
   * `np.array` after each folder nor the final one raises: the result is the
   * walk's outcome.
   */
  lemma ModuleFramesHaveTargetShape(folders: seq<seq<Slice>>)
    ensures GetBestPatientImages(ModuleLevel, folders) == AssembleFrom(ModuleLevel, None, folders)
    ensures GetBestPatientImages(ModuleLevel, folders).Success? ==>
      forall f :: f in GetBestPatientImages(ModuleLevel, folders).value ==> FrameShape(f) == Target
  {
    if AssembleFrom(ModuleLevel, None, folders).Success? {
      FrameShapes(ModuleLevel, None, folders);
      var frames := AssembleFrom(ModuleLevel, None, folders).value;
      assert forall i :: 0 <= i < |frames| ==> FrameShape(frames[i]) == Target by {
        forall i | 0 <= i < |frames| ensures FrameShape(frames[i]) == Target {
          assert frames[i] in frames;
        }
      }
    }
  }

  /** The `img_shape` the dataset-class walk starts from. */
  const ClassStart: Option<Shape> := Some(ClassDefaultShape)

  /**
   * In the dataset-class pipeline the walk yields frames of shape
   * `(512, 384)` or, for padding emitted before any image was processed,
   * `(512, 352)`.
   */
  lemma ClassFrameShapes(folders: seq<seq<Slice>>)
    ensures AssembleFrom(DatasetClass, ClassStart, folders).Success?
    ensures forall f :: f in AssembleFrom(DatasetClass, ClassStart, folders).value ==>
      FrameShape(f) == Target || f == Zeros(ClassDefaultShape)
  {
    ClassVariantNeverFails(ClassDefaultShape, folders);
    FrameShapes(DatasetClass, ClassStart, folders);
  }

  /**
   * The dataset-class `np.array(all_images)` raises exactly when the walk
   * produced both a `(512, 384)` frame and `(512, 352)` padding; otherwise
   * the frames come back as the walk produced them.
   */
  lemma ClassStackFailsOnMixedShapes(folders: seq<seq<Slice>>)
    ensures AssembleFrom(DatasetClass, ClassStart, folders).Success?
    ensures var frames := AssembleFrom(DatasetClass, ClassStart, folders).value;
      GetBestPatientImages(DatasetClass, folders).Failure? <==>
        (exists i :: 0 <= i < |frames| && FrameShape(frames[i]) == Target) &&
        (exists j :: 0 <= j < |frames| && frames[j] == Zeros(ClassDefaultShape))
    ensures GetBestPatientImages(DatasetClass, folders).Failure? ==>
      GetBestPatientImages(DatasetClass, folders).error == InhomogeneousShape
  {
    ClassFrameShapes(folders);
    var frames := AssembleFrom(DatasetClass, ClassStart, folders).value;
    if !SameShape(frames) {
      var i, j :| 0 <= i < |frames| && 0 <= j < |frames| && FrameShape(frames[i]) != FrameShape(frames[j]);
      assert frames[i] in frames && frames[j] in frames;
      if FrameShape(frames[i]) == Target {
        assert frames[j] == Zeros(ClassDefaultShape);
      } else {
        assert frames[i] == Zeros(ClassDefaultShape);
      }
    } else {
      forall i, j | 0 <= i < |frames| && 0 <= j < |frames| && FrameShape(frames[i]) == Target
        ensures frames[j] != Zeros(ClassDefaultShape)
      {
        assert FrameShape(frames[j]) == Target;
      }
    }
  }

  /**
   * A patient whose first folder's window lies past its single slice gets
   * `(512, 352)` padding, and a second folder then adds a `(512, 384)` image:
   * the final `np.array` raises.
   */
  lemma MixedShapesExample()
    ensures GetBestPatientImages(DatasetClass,
      [[Slice(100, 5, None, Shape(10, 10))], [Slice(1, 5, None, Shape(10, 10))]]) == Failure(InhomogeneousShape)
  {
    var x, y := Slice(100, 5, None, Shape(10, 10)), Slice(1, 5, None, Shape(10, 10));
    var a := ProcessFolder(DatasetClass, ClassStart, [x]).value.block.frames;
    var b := ProcessFolder(DatasetClass, ClassStart, [y]).value.block.frames;
    FarSliceOnlyPads(x);
    NearSliceShown(y);
    AssembleStep(DatasetClass, ClassStart, [[x], [y]]);
    assert [[x], [y]][1..] == [[y]];
    AssembleOne(DatasetClass, ClassStart, [y]);
    var frames := AssembleFrom(DatasetClass, ClassStart, [[x], [y]]).value;
    assert frames == a + b;
    assert frames[0] == Zeros(ClassDefaultShape);
    assert frames[32] == Image(y);
    assert !SameShape(frames) by {
      assert FrameShape(frames[0]) != FrameShape(frames[32]);
    }
  }

  /** A lone slice numbered 100 sits outside its own window, so its folder is all padding. */
  lemma FarSliceOnlyPads(x: Slice)
    requires x == Slice(100, 5, None, Shape(10, 10))
    ensures var r := ProcessFolder(DatasetClass, ClassStart, [x]);
      && r.Success? && r.value.Emitted?
      && r.value.block.padShape == ClassStart
      && r.value.block.frames[0] == Zeros(ClassDefaultShape)
  {
    SingletonCurated(DatasetClass, x);
    assert FindBestSlice([x]) == Some(x);
    assert Selected([x], 100, 32) == [];
    assert RealFrames(DatasetClass, [x], 100) == [];
  }

  /** A lone slice numbered 1 opens its own window and is shown first. */
  lemma NearSliceShown(y: Slice)
    requires y == Slice(1, 5, None, Shape(10, 10))
    ensures var r := ProcessFolder(DatasetClass, ClassStart, [y]);
      && r.Success? && r.value.Emitted?
      && r.value.block.frames[0] == Image(y)
  {
    SingletonCurated(DatasetClass, y);
    assert FindBestSlice([y]) == Some(y);
    assert WindowStart(1, 32) == 0 && WindowEnd(1, 32) == 32;
    assert PySlice([y], 0, 32) == [y][0..1] == [y];
    assert Selected([y], 1, 32) == [y];
    assert ProcessSlice(DatasetClass, y) == Some(Image(y));
    assert ProcessAll(DatasetClass, [y]) == [Image(y)];
    var images := RealFrames(DatasetClass, [y], 1);
    assert images == [Image(y)];
    var w := FolderWindow(DatasetClass, ClassStart, [y], 1);
    assert w.Success? && w.value.frames[..1] == images;
    assert w.value.frames[0] == Image(y);
    assert ProcessFolder(DatasetClass, ClassStart, [y]) == Success(Emitted(w.value));
  }

  /** A folder of one slice is kept as it is by sorting and duplicate removal. */
  lemma SingletonCurated(v: Variant, x: Slice)
    ensures Curate(v, [x]) == Some([x])
  {
    var p := DedupPolicy(v);
    assert SortByInstance([x]) == [x];
    assert Keys([x]) == [x.instance];
    assert [x][..0] == [];
    assert Group([x], x.instance) == [x];
    var r := RemoveDuplicates(p, [x]);
    assert r == Entries(p, [x], [x.instance]);
    assert r == [Some(x)];
    var d := Deduplicate(p, [x]);
    assert d == Unpack(r);
    assert d.Some? && |d.value| == 1 && d.value[0] == x;
    assert d.value == [x];
    assert Curate(v, [x]) == d;
  }
}
