/**
 * The window cut around the best slice, and the zero padding that brings it
 * to `seq_len` frames. The window is cut by list position although its start
 * is computed from the best slice's instance number, and padding always goes
 * at the tail; both are modelled as the source does them.
 */
module Windowing {
  import opened Wrappers
  import opened Slices

  function Min(a: int, b: int): int {
    if a <= b then a else b
  }

  /** `max(0, best_instance_number - (seq_len // 2))`: the least natural number not below the centred start. */
  function WindowStart(best: int, seqLen: nat): (start: nat)
    ensures start >= best - seqLen / 2
    ensures start == 0 || start == best - seqLen / 2
  {
    if best - seqLen / 2 < 0 then 0 else best - seqLen / 2
  }

  /** `end_index = start_index + seq_len`. */
  function WindowEnd(best: int, seqLen: nat): (end: nat)
    ensures end - WindowStart(best, seqLen) == seqLen
  {
    WindowStart(best, seqLen) + seqLen
  }

  /**
   * Python's `s[lo:hi]` for non-negative bounds: the elements at positions
   * `lo` up to `hi`, clipped to the list; empty when `lo` is past the end.
   */
  function PySlice<T>(s: seq<T>, lo: nat, hi: nat): (r: seq<T>)
    ensures forall i :: 0 <= i < |r| ==> lo + i < hi && lo + i < |s| && r[i] == s[lo + i]
    ensures |r| == 0 <==> hi <= lo || |s| <= lo
    ensures |r| > 0 ==> lo + |r| == Min(hi, |s|)
  {
    if |s| <= lo || hi <= lo then [] else s[lo..Min(hi, |s|)]
  }

  /** The slices `dicom_files[start_index:end_index]` of a curated folder. */
  function Selected(d: seq<Slice>, best: int, seqLen: nat): (sel: seq<Slice>)
    ensures |sel| <= seqLen
  {
    PySlice(d, WindowStart(best, seqLen), WindowEnd(best, seqLen))
  }

  /** One frame of a patient volume: a processed slice or an all-zero array. */
  datatype Frame = Image(source: Slice) | Zeros(shape: Shape)

  function FrameShape(f: Frame): Shape {
    match f
    case Image(_) => Target
    case Zeros(sh) => sh
  }

  /**
   * `process_dicom_image`, reduced to the shape of its output. The module
   * version calls `np.min` on the pixel array, which raises on a zero-sized
   * array; the caller catches that and skips the slice. The class version
   * returns a `(512, 384)` zero placeholder instead.
   */
  function ProcessSlice(v: Variant, x: Slice): (f: Option<Frame>)
    ensures f.Some? ==> FrameShape(f.value) == Target
    ensures f.None? <==> v == ModuleLevel && Degenerate(x.shape)
    ensures !Degenerate(x.shape) ==> f == Some(Image(x))
    ensures v == DatasetClass && Degenerate(x.shape) ==> f == Some(Zeros(Target))
  {
    if !Degenerate(x.shape) then Some(Image(x))
    else if v == ModuleLevel then None
    else Some(Zeros(Target))
  }

  predicate NoneDegenerate(sel: seq<Slice>) {
    forall i :: 0 <= i < |sel| ==> !Degenerate(sel[i].shape)
  }

  /** The selected slices whose pixel arrays are not zero-sized, in their order. */
  function Kept(sel: seq<Slice>): (k: seq<Slice>)
    ensures |k| <= |sel|
    ensures forall x :: x in k <==> x in sel && !Degenerate(x.shape)
    ensures NoneDegenerate(sel) ==> k == sel
    ensures forall x :: multiset(k)[x] == if Degenerate(x.shape) then 0 else multiset(sel)[x]
    decreases |sel|
  {
    if sel == [] then []
    else
      assert sel == [sel[0]] + sel[1..];
      if Degenerate(sel[0].shape) then Kept(sel[1..])
      else [sel[0]] + Kept(sel[1..])
  }

  /** Filtering a concatenation filters each part in turn, so the kept slices keep their order. */
  lemma {:induction false} KeptAppend(a: seq<Slice>, b: seq<Slice>)
    ensures Kept(a + b) == Kept(a) + Kept(b)
    decreases |a|
  {
    if a == [] {
      assert a + b == b;
    } else {
      var x, t := a[0], a[1..];
      assert (a + b)[0] == x && (a + b)[1..] == t + b;
      KeptAppend(t, b);
      if Degenerate(x.shape) {
        calc {
          Kept(a + b);
          Kept(t + b);
          Kept(t) + Kept(b);
          Kept(a) + Kept(b);
        }
      } else {
        calc {
          Kept(a + b);
          [x] + Kept(t + b);
          [x] + (Kept(t) + Kept(b));
          ([x] + Kept(t)) + Kept(b);
          Kept(a) + Kept(b);
        }
      }
    }
  }

  /**
   * The loop that processes the selected slices, skipping those that raise;
   * the class pipeline keeps one frame per selected slice.
   */
  function ProcessAll(v: Variant, sel: seq<Slice>): (r: seq<Frame>)
    ensures |r| <= |sel|
    ensures forall i :: 0 <= i < |r| ==> FrameShape(r[i]) == Target
    ensures (v == DatasetClass || NoneDegenerate(sel)) ==>
      |r| == |sel| && forall i :: 0 <= i < |sel| ==> ProcessSlice(v, sel[i]) == Some(r[i])
    ensures forall i :: 0 <= i < |r| && r[i].Image? ==> r[i].source in sel
    decreases |sel|
  {
    if sel == [] then []
    else
      match ProcessSlice(v, sel[0])
      case None => ProcessAll(v, sel[1..])
      case Some(f) => [f] + ProcessAll(v, sel[1..])
  }

  /**
   * The module pipeline keeps exactly one image per selected slice whose
   * pixel array is not zero-sized, in their order.
   */
  lemma {:induction false} ModuleKeepsNonDegenerate(sel: seq<Slice>)
    ensures var r := ProcessAll(ModuleLevel, sel);
      |r| == |Kept(sel)| && forall i :: 0 <= i < |r| ==> r[i] == Image(Kept(sel)[i])
    decreases |sel|
  {
    if sel != [] {
      var x, t := sel[0], sel[1..];
      var r, r' := ProcessAll(ModuleLevel, sel), ProcessAll(ModuleLevel, t);
      ModuleKeepsNonDegenerate(t);
      if Degenerate(x.shape) {
        assert r == r' && Kept(sel) == Kept(t);
      } else {
        assert r == [Image(x)] + r' && Kept(sel) == [x] + Kept(t);
        forall i | 0 <= i < |r| ensures r[i] == Image(Kept(sel)[i]) {
          if i > 0 {
            assert r[i] == r'[i - 1] && Kept(sel)[i] == Kept(t)[i - 1];
          }
        }
      }
    }
  }

  /** A window of frames and the value of `img_shape` after it. */
  datatype Block = Block(frames: seq<Frame>, padShape: Option<Shape>)

  /** `img_shape` after `if images: img_shape = images[0].shape`. */
  function PadShape(images: seq<Frame>, carried: Option<Shape>): (r: Option<Shape>)
    ensures r.None? <==> |images| == 0 && carried.None?
    ensures |images| == 0 ==> r == carried
    ensures |images| > 0 ==> r == Some(FrameShape(images[0]))
  {
    if |images| > 0 then Some(FrameShape(images[0])) else carried
  }

  function Padding(sh: Shape, count: nat): (z: seq<Frame>)
    ensures |z| == count && forall i :: 0 <= i < count ==> z[i] == Zeros(sh)
  {
    seq(count, _ => Zeros(sh))
  }

  /** The processed frames of a folder's window, before padding. */
  function RealFrames(v: Variant, d: seq<Slice>, best: int): seq<Frame> {
    ProcessAll(v, Selected(d, best, SeqLen(v)))
  }

  /**
   * One folder's window: the processed frames of the selected slices, in
   * order, then zero frames up to `seq_len`, shaped like the first processed
   * frame or else like the `img_shape` carried over from earlier folders.
   * With no shape ever assigned, padding raises UnboundLocalError.
   */
  function FolderWindow(v: Variant, carried: Option<Shape>, d: seq<Slice>, best: int): (r: Result<Block, Error>)
    ensures var images := RealFrames(v, d, best);
      && (r.Failure? <==> |images| < SeqLen(v) && PadShape(images, carried).None?)
      && (r.Failure? ==> r.error == UnboundLocalError)
      && (r.Success? ==>
            && |r.value.frames| == SeqLen(v)
            && r.value.frames[..|images|] == images
            && r.value.padShape == PadShape(images, carried)
            && (forall i :: |images| <= i < SeqLen(v) ==>
                  r.value.padShape.Some? && r.value.frames[i] == Zeros(r.value.padShape.value)))
  {
    var n := SeqLen(v);
    var images := RealFrames(v, d, best);
    var shape := PadShape(images, carried);
    if |images| < n then
      match shape
      case None => Failure(UnboundLocalError)
      case Some(sh) => Success(Block(images + Padding(sh, n - |images|), shape))
    else Success(Block(images, shape))
  }

  /**
   * When instance numbers run 1, 2, 3, ... along the list, cutting by
   * position still puts the best slice inside its own window.
   */
  lemma BestInWindowWhenNumberedFromOne(d: seq<Slice>, b: nat, seqLen: nat)
    requires forall i :: 0 <= i < |d| ==> d[i].instance == i + 1
    requires b < |d| && seqLen >= 2
    ensures var start := WindowStart(d[b].instance, seqLen);
      var sel := Selected(d, d[b].instance, seqLen);
      start <= b && b - start < |sel| && sel[b - start] == d[b]
  {
  }

  /**
   * A best instance number with room on both sides gives a full window of
   * consecutive list positions: with nothing to skip, no padding is added.
   */
  lemma FullWindowWhenRoomOnBothSides(v: Variant, carried: Option<Shape>, d: seq<Slice>, best: int)
    requires best - SeqLen(v) / 2 >= 0 && best - SeqLen(v) / 2 + SeqLen(v) <= |d|
    requires NoneDegenerate(d)
    ensures Selected(d, best, SeqLen(v)) == d[best - SeqLen(v) / 2 .. best - SeqLen(v) / 2 + SeqLen(v)]
    ensures FolderWindow(v, carried, d, best).Success?
    ensures forall f :: f in FolderWindow(v, carried, d, best).value.frames ==> f.Image?
  {
    var n := SeqLen(v);
    var lo := best - n / 2;
    var sel := Selected(d, best, n);
    assert sel == d[lo .. lo + n];
    assert NoneDegenerate(sel) by {
      forall i | 0 <= i < |sel| ensures !Degenerate(sel[i].shape) {
        assert sel[i] == d[lo + i];
      }
    }
    var images := RealFrames(v, d, best);
    assert images == ProcessAll(v, sel);
    assert |images| == n;
    assert FolderWindow(v, carried, d, best) == Success(Block(images, PadShape(images, carried)));
    forall f | f in images ensures f.Image? {
      var i :| 0 <= i < |images| && images[i] == f;
      assert ProcessSlice(v, sel[i]) == Some(images[i]);
    }
  }

  /**
   * A list no longer than the window, with a best instance number at most
   * half a window, is taken whole and padded at the tail.
   */
  lemma ShortListPaddedAtTail(v: Variant, carried: Option<Shape>, d: seq<Slice>, best: int)
    requires |d| <= SeqLen(v) && best <= SeqLen(v) / 2
    requires |d| > 0 && NoneDegenerate(d)
    ensures Selected(d, best, SeqLen(v)) == d
    ensures FolderWindow(v, carried, d, best).Success?
    ensures var frames := FolderWindow(v, carried, d, best).value.frames;
      && (forall i :: 0 <= i < |d| ==> frames[i] == Image(d[i]))
      && (forall i :: |d| <= i < |frames| ==> frames[i] == Zeros(Target))
  {
    var n := SeqLen(v);
    assert Selected(d, best, n) == d[0..|d|] == d;
    var images := RealFrames(v, d, best);
    assert |images| == |d|;
    var frames := FolderWindow(v, carried, d, best).value.frames;
    forall i | 0 <= i < |d| ensures frames[i] == Image(d[i]) {
      assert frames[i] == frames[..|images|][i] == images[i];
      assert ProcessSlice(v, d[i]) == Some(images[i]);
    }
  }

  /**
   * When instance numbers start well above the list length, the window starts
   * past the end of the list and holds no slice at all.
   */
  lemma WindowEmptyWhenNumberingStartsHigh(d: seq<Slice>, best: int, seqLen: nat)
    requires best - seqLen / 2 >= |d|
    ensures Selected(d, best, seqLen) == []
  {
  }
}
