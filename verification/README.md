# Slice curation for hand MRI volumes

A Dafny model of the slice-curation core of the rheumatoid-arthritis
progression pre-processing script `pre_processing_py.py`. The script turns the
DICOM slices of each `t1_vibe_we` scan folder of a patient into a
fixed-length window of frames, and serves patients with their progression
labels through a dataset index.

A slice is modelled as a record (`Slices.Slice`). It holds the instance
number, the sum of the pixel array, the contrast-agent tag if the file has
one, and the pixel-array shape. The source has two near-identical pipelines,
selected here by `Slices.Variant`:

- `ModuleLevel` models the module functions. The window is 20 slices.
  Duplicates are resolved by the largest pixel sum. `img_shape` starts
  unbound.
- `DatasetClass` models the `HandScanDataset2` methods. The window is 32
  slices. Duplicates are resolved by the `DOTAREM` contrast tag. `img_shape`
  starts as `(512, 352)`.

Modules follow the data flow:

- `Selection`: the two best-slice policies.
- `Grouping`: the instance-number dictionary.
- `Dedup`: duplicate removal.
- `Ordering`: the stable sort and what it guarantees for deduplication.
- `Windowing`: window arithmetic, slicing, processing and padding.
- `Assembly`: the per-patient walk over folders.
- `Dataset`: IDs, labels and index access.

Behaviours kept exactly as the code has them:

- The window is cut by list position, using the best slice's instance number
  as if it were a position.
- Padding always goes at the tail.
- `img_shape` carries over from one folder to the next within one patient.
- The intensity scan starts from -1, so a list whose sums are all negative
  has no best slice.
- In the module pipeline, a duplicate group with no sum above -1 leaves
  `None` in the list, and unpacking it raises TypeError.
- The module `process_dicom_image` raises on zero-sized arrays, and the
  caller skips the slice. The class version substitutes a `(512, 384)` zero
  frame.
- `HandScanDataset2.__getitem__` returns the frames without the label.

The walk of the dataset-class pipeline can produce both `(512, 384)` frames
and `(512, 352)` padding (padding emitted before any image was processed).
The final `np.array(all_images)` then raises, modelled as the
`InhomogeneousShape` error: `Assembly.ClassStackFailsOnMixedShapes` states
exactly when, and `Assembly.MixedShapesExample` gives a two-folder patient
for which it happens. In the module pipeline all frames share one shape, so
neither the per-folder `np.array` nor the final one raises.

## Model

| member | source | states |
|---|---|---|
| Selection.Scan | predicting-rheumatoid-arthritis-progression-using-hand-mri-scans-from-at-risk-patients/src/models/pre_processing_py.py:131-142 | From any consistent scan state, the loop ends on the first position holding the largest sum above -1, or with no best slice exactly when no sum exceeds -1 |
| Selection.FindBestSlice | predicting-rheumatoid-arthritis-progression-using-hand-mri-scans-from-at-risk-patients/src/models/pre_processing_py.py:129-144 | Returns the first slice of maximal intensity sum (strict `>` keeps the earliest of tied maxima); returns None exactly when the list is empty or no sum exceeds the seed -1 |
| Selection.FirstTagged | predicting-rheumatoid-arthritis-progression-using-hand-mri-scans-from-at-risk-patients/src/models/pre_processing_py.py:596-600 | Finds the first position whose contrast agent is `DOTAREM`, or none exactly when no slice carries it |
| Selection.FindTaggedSlice | predicting-rheumatoid-arthritis-progression-using-hand-mri-scans-from-at-risk-patients/src/models/pre_processing_py.py:592-606 | Returns the first `DOTAREM`-tagged slice, or the first slice when none is tagged |
| Grouping.Keys | predicting-rheumatoid-arthritis-progression-using-hand-mri-scans-from-at-risk-patients/src/models/pre_processing_py.py:155-159 | Dictionary keys are exactly the distinct instance numbers of the input, each once, no more keys than slices |
| Grouping.KeysInFirstAppearanceOrder | predicting-rheumatoid-arthritis-progression-using-hand-mri-scans-from-at-risk-patients/src/models/pre_processing_py.py:155-163 | Keys are iterated in the order their instance numbers first appear in the input |
| Grouping.Group | predicting-rheumatoid-arthritis-progression-using-hand-mri-scans-from-at-risk-patients/src/models/pre_processing_py.py:155-159 | A key's list is never longer than the input; its contents are stated by the lemmas below |
| Grouping.GroupNonEmpty | predicting-rheumatoid-arthritis-progression-using-hand-mri-scans-from-at-risk-patients/src/models/pre_processing_py.py:157-159 | The list under a key is non-empty exactly when some slice has that instance number |
| Grouping.GroupMembers | predicting-rheumatoid-arthritis-progression-using-hand-mri-scans-from-at-risk-patients/src/models/pre_processing_py.py:157-159 | Every slice in a key's list comes from the input and carries that key |
| Grouping.GroupIsComplete | predicting-rheumatoid-arthritis-progression-using-hand-mri-scans-from-at-risk-patients/src/models/pre_processing_py.py:157-159 | Every input slice appears in the list of its own instance number |
| Grouping.GroupStartsAtFirstOccurrence | predicting-rheumatoid-arthritis-progression-using-hand-mri-scans-from-at-risk-patients/src/models/pre_processing_py.py:157-159 | The first member of a key's list is the first input slice with that instance number |
| Grouping.SingletonGroupIsTheSlice | predicting-rheumatoid-arthritis-progression-using-hand-mri-scans-from-at-risk-patients/src/models/pre_processing_py.py:167-168 | A list of one slice holds the only input slice with that instance number |
| Dedup.Representative | predicting-rheumatoid-arthritis-progression-using-hand-mri-scans-from-at-risk-patients/src/models/pre_processing_py.py:163-168 | A group of one is kept as is; a larger group yields the intensity scan's choice (possibly None) or the contrast search's choice; any result is a group member |
| Dedup.RemoveDuplicates | predicting-rheumatoid-arthritis-progression-using-hand-mri-scans-from-at-risk-patients/src/models/pre_processing_py.py:153-170 | One entry per distinct instance number in key order; each entry is the representative of the slices sharing that number, taken from the input |
| Dedup.Unpack | predicting-rheumatoid-arthritis-progression-using-hand-mri-scans-from-at-risk-patients/src/models/pre_processing_py.py:134 | Unpacking succeeds exactly when no entry is None, and then returns the entries in order |
| Dedup.Deduplicate | predicting-rheumatoid-arthritis-progression-using-hand-mri-scans-from-at-risk-patients/src/models/pre_processing_py.py:153-170 | Deduplication fails (the unpacking TypeError) exactly when some entry is None; otherwise it gives one input slice per dictionary key, in key order, carrying that key |
| Dedup.OnePerInstance | predicting-rheumatoid-arthritis-progression-using-hand-mri-scans-from-at-risk-patients/src/models/pre_processing_py.py:153-170 | After successful deduplication the instance numbers are exactly the distinct input numbers, each once, in order of first appearance, and every kept slice is an input slice |
| Dedup.ContrastNeverFails | predicting-rheumatoid-arthritis-progression-using-hand-mri-scans-from-at-risk-patients/src/models/pre_processing_py.py:597-606 | With the contrast policy every group yields a slice, so deduplication never leaves None |
| Dedup.IntensityFailsOnlyOnNegativeGroups | predicting-rheumatoid-arthritis-progression-using-hand-mri-scans-from-at-risk-patients/src/models/pre_processing_py.py:164-166 | With the intensity policy a None is left exactly when some group of two or more has no sum above -1 |
| Dedup.IntensityKeepsGroupMaximum | predicting-rheumatoid-arthritis-progression-using-hand-mri-scans-from-at-risk-patients/src/models/pre_processing_py.py:161-168 | With the intensity policy each kept slice has the largest sum among all input slices sharing its instance number |
| Ordering.Insert | predicting-rheumatoid-arthritis-progression-using-hand-mri-scans-from-at-risk-patients/src/models/pre_processing_py.py:207 | Insertion adds exactly one copy of the slice to the list, as a multiset |
| Ordering.SortByInstance | predicting-rheumatoid-arthritis-progression-using-hand-mri-scans-from-at-risk-patients/src/models/pre_processing_py.py:207 | Sorting returns a permutation of its input |
| Ordering.InsertKeepsSorted | predicting-rheumatoid-arthritis-progression-using-hand-mri-scans-from-at-risk-patients/src/models/pre_processing_py.py:207 | Inserting into a list sorted by instance number keeps it sorted |
| Ordering.SortIsSorted | predicting-rheumatoid-arthritis-progression-using-hand-mri-scans-from-at-risk-patients/src/models/pre_processing_py.py:207 | The sorted list has non-decreasing instance numbers and the same multiset of slices |
| Ordering.InsertGroup | predicting-rheumatoid-arthritis-progression-using-hand-mri-scans-from-at-risk-patients/src/models/pre_processing_py.py:207 | Insertion appends the slice to the end of its own instance-number group and changes no other group |
| Ordering.SortIsStable | predicting-rheumatoid-arthritis-progression-using-hand-mri-scans-from-at-risk-patients/src/models/pre_processing_py.py:207 | Stability: for every instance number, the slices carrying it keep their input order after the sort |
| Ordering.SortedKeysIncrease | predicting-rheumatoid-arthritis-progression-using-hand-mri-scans-from-at-risk-patients/src/models/pre_processing_py.py:207-210 | Dictionary keys of a sorted list are strictly increasing |
| Ordering.SortThenDedup | predicting-rheumatoid-arthritis-progression-using-hand-mri-scans-from-at-risk-patients/src/models/pre_processing_py.py:206-210 | Sort then deduplication gives strictly increasing instance numbers covering exactly the input's numbers; every kept slice is an input slice and is the representative of its duplicates in input order |
| Assembly.Curate | predicting-rheumatoid-arthritis-progression-using-hand-mri-scans-from-at-risk-patients/src/models/pre_processing_py.py:206-210 | A curated folder runs through exactly the folder's instance numbers in strictly increasing order, each slice taken from the folder |
| Windowing.WindowStart | predicting-rheumatoid-arthritis-progression-using-hand-mri-scans-from-at-risk-patients/src/models/pre_processing_py.py:220 | The start is the least natural number not below `best - seq_len // 2`, so it is never negative |
| Windowing.WindowEnd | predicting-rheumatoid-arthritis-progression-using-hand-mri-scans-from-at-risk-patients/src/models/pre_processing_py.py:221 | The end is exactly `seq_len` past the start |
| Windowing.PySlice | predicting-rheumatoid-arthritis-progression-using-hand-mri-scans-from-at-risk-patients/src/models/pre_processing_py.py:224 | Python slicing: each result element is the element at position start+i inside both bounds; empty exactly when the start is at or past the end of the list or the range is empty; otherwise it runs to the smaller of the end bound and the list length |
| Windowing.Selected | predicting-rheumatoid-arthritis-progression-using-hand-mri-scans-from-at-risk-patients/src/models/pre_processing_py.py:223-224 | The selected slices never exceed `seq_len` |
| Windowing.ProcessSlice | predicting-rheumatoid-arthritis-progression-using-hand-mri-scans-from-at-risk-patients/src/models/pre_processing_py.py:63-78 | A processed frame always has shape (512, 384); processing drops a slice exactly in the module pipeline for a zero-sized array; a regular slice becomes its image; in the class pipeline a zero-sized array becomes the all-zero (512, 384) placeholder (the class `process_dicom_image`, lines 609-641, placeholder at 614-616) |
| Windowing.ProcessAll | predicting-rheumatoid-arthritis-progression-using-hand-mri-scans-from-at-risk-patients/src/models/pre_processing_py.py:226-234 | Processed frames all have shape (512, 384), are no more than the selected slices, come from them, and correspond one-to-one in order when nothing is skipped |
| Windowing.Kept | predicting-rheumatoid-arthritis-progression-using-hand-mri-scans-from-at-risk-patients/src/models/pre_processing_py.py:226-234 | The non-degenerate selected slices: each slice with a non-zero-sized pixel array occurs exactly as often as in the selection and every zero-sized one not at all; the whole selection when none is zero-sized |
| Windowing.KeptAppend | predicting-rheumatoid-arthritis-progression-using-hand-mri-scans-from-at-risk-patients/src/models/pre_processing_py.py:226-234 | Filtering the selection keeps the slices' order: the kept slices of a concatenation are the kept slices of the first part followed by those of the second |
| Windowing.ModuleKeepsNonDegenerate | predicting-rheumatoid-arthritis-progression-using-hand-mri-scans-from-at-risk-patients/src/models/pre_processing_py.py:226-234 | The module pipeline keeps exactly one image per non-degenerate selected slice, in their order |
| Windowing.PadShape | predicting-rheumatoid-arthritis-progression-using-hand-mri-scans-from-at-risk-patients/src/models/pre_processing_py.py:237-238 | `img_shape` becomes the first processed frame's shape when there is one, otherwise keeps its carried value; it is unbound exactly when both are missing |
| Windowing.Padding | predicting-rheumatoid-arthritis-progression-using-hand-mri-scans-from-at-risk-patients/src/models/pre_processing_py.py:240-243 | The padding is exactly `count` zero frames of the given shape |
| Windowing.FolderWindow | predicting-rheumatoid-arthritis-progression-using-hand-mri-scans-from-at-risk-patients/src/models/pre_processing_py.py:236-243 | The window has exactly `seq_len` frames: the processed selected slices in order, then zero frames shaped like the first processed frame or the carried `img_shape`; it raises UnboundLocalError exactly when padding is needed and no shape was ever set |
| Windowing.BestInWindowWhenNumberedFromOne | predicting-rheumatoid-arthritis-progression-using-hand-mri-scans-from-at-risk-patients/src/models/pre_processing_py.py:219-224 | When instance numbers run 1, 2, 3, ... along the list, the best slice lies inside its window at offset best position minus start |
| Windowing.FullWindowWhenRoomOnBothSides | predicting-rheumatoid-arthritis-progression-using-hand-mri-scans-from-at-risk-patients/src/models/pre_processing_py.py:219-243 | When no slice of the list has a zero-sized pixel array, a best number with a full window of positions on the list gives the consecutive slices from `best - seq_len // 2` and no padding |
| Windowing.ShortListPaddedAtTail | predicting-rheumatoid-arthritis-progression-using-hand-mri-scans-from-at-risk-patients/src/models/pre_processing_py.py:236-243 | A non-empty list no longer than the window, with no zero-sized pixel array and a small best number, is taken whole, followed by (512, 384) zero frames up to `seq_len` |
| Windowing.WindowEmptyWhenNumberingStartsHigh | predicting-rheumatoid-arthritis-progression-using-hand-mri-scans-from-at-risk-patients/src/models/pre_processing_py.py:219-224 | Because the window is cut by list position, a best instance number at least half a window past the list length selects no slice at all |
| Assembly.ProcessFolder | predicting-rheumatoid-arthritis-progression-using-hand-mri-scans-from-at-risk-patients/src/models/pre_processing_py.py:193-245 | A folder raises TypeError exactly when deduplication leaves None; it is skipped exactly when it has no best slice; it raises UnboundLocalError exactly when it has a best slice, its processed frames are fewer than `seq_len` and no `img_shape` was ever set; otherwise it emits a `seq_len` window starting with the processed selected slices |
| Assembly.AssembleFrom | predicting-rheumatoid-arthritis-progression-using-hand-mri-scans-from-at-risk-patients/src/models/pre_processing_py.py:190-247 | Walking a patient's folders can only raise TypeError or UnboundLocalError |
| Assembly.AssembleOne | predicting-rheumatoid-arthritis-progression-using-hand-mri-scans-from-at-risk-patients/src/models/pre_processing_py.py:192-245 | Walking a single folder yields exactly that folder's window, nothing if it is skipped, or its error |
| Assembly.AssembleAppend | predicting-rheumatoid-arthritis-progression-using-hand-mri-scans-from-at-risk-patients/src/models/pre_processing_py.py:192-245 | Walking `a + b` is walking `a` and then `b` from the `img_shape` `a` left behind, the first error winning: the frames are the folders' windows concatenated in walk order |
| Assembly.ImagesComeFromFolders | predicting-rheumatoid-arthritis-progression-using-hand-mri-scans-from-at-risk-patients/src/models/pre_processing_py.py:190-247 | Every image frame of a patient shows a slice read from one of that patient's folders |
| Assembly.AssembledLength | predicting-rheumatoid-arthritis-progression-using-hand-mri-scans-from-at-risk-patients/src/models/pre_processing_py.py:245 | The patient's frame list has `seq_len` times the number of folders with a best slice |
| Assembly.ClassVariantNeverFails | predicting-rheumatoid-arthritis-progression-using-hand-mri-scans-from-at-risk-patients/src/models/pre_processing_py.py:499-561 | The dataset-class walk over the folders never raises: the contrast policy never leaves None and `img_shape` starts bound |
| Assembly.FrameShapes | predicting-rheumatoid-arthritis-progression-using-hand-mri-scans-from-at-risk-patients/src/models/pre_processing_py.py:236-243 | Every frame has shape (512, 384) or is padding in the `img_shape` the walk started with |
| Assembly.ModuleFramesHaveTargetShape | predicting-rheumatoid-arthritis-progression-using-hand-mri-scans-from-at-risk-patients/src/models/pre_processing_py.py:236-247 | In the module pipeline every frame has shape (512, 384), so `np.array` never raises and the result is the walk's outcome |
| Assembly.ClassFrameShapes | predicting-rheumatoid-arthritis-progression-using-hand-mri-scans-from-at-risk-patients/src/models/pre_processing_py.py:499-561 | The dataset-class walk yields only (512, 384) frames and (512, 352) zero padding |
| Assembly.GetBestPatientImages | predicting-rheumatoid-arthritis-progression-using-hand-mri-scans-from-at-risk-patients/src/models/pre_processing_py.py:179-247 | The result is the walk's frames when they all share one shape; it fails with the walk's error, or with the `np.array` shape error exactly when the walk succeeds with frames of different shapes |
| Assembly.ClassStackFailsOnMixedShapes | predicting-rheumatoid-arthritis-progression-using-hand-mri-scans-from-at-risk-patients/src/models/pre_processing_py.py:494-563 | In the dataset class, `get_best_patient_images` raises exactly when the walk yields both a (512, 384) frame and (512, 352) padding, and otherwise returns the walk's frames |
| Assembly.MixedShapesExample | predicting-rheumatoid-arthritis-progression-using-hand-mri-scans-from-at-risk-patients/src/models/pre_processing_py.py:537-563 | A class-pipeline patient with a folder holding only slice 100 followed by a folder holding only slice 1 makes `np.array` raise |
| Dataset.ZFill | predicting-rheumatoid-arthritis-progression-using-hand-mri-scans-from-at-risk-patients/src/models/pre_processing_py.py:287 | A short ID is left-padded with '0' to width 5, after a leading sign when present; an ID of width 5 or more is unchanged; the original characters stay in order |
| Dataset.Label | predicting-rheumatoid-arthritis-progression-using-hand-mri-scans-from-at-risk-patients/src/models/pre_processing_py.py:288 | The label is 1 exactly when progression is 'y', else 0 |
| Dataset.Build | predicting-rheumatoid-arthritis-progression-using-hand-mri-scans-from-at-risk-patients/src/models/pre_processing_py.py:286-288 | One zero-padded ID and one 0/1 label per row, position by position |
| Dataset.LengthIsRowCount | predicting-rheumatoid-arthritis-progression-using-hand-mri-scans-from-at-risk-patients/src/models/pre_processing_py.py:286-296 | `__len__` equals the number of rows of the labels table |
| Dataset.LabelMap | predicting-rheumatoid-arthritis-progression-using-hand-mri-scans-from-at-risk-patients/src/models/pre_processing_py.py:291 | The label dictionary's keys are exactly the padded IDs |
| Dataset.LabelMapLastRowWins | predicting-rheumatoid-arthritis-progression-using-hand-mri-scans-from-at-risk-patients/src/models/pre_processing_py.py:291 | For a repeated ID the dictionary keeps the label of its last row |
| Dataset.PyIndex | predicting-rheumatoid-arthritis-progression-using-hand-mri-scans-from-at-risk-patients/src/models/pre_processing_py.py:302 | Python indexing accepts exactly -n <= idx < n, and negative indices count from the end |
| Dataset.GetItem | predicting-rheumatoid-arthritis-progression-using-hand-mri-scans-from-at-risk-patients/src/models/pre_processing_py.py:298-321 | IndexError exactly for an index outside the list; errors of `get_best_patient_images` pass through; a returned item holds exactly the frames `get_best_patient_images` returns, `seq_len` per qualifying folder and at least one; for an in-range index whose frames assemble, an item is returned exactly when there is at least one frame, and otherwise ValueError for that patient; only the module class returns the label, and it is that row's label (the unlabelled case is `HandScanDataset2.__getitem__`, lines 459-490) |
| Dataset.NoQualifyingFolderRaises | predicting-rheumatoid-arthritis-progression-using-hand-mri-scans-from-at-risk-patients/src/models/pre_processing_py.py:307-311 | For a patient whose folders assemble, access raises ValueError exactly when no folder has a best slice |
| Dataset.MissingFoldersRaise | predicting-rheumatoid-arthritis-progression-using-hand-mri-scans-from-at-risk-patients/src/models/pre_processing_py.py:306-311 | A patient without any scan folder raises ValueError |

## Left out

- Reading files is not modelled (`pydicom.dcmread`, `glob`, `os.walk`). Each qualifying `t1_vibe_we` folder is an input list of slice records, in walk order. A patient directory is a map entry; a missing entry means no folders.
- Exceptions from unreadable files are not modelled, nor any `print` output: the logging of caught errors, the best-instance-number print (line 217), the per-folder `print(np.array(all_images).shape)` (line 246, whose stacking cannot raise in the module pipeline) and `print(self.dict_labels)` (line 292). Every slice record is taken as readable.
- Selection.FindBestSlice: the try/except around `pixel_array` in the scan is not modelled, because every record already carries its sum.
- Windowing.ProcessSlice: models only the output shape of `process_dicom_image`. Min-subtraction, normalisation, percentile clipping, uint8 casting and PIL resizing are floating-point numerics in foreign libraries. Failures when re-reading the file are I/O.
- Slices without an `InstanceNumber` tag are not modelled: the sort key would raise AttributeError. Every record carries an instance number.
- The inline best-slice loop of `HandScanDataset2.get_best_patient_images` (lines 523-534) computes the same thing as `find_best_slice`. Both use `Selection.FindBestSlice`.
- `np.array(all_images)` is modelled only as the check that all frames share one shape; the array itself is the frame list.
- Dataset.GetItem: the torchio/MONAI transform, the KeyError for a missing `'im'` key, tensor conversion, `unsqueeze` and `torch.is_tensor` are not modelled. These are framework calls.
- `CustomThresholding` and `MorphologicalOperations` are not modelled. They are float thresholds, `conv3d` and plotting.
- `get_sequence_images` is not modelled: the pipeline never calls it.
- `display_images`, CSV reading, the stratified split, `collect_image_paths` and `save_dataset_to_json` are not modelled. They are plotting and I/O glue.
- Patient IDs are taken as already-rendered text. How pandas renders a numeric column with `astype(str)` (for example `12.0` for a float column) is not modelled.
