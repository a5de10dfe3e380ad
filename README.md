# Road segmentation baseline — the exact core, in Dafny

The baseline of the road-segmentation project classifies 16-by-16 patches of aerial images
as road or non-road with a small convolutional network. Around the network sits a set of
small, exact routines:

- `img_crop` and `augment_image` cut images into patches along a regular grid of origins
  and append flipped and rotated copies.
- `value_to_class` turns a patch's mean foreground into a one-hot label.
- An inline block of `main` balances the two classes.
- `prediction_to_mask`, `mask_to_prediction` and `label_to_img` convert between per-patch
  prediction rows, masks and pixel images.
- `set_to_zero_if_no_neighbours` is a post-processing sweep that removes isolated pixels.
- The training loop computes mini-batch windows and decides when to stop.
- The submission encoder writes one `id,value` row per block of a test prediction.

This project models those routines and proves what they promise.

Modules, one per component:

| module | component |
|---|---|
| `Arith` | division and row-major index facts |
| `Grids` | grids as `seq<seq<T>>`, the contents of an `array2`, slice assignment, numpy's `fliplr`/`flipud`/`rot90` |
| `Patches` | `img_crop`, `augment_image` and the list they append to |
| `Labels` | `value_to_class` |
| `Balance` | class counting and balancing |
| `Masks` | `prediction_to_mask`, `mask_to_prediction`, `label_to_img` |
| `PostProcess` | `set_to_zero_if_no_neighbours`, `postprocess_prediction` |
| `Training` | batch offsets, batch windows, the epoch loop's stopping rule |
| `Submission` | patch ids and submission rows |
| `Wrappers` | `Option` and `Result` |

How the source's state is modelled:

- **Loops that fill a zeroed numpy array** are methods over `array2`. Each method is proved
  equal to a function on grids, and the properties are lemmas about that
  function.
- **The list that `img_crop` and `augment_image` append to** is a class, `PatchList`, whose
  `items` field the methods extend.
- **Probabilities and pixel values** are `real`, so the thresholds 0.25 and 0.5 are exact
  comparisons.
- **Python errors** are `Result.Failure` values:
  - the `ValueError` of `range()` with a zero step, in `img_crop` and `label_to_img`;
  - the `IndexError` of `prediction_to_mask`, `label_to_img` and `postprocess_prediction`
    when there are too few prediction rows;
  - the `ZeroDivisionError` of an epoch with `BATCH_SIZE` equal to 0 or to `train_size`;
  - the `IndexError` of the submission loop when some `prediction[y, x]` it reads is outside
    the array, that is when the prediction has a different, non-zero number of blocks along
    its two axes (`Submission.ImageRowsFailsExactly`).
- **Randomness** is a parameter. `np.random.permutation` becomes a given permutation.
- **Time** is a parameter. `time.time() - start` becomes a sequence of elapsed-time readings.

## Model

| member | source | states |
|---|---|---|
| Patches.PatchList.constructor | baseline/tf_aerial_images.py:99 | `list_patches` starts empty |
| Patches.Range | baseline/tf_aerial_images.py:104-105 | Python's `range(start, stop, step)` for a positive step: start, start+step, … while below stop |
| Patches.NumOrigins | baseline/tf_aerial_images.py:104-105 | floor((n-P)/S)+1 window origins along an axis of length n ≥ P, none when P > n |
| Patches.NumVariants | baseline/tf_aerial_images.py:86-95 | augment_image appends 1 patch for K ≤ 0, K+1 for 0 < K < 4 and 5 for K ≥ 4 |
| Patches.Augmentation | baseline/tf_aerial_images.py:87-95 | the t-th appended patch: identity, fliplr, flipud, rot90, rot90∘rot90 |
| Patches.Variants | baseline/tf_aerial_images.py:86-95 | the patches augment_image appends for one input, in order |
| Patches.ColumnPatches | baseline/tf_aerial_images.py:105-111 | the patches of one column origin: the augmented window at each row origin, in order |
| Patches.GridPatches | baseline/tf_aerial_images.py:104-111 | the patches of a list of column origins, outer loop over them, inner loop over the row origins |
| Patches.AllPatches | baseline/tf_aerial_images.py:98-112 | the list img_crop returns for a positive stride |
| Patches.WrapTwoDimensional | baseline/tf_aerial_images.py:106-107 | the 2-D branch's `[window]` (shape (1,P,P)) keeps patches rectangular; fliplr of it reverses the window's rows, flipud leaves it as it is, and rot90 has shape (P,1,P) with entry i holding row P-1-i of the window |
| Patches.AugmentImage | baseline/tf_aerial_images.py:86-95 | appends exactly NumVariants(K) = max(0, min(K,4))+1 patches: the input itself first, then fliplr, flipud, rot90 and rot90∘rot90 in that order; the earlier entries of the list are unchanged |
| Patches.Crop | baseline/tf_aerial_images.py:107-109 | `im[j:j+P, i:i+P]` is P-by-P and its cell (r, c) is `im[j+r][i+c]` |
| Patches.RangeShape | baseline/tf_aerial_images.py:104-105 | `range(start, stop, step)` has ceil((stop-start)/step) elements, the k-th being start+k·step < stop |
| Patches.Origins | baseline/tf_aerial_images.py:104-105 | the origins along an axis of length n are 0, S, 2S, …, floor((n-P)/S)+1 of them, each leaving room for a whole window; trailing partial windows are dropped |
| Patches.ImgCrop | baseline/tf_aerial_images.py:98-112 | the list returned is the augmented windows, each formed by `asPatch`, column origins i outside, row origins j inside; a zero stride raises ValueError, and nothing else does (for colour images with overlapping windows, see Left out) |
| Patches.CropColumn | baseline/tf_aerial_images.py:105-111 | one pass of the inner loop appends, for each row origin j in order, the augmented window at (j, i), and leaves the earlier entries unchanged |
| Patches.ColumnPatchesLength | baseline/tf_aerial_images.py:105-111 | one column origin contributes (number of row origins)·NumVariants(K) patches |
| Patches.GridPatchesLength | baseline/tf_aerial_images.py:104-111 | every column origin contributes the same number of patches, so the total is their product |
| Patches.ImgCropCount | baseline/tf_aerial_images.py:98-112 | img_crop returns (floor((shape[1]-P)/S)+1)·(floor((shape[0]-P)/S)+1) windows, each followed by its augmentations, that is NumVariants(K) entries per window |
| Patches.ColumnPatchesAt | baseline/tf_aerial_images.py:105-111 | within one column origin, the t-th augmentation of the b-th window is at position b·NumVariants(K)+t |
| Patches.GridPatchesSplit | baseline/tf_aerial_images.py:104-111 | the list for all column origins is the list for all but the last one, followed by the last one's patches |
| Patches.GridPatchesAt | baseline/tf_aerial_images.py:104-111 | entry a·(patches per column)+e of the list is entry e of column origin a |
| Patches.ImgCropPatchAt | baseline/tf_aerial_images.py:98-112 | entry (a·rowOrigins+b)·NumVariants(K)+t of the result is the t-th augmentation of the P-by-P window at row b·S and column a·S |
| Grids.Rot90 | baseline/tf_aerial_images.py:93 | a quarter turn of an r-by-c grid is c-by-r and rectangular |
| Grids.FlipLR | baseline/tf_aerial_images.py:89 | numpy's fliplr: every row reversed |
| Grids.FlipUD | baseline/tf_aerial_images.py:91 | numpy's flipud: the order of the rows reversed |
| Grids.FlipLRInvolution | baseline/tf_aerial_images.py:89 | fliplr undoes itself |
| Grids.FlipUDInvolution | baseline/tf_aerial_images.py:91 | flipud undoes itself |
| Grids.HalfTurnIsBothFlips | baseline/tf_aerial_images.py:95 | rot90 applied twice is the half turn, i.e. flipping both axes, on grids of non-zero width (see Left out) |
| Grids.FillRect | baseline/tf_aerial_images.py:188 | slice assignment `g[r0:r1, c0:c1] = v`: same shape, v inside the rectangle (cut at the border), every other cell unchanged |
| Grids.AssignRect | baseline/tf_aerial_images.py:188 | the in-place slice assignment leaves the array equal to FillRect of its old contents |
| Labels.ValueToClass | baseline/tf_aerial_images.py:141-149 | the label is always one-hot, and it is road exactly when the summed input is strictly above 0.25 |
| Labels.ClassOfMean | baseline/tf_aerial_images.py:169 | a patch mean is road exactly when it is above 0.25; a mean of exactly 0.25 is non-road |
| Labels.Sum | baseline/tf_aerial_images.py:143 | numpy's sum over the flattened values |
| Balance.IndicesWhere | baseline/tf_aerial_images.py:270-271 | the comprehension yields exactly the indices whose label has a 1 at position c, strictly increasing |
| Balance.CountClasses | baseline/tf_aerial_images.py:255-261 | c0 is the number of labels with a 1 at position 0, and c0 + c1 is the number of labels |
| Balance.ClassesPartition | baseline/tf_aerial_images.py:255-271 | with one-hot labels, every example index is in exactly one of idx0 and idx1, and their lengths add up to the number of examples |
| Balance.BalancedIndices | baseline/tf_aerial_images.py:272 | every index of new_indices is a valid example index |
| Balance.BalanceClasses | baseline/tf_aerial_images.py:269-274 | patches and labels are both reordered by the same new_indices |
| Balance.BalancedOrder | baseline/tf_aerial_images.py:269-272 | new_indices has length 2m, m = min(c0, c1); its first half is the first m class-0 indices and its second half the first m class-1 indices, each half in the original order |
| Balance.BalancedSplit | baseline/tf_aerial_images.py:272 | new_indices is idx0[0:m] + idx1[0:m], both slices being whole |
| Balance.BalancedLabels | baseline/tf_aerial_images.py:269-274 | the balanced labels are m non-road labels followed by m road labels: every class-0 entry comes before every class-1 entry |
| Balance.GatherClasses | baseline/tf_aerial_images.py:273-274 | gathering m class-0 and then m class-1 indices yields m non-road and then m road labels |
| Balance.BalancedCounts | baseline/tf_aerial_images.py:276-283 | on the balanced labels the recount finds m examples of each class |
| Balance.CountOfIndices | baseline/tf_aerial_images.py:270-271 | the comprehension's length equals a recursive count of the matching labels |
| Balance.CountPrefix | baseline/tf_aerial_images.py:276-283 | in p non-road labels followed by road labels, a prefix of length n holds min(n,p) non-road and n-min(n,p) road labels |
| Balance.OneHotClass | baseline/tf_aerial_images.py:270-271 | a one-hot label has a 1 at position 0 exactly when it is non-road, and at position 1 exactly when it is road |
| Balance.CountOf | baseline/tf_aerial_images.py:255-261 | the number of labels with a 1 at position c |
| Balance.Take | baseline/tf_aerial_images.py:272 | the slice `s[0:n]`, the whole of s when it is shorter |
| Balance.Gather | baseline/tf_aerial_images.py:273-274 | numpy's fancy indexing `s[idx]`: the elements at the listed positions, in list order |
| Masks.MaskFromPredictionAt | baseline/tf_aerial_images.py:64-71 | mask cell (i, j) is 0 when prediction row i·width+j scores non-road above 0.5, and 1 otherwise |
| Masks.MaskValue | baseline/tf_aerial_images.py:69 | a prediction row becomes 0 when its non-road score exceeds 0.5, and 1 otherwise |
| Masks.MaskFromPrediction | baseline/tf_aerial_images.py:64-71 | the height-by-width mask of the prediction rows, row-major |
| Masks.RowsCover | baseline/tf_aerial_images.py:69 | the first n rows can be read at position 0 without IndexError |
| Masks.OneHotOf | baseline/tf_aerial_images.py:79-82 | a mask cell of 1 gives a road row, any other value a non-road row |
| Masks.PredictionFromMask | baseline/tf_aerial_images.py:73-84 | the height·width one-hot rows of a mask, row-major |
| Masks.PredictionToMask | baseline/tf_aerial_images.py:64-71 | the height-by-width mask filled by the running index equals the row-major mask of the prediction rows; IndexError exactly when fewer than height·width rows, or no class-0 score, can be read |
| Masks.MaskToPrediction | baseline/tf_aerial_images.py:73-84 | the (height·width)-by-2 matrix filled by the running index equals the one-hot rows of the mask, row-major |
| Masks.PredictionFromMaskAt | baseline/tf_aerial_images.py:73-84 | there are height·width rows, row i·width+j is one-hot, and it is road exactly when cell (i, j) is 1 |
| Masks.MaskRoundTrip | baseline/tf_aerial_images.py:64-84 | mask_to_prediction followed by prediction_to_mask with the same width and height reproduces any {0,1} mask |
| Masks.PredictionRoundTrip | baseline/tf_aerial_images.py:64-84 | prediction_to_mask followed by mask_to_prediction reproduces any one-hot prediction rows |
| Masks.LabelImage | baseline/tf_aerial_images.py:179-190 | the label image has shape imgwidth-by-imgheight |
| Masks.BlockIndexBound | baseline/tf_aerial_images.py:182-188 | every pixel's block number is the index of a prediction row |
| Masks.BlockOrigins | baseline/tf_aerial_images.py:182-183 | `range(0, n, s)` enumerates the ceil(n/s) block origins k·s, all below n |
| Masks.BlockCount | baseline/tf_aerial_images.py:182-183 | `range(0, n, s)` has ceil(n/s) elements |
| Masks.FillStart | baseline/tf_aerial_images.py:180-181 | nothing is filled yet in the zeroed array |
| Masks.FillBlockStep | baseline/tf_aerial_images.py:185-189 | writing block (a, b) with its mask value extends the filled part by exactly that block |
| Masks.FillRowDone | baseline/tf_aerial_images.py:183-189 | a finished row of blocks is the start of the next one |
| Masks.FillEnd | baseline/tf_aerial_images.py:182-190 | once every row of blocks is done the array is the label image |
| Masks.FillBlock | baseline/tf_aerial_images.py:185-189 | the body of the inner loop fills block (a, b) with the mask value of prediction row a·blocksPerColumn+b, and leaves the other blocks as they were |
| Masks.FillBlockRow | baseline/tf_aerial_images.py:183-189 | one pass of the inner loop fills row a of blocks, left to right |
| Masks.LabelToImg | baseline/tf_aerial_images.py:179-190 | the imgwidth-by-imgheight array returned equals the label image; ValueError when a range it builds has step 0 (h = 0, or w = 0 with a non-empty outer range); IndexError exactly when some block has no prediction row or the rows have no class-0 score |
| Masks.LabelImageBlock | baseline/tf_aerial_images.py:179-190 | every pixel of block (a, b), cut at the border, carries the mask value of prediction row a·blocksPerColumn+b, so the image is a {0,1} mask of constant blocks |
| PostProcess.UpdateCell | baseline/tf_aerial_images.py:387-397 | the two tests at one interior cell keep the mask's shape |
| PostProcess.Sweep | baseline/tf_aerial_images.py:383-399 | the whole raster sweep, from cell (1, 1) |
| PostProcess.SweepFrom | baseline/tf_aerial_images.py:385-397 | the rest of the sweep keeps the mask's shape |
| PostProcess.UpdateInPlace | baseline/tf_aerial_images.py:387-397 | the in-place body of the inner loop leaves the array equal to UpdateCell of its old contents |
| PostProcess.SetToZeroIfNoNeighbours | baseline/tf_aerial_images.py:383-399 | the in-place sweep leaves the mask equal to the raster-order sweep of its old contents, each cell seeing earlier updates |
| PostProcess.PostprocessPrediction | baseline/tf_aerial_images.py:401-407 | the prediction rows returned are those of the swept mask of the input rows; prediction_to_mask's IndexError passes through, under the same condition |
| PostProcess.SweepFromKeepsBorder | baseline/tf_aerial_images.py:385-397 | from any cell on, the sweep leaves every border cell as it was |
| PostProcess.SweepKeepsBorder | baseline/tf_aerial_images.py:383-399 | row 0, row height-1, column 0 and column width-1 are never changed |
| PostProcess.SweepFromKeepsBinary | baseline/tf_aerial_images.py:383-399 | a {0,1} mask stays a {0,1} mask |
| PostProcess.UpdateCellKeeps | baseline/tf_aerial_images.py:387-397 | a cell that does not differ from all four neighbours is left alone |
| PostProcess.SweepFromSmooth | baseline/tf_aerial_images.py:385-397 | from any cell on, the sweep leaves a mask with no isolated interior cell as it is |
| PostProcess.SmoothUnchanged | baseline/tf_aerial_images.py:383-399 | a mask in which no interior cell differs from all four of its neighbours comes back unchanged |
| PostProcess.SweepFromLoneCell | baseline/tf_aerial_images.py:385-397 | from any cell up to the lone cell, the sweep of a uniform mask with one flipped interior cell ends uniform |
| PostProcess.LoneCellRemoved | baseline/tf_aerial_images.py:383-399 | a lone interior 1 in an all-0 mask becomes 0, and a lone interior 0 in an all-1 mask becomes 1 |
| PostProcess.PostprocessSmooth | baseline/tf_aerial_images.py:401-407 | post-processing returns the prediction rows of a smooth {0,1} mask unchanged |
| PostProcess.RasterOrderMatters | baseline/tf_aerial_images.py:383-399 | later cells see earlier updates: an isolated 1 survives when the hole beside it is filled first |
| Training.BatchOffset | baseline/tf_aerial_images.py:602 | when train_size > BATCH_SIZE, 0 ≤ offset < train_size-BATCH_SIZE, so the window ends before the last example |
| Training.StepsPerEpoch | baseline/tf_aerial_images.py:600 | `int(train_size / BATCH_SIZE)` steps per epoch |
| Training.Slice | baseline/tf_aerial_images.py:603 | the slice `perm_indices[offset:offset+BATCH_SIZE]` |
| Training.Windows | baseline/tf_aerial_images.py:598-603 | the batch windows of one epoch, or ZeroDivisionError when BATCH_SIZE is 0 or equals train_size |
| Training.Window | baseline/tf_aerial_images.py:603 | batch_indices holds exactly BATCH_SIZE entries |
| Training.WindowsUpTo | baseline/tf_aerial_images.py:600-603 | the first n steps' windows, in step order |
| Training.EpochBatches | baseline/tf_aerial_images.py:600-603 | the windows recorded by the loop are the windows of every step, or the ZeroDivisionError |
| Training.WindowsShape | baseline/tf_aerial_images.py:600-603 | for a permutation: the epoch raises exactly when BATCH_SIZE is 0 or equals train_size; otherwise it has int(train_size/BATCH_SIZE) steps and every window holds BATCH_SIZE distinct in-range indices, never the permutation's last entry |
| Training.TrainingEpochs | baseline/tf_aerial_images.py:595-645 | without TERMINATE_AFTER_TIME the loop runs max(1, NUM_EPOCHS) epochs; with it, the loop stops after the first epoch whose elapsed time exceeds the limit, and stops at all exactly when some reading does |
| Submission.DigitChar | baseline/tf_aerial_images.py:691 | the character of a digit is a decimal digit |
| Submission.NatToString | baseline/tf_aerial_images.py:691 | str(n) is a non-empty digit string without a leading zero |
| Submission.NatToStringRoundTrip | baseline/tf_aerial_images.py:691 | reading str(n) back as a decimal number gives n |
| Submission.IntToStringRoundTrip | baseline/tf_aerial_images.py:692 | reading `str(v)` back gives v: digits of value v for v ≥ 0, '-' then digits of value -v for v < 0 |
| Submission.ZFill | baseline/tf_aerial_images.py:691 | s.zfill(w) has length max(\|s\|, w), ends with s, and is zeros in front |
| Submission.LeadingZeros | baseline/tf_aerial_images.py:691 | leading zeros do not change the value of a digit string |
| Submission.ZFillValue | baseline/tf_aerial_images.py:691 | str(i).zfill(3) is a digit string whose value is i |
| Submission.SplitAtUnderscore | baseline/tf_aerial_images.py:691 | digit strings carry no '_', so the first '_' of an id splits it uniquely |
| Submission.JoinedParts | baseline/tf_aerial_images.py:691 | two '_'-joined triples of digit strings are equal only part by part |
| Submission.PatchIdInjective | baseline/tf_aerial_images.py:691 | two blocks, of the same image or of different images, never share an id |
| Submission.ExampleId | baseline/tf_aerial_images.py:691 | block (16, 0) of test image 3 has the id `003_16_0` |
| Submission.PatchId | baseline/tf_aerial_images.py:691 | the id `str(i).zfill(3) + "_" + str(x) + "_" + str(y)` |
| Submission.CellRow | baseline/tf_aerial_images.py:691-692 | the row of block (x, y): its id and `str(prediction[y, x])` |
| Submission.BlockRows | baseline/tf_aerial_images.py:689-693 | the rows of the two loops over given origins, x outside, y inside |
| Submission.ImageRows | baseline/tf_aerial_images.py:686-693 | the rows of test image i, or IndexError when some `prediction[y, x]` is outside the array |
| Submission.ImageRowsFailsExactly | baseline/tf_aerial_images.py:686-692 | the loops as written raise IndexError exactly when ceil(num_rows/P) ≠ ceil(num_cols/P) and both are non-zero |
| Submission.ColumnRows | baseline/tf_aerial_images.py:690-693 | the inner loop emits one row per y |
| Submission.ColumnRowsStep | baseline/tf_aerial_images.py:690-693 | one more y appends the row of that block |
| Submission.BlockRowsStep | baseline/tf_aerial_images.py:689-693 | one more x appends the rows of that column |
| Submission.OutsideFails | baseline/tf_aerial_images.py:689-692 | one access outside the array makes the whole loop fail |
| Submission.AddressableStep | baseline/tf_aerial_images.py:689-692 | a column whose accesses are all inside the array extends the part that succeeds |
| Submission.ColumnLoop | baseline/tf_aerial_images.py:690-693 | the inner loop succeeds exactly when every prediction[y, x] it reads exists, then emits the rows of the column; otherwise it raises IndexError |
| Submission.SubmissionRows | baseline/tf_aerial_images.py:684-693 | the rows built for test image i are the block rows of the two loops, or IndexError |
| Submission.BlockRowsLength | baseline/tf_aerial_images.py:689-693 | the two loops emit \|xs\|·\|ys\| rows |
| Submission.BlockRowsAt | baseline/tf_aerial_images.py:689-693 | row a·\|ys\|+b is the block at x = xs[a], y = ys[b], valued prediction[ys[b], xs[a]] |
| Submission.ImageRowsShape | baseline/tf_aerial_images.py:686-693 | whenever the loops do not raise they emit ceil(num_rows/P)·ceil(num_cols/P) rows, x outer and y inner, row a·ceil(num_cols/P)+b holding id `zfill3(i)_aP_bP` and the value prediction[bP, aP] |
| Submission.SubmissionExample | baseline/tf_aerial_images.py:686-693 | image 3 with prediction[0,16] = 1 yields the row `003_16_0,1`, right after the rows of column x = 0 |
| Submission.NonSquareFails | baseline/tf_aerial_images.py:686-692 | a prediction of 16 rows and 32 columns raises IndexError |
| Submission.CorrectedRows | baseline/tf_aerial_images.py:686-693 | the rows with x running over the columns and y over the rows |
| Submission.CorrectedRowAt | baseline/tf_aerial_images.py:686-693 | with the loop bounds corrected, row a·ceil(rows/P)+b is the block at column aP and row bP, both inside the array |
| Submission.CorrectedRowsShape | baseline/tf_aerial_images.py:686-693 | with the loop bounds corrected, every shape yields ceil(cols/P)·ceil(rows/P) rows, one per block, never out of range |
| Submission.SquareAgrees | baseline/tf_aerial_images.py:686-693 | on a square prediction the loops as written never raise and agree with the corrected ones |

## Left out

- The convolutional network and its training mathematics (lines 300-562): floating-point TensorFlow numerics.
- `subtract_mean` (lines 60-62): floating-point, in place on a numpy view that aliases the image. `Patches.ImgCrop` takes a pure patch former `asPatch` instead, which must only keep patches rectangular. For the 2-D branch that parameter is wrapping in a one-element list (`Patches.WrapTwoDimensional`).
- `Patches.ImgCrop`: for colour images the model matches the source only when windows do not overlap (stride ≥ patch size, as on the prediction path at line 411). `subtract_mean` shifts a view of the image in place, and every entry `augment_image` appends is a view too. With the training stride 8 and patch size 16, each later subtraction shifts the pixels of patches already stored, and later windows are cut from the shifted image. No pure `asPatch` applied to windows of the original image reproduces those pixel values. The number of entries, their order, the window positions and the augmentation order (`Patches.ImgCropCount`, `Patches.ImgCropPatchAt`) are not affected.
- `img_float_to_uint8`, `error_rate`, `concatenate_images` and `make_img_overlay` (lines 175-225): floating-point pixel arithmetic and image blending.
- File and image I/O: `extract_data` and `extract_labels` loading (lines 114-173, except the labelling at line 169), `np.save`/`np.load` caches, checkpoints, `csv.writer`, printing. `Submission.SubmissionRows` builds the rows; writing them is left out.
- The validation carve-out (lines 288-294): it only slices the random permutation.
- The per-step feed of the network inside the epoch loop (lines 604-637). `Training.EpochBatches` records the windows only.
- `Training.TrainingEpochs`: with `TERMINATE_AFTER_TIME` it returns None when the given readings run out before one exceeds the limit; the source would keep running.
- `Training.StepsPerEpoch`: `int(train_size / BATCH_SIZE)` is float division then truncation; for these non-negative sizes it is modelled as floor division, ignoring float rounding on very large sizes.
- `Grids.HalfTurnIsBothFlips`: a grid of h > 0 empty rows (only with patch size 0) is left out. Nested sequences cannot hold numpy's 0-by-h quarter turn, so `Rot90` of it has no rows, while numpy's half turn keeps the h empty rows.
- `Submission.IntToString`: `str` of a prediction value is modelled for integers only, as `prediction.astype(np.int)` makes it.
- `Submission.ZFill`: zfill's handling of a leading sign is not modelled, since image numbers are never negative.
- `Masks.LabelToImg`: the running `idx` of `label_to_img` is computed as a·blocksPerColumn+b, which is the value the counter holds at that point.
- Patch size, stride and the number of transformations are parameters. For training patches the source passes `IMG_PATCH_SIZE`, `IMG_PATCH_STRIDE` and 4 (lines 114 and 152); for prediction it passes `IMG_PATCH_SIZE`, `IMG_PATCH_SIZE` and 0 (line 411).

## Findings

| source | as written | input that shows it | evidently intended | confidence | as-written member | corrected member |
|---|---|---|---|---|---|---|
| baseline/tf_aerial_images.py:689-692 | `x` ranges over `prediction.shape[0]` (rows) and `y` over `shape[1]` (columns), but the value is read as `prediction[y, x]`; this raises exactly when the two axes have different, non-zero block counts (`Submission.ImageRowsFailsExactly`) | a prediction with 16 rows and 32 columns, P = 16: y reaches 16, which is not a row index, so IndexError | x over the columns and y over the rows, so `prediction[y, x]` is always inside the array; the two agree on square predictions (`Submission.SquareAgrees`); the source sets `IMG_WIDTH = IMG_HEIGHT = 400` (lines 42-43) but never checks the shape of a test image | not executed | Submission.NonSquareFails | Submission.CorrectedRowsShape |
