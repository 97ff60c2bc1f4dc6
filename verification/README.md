# Few-shot action recognition: the integer bookkeeping, in Dafny

This project models the deterministic core of a few-shot video action
recognition trainer. In that trainer, a relation network and a CTC head
classify query videos against a handful of labelled support videos per
class. The neural networks are out of scope. What is modelled is the index
and label arithmetic around them:

- **`Ctc` (utils.py)**
  - exact-match scoring (`ndarray_equal`, `compute_score`);
  - the repeat mask behind CTC's "merge consecutive repeats" rule (`ctc_length_mask`);
  - how `ctc_probability` moves the blank column and turns labels into letters before it calls the CTC engine;
  - the segment-and-argmax decoder `ctc_alignment_predict`;
  - the one-label-per-class decoder `ctc_predict_single`.
- **`Frames` (dataset.py, `__getitem__`)**
  - the stride, using Python's round-half-even;
  - the HAA dataset's truncation or padding to the expected length;
  - clip-sized index blocks;
  - the Kinetics dataset's subsampling by a scale and clamping of out-of-range indices;
  - grouping of the gathered frames into clips.
- **`Episodes` (dataset.py)**
  - class choice and label assignment for both datasets;
  - the random choice of one of three folders per HAA video;
  - Kinetics' frame-count filter and per-class cut;
  - `ClassBalancedSampler`, which drops class block 0;
  - the loader's batch-size rule.
- **`Split` (train.py)**
  - the per-episode support/query split;
  - the CTC length tensors;
  - one-hot targets;
  - the validation reward and accuracy count.
- **`Config` (config.py)**
  - checkpoint path resolution: a file under the checkpoint folder wins over the explicit path, for 15 positional slots;
  - `read_split`.
- **Support modules.**
  - `Py` holds the Python semantics the code relies on: exceptions as `Result`, negative indexing, clamped slicing, torch's truncating integer division and `round`.
  - `Choice` models `random.shuffle` as CPython's Fisher–Yates with the random draws as parameters, and `random.sample` as a prefix of such a shuffle.
  - `Seqs` and `Arith` are generic sequence and arithmetic lemmas.

Every random choice is a parameter constrained to the range the random
module can produce. So each property holds for every outcome of the random
draws. The CTC labelling probability comes from a module that is not part of
this model. It is the `Engine` function parameter: its arguments are modelled
exactly, and its value is left uninterpreted.

Two behaviours of the code are kept as written:

- **The sampler never fills a training batch.** The sampler drops block 0,
  yet for training queries the loader asks for `num_per_class * (class_num + 1)`
  items. So a training batch always falls at least `num_per_class` short
  (`Episodes.OneBatchHoldsEpisode`).
- **HAA test mode reads the validation split.** A "val" mode fails the
  dataset's assertion (`Episodes.HaaSplit`).

## Model

| member | source | states |
|---|---|---|
| Ctc.NdarrayEqual | utils.py:13-14 | true exactly when both arrays have the same length and agree at every position, i.e. are the same sequence |
| Ctc.CountEqualAll | utils.py:14 | the count of agreeing positions equals the length iff every position agrees |
| Ctc.ComputeScore | utils.py:16-23 | the score is 0 or 1; on an array it is 1 iff the array is exactly `[truth]`; on a scalar it is 1 iff the scalar equals truth |
| Ctc.LengthMask | utils.py:47-65 | for each row: the mask has L entries; entry 0 is true; entry i ≥ 1 is false iff the label repeats its predecessor. The length is L minus the adjacent repeats, which equals the number of true mask entries and the length of the collapsed row, and lies in [1, L]. The L == 1 early return gives the same answer |
| Ctc.LengthOneRow | utils.py:56-57 | the early return for one-column input (length 1, mask all true) is what the general loop would compute |
| Ctc.RowStep | utils.py:60-63 | one column of the loop keeps the invariant: the length counts the repeats seen so far and the mask marks exactly those columns |
| Ctc.MaskIsKeepMask | utils.py:60-64 | after the last column, the mask is the keep-mask of the row and the length is L minus its repeats |
| Ctc.KeepMask | utils.py:53-63 | entry i is true iff i is 0 or the label differs from its predecessor |
| Ctc.MergeRepeats | utils.py:60-63 | collapsing runs keeps the first and last label, is no longer than the row, and leaves no two equal neighbours |
| Ctc.RunCount | utils.py:52-64 | the number of kept positions and the collapsed length both equal L minus the number of adjacent equal pairs |
| Ctc.Letters | utils.py:68 | the alphabet has 52 letters |
| Ctc.LetterRoundTrip | utils.py:76-80 | distinct class indices get distinct letters: letter i decodes back to i |
| Ctc.LabelLetters | utils.py:79-80 | label t becomes `letters[t-1]` under Python indexing; IndexError exactly when some t-1 is outside [-52, 52) |
| Ctc.BlankRoundTrip | utils.py:82-85 | moving the blank column last and moving it back first restores the matrix |
| Ctc.CtcQuery | utils.py:71-85 | succeeds iff 1 ≤ columns ≤ 28 and every label has a letter; more than 27 classes is an AssertionError, a bad label an IndexError. On success: column j < C is old column j+1, column C is the old blank column 0, the alphabet is the first C letters, and label t in 1..C is the alphabet's letter t-1 |
| Ctc.LabelZeroLeavesAlphabet | utils.py:79-80 | label 0 does not fail: index -1 wraps to 'Z', which is outside any alphabet of at most 27 letters |
| Ctc.CtcProbability | utils.py:71-87 | fails exactly when the query cannot be built; otherwise it is the engine applied to that query |
| Ctc.Segments | utils.py:99-106 | segment s is the Python slice of targets from the sum of the earlier lengths, of length `lengths[s]` |
| Ctc.SegmentsExact | utils.py:99-106 | when the lengths sum to at most the target count, every segment lies inside the targets and is the exact slice |
| Ctc.SingletonSegments | utils.py:99-106 | with all lengths 1, segment s is `[targets[s]]` |
| Ctc.SegmentScores | utils.py:97-106 | entry s is what `ctc_probability` returns for segment s |
| Ctc.Winners | utils.py:96-109 | succeeds iff there are no rows, or there is a segment and all segments are valid queries; with no segment `torch.max` raises RuntimeError, otherwise the first bad segment's AssertionError or IndexError; each winner is a segment index and the first maximum of its row's scores |
| Ctc.AlignmentPredict | utils.py:89-113 | fails when a winner cannot be computed, or with RuntimeError when sample_num is 0 and there is a row; otherwise the classes of the winners |
| Ctc.WinnerClasses | utils.py:94-111 | for sample_num ≥ 1, class r means winner w lies in `[(r-1)*sample_num, r*sample_num)`, so r is in 1..ceil(S/sample_num); a negative sample_num gives classes ≤ 1 |
| Ctc.MirroredClasses | utils.py:94-111 | with truncating `//`, the classes for -sample_num are those for sample_num mirrored around 1 (class r becomes 2 - r) |
| Ctc.ClassesOfWinners | utils.py:111 | `w // m + 1` places w in its block of m and bounds the class by ceil(S/m) |
| Ctc.SingleScores | utils.py:135-141 | one score per class: entry c is what `ctc_probability` returns for the single label c+1, which never fails for these columns |
| Ctc.PredictSingle | utils.py:130-144 | succeeds iff there is a row and 2 ≤ columns ≤ 28 (AssertionError above, ValueError from the empty argmax otherwise); each prediction is 1 plus the first index of the maximum score, so in 1..C |
| Py.RoundHalfEven | dataset.py:76 | the result is the integer nearest to the quotient, ties going to the even one |
| Py.RoundHalfEvenUnique | dataset.py:76 | at most one integer satisfies the round-half-even condition, so the rounding is well defined |
| Py.TruncDiv | utils.py:111 | torch's integer `//` before PyTorch 1.13 rounds toward zero: q·d lies between 0 and n and misses n by less than abs(d), for either sign of n and d |
| Py.TruncDivNegate | utils.py:111 | negating the divisor negates the quotient, e.g. 1 // -2 is 0 (floor division would give -1) |
| Py.Index | utils.py:80 | a Python index succeeds iff it is in [-len, len) and reads from the end when negative |
| Py.Slice | utils.py:102 | a Python slice clamps both bounds into the sequence and is empty when they cross |
| Py.Prefix | dataset.py:81 | `xs[:k]` is the first min(k, len) items, or all but the last -k when k is negative |
| Choice.Shuffle | dataset.py:42 | the shuffle is a permutation: same length, same multiset, distinct items stay distinct |
| Choice.IdentityShuffle | dataset.py:42 | the draws that always pick the current position leave the list unchanged, so keeping the order is one legal outcome |
| Choice.Sample | train.py:148 | ValueError iff k exceeds the population; otherwise k items drawn from the population, without repetition when it is distinct |
| Frames.Stride | dataset.py:76 | ZeroDivisionError iff clip_num·window_num is 1; otherwise the round-half-even quotient of (length - frame_num) by (clip_num·window_num - 1) |
| Frames.StrideSign | dataset.py:76 | the stride is non-negative iff 2·(length - frame_num) ≥ -(count - 1); in particular when length ≥ frame_num |
| Frames.FitToLength | dataset.py:79-85 | a long enough list is cut to its first `expected` frames; a shorter one is padded with its last frame, which fails with IndexError only for an empty list. Position i holds frame min(i, last) |
| Frames.ClipIndices | dataset.py:89 | block i is `i*stride .. i*stride+frame_num-1` |
| Frames.SelectedFrames | dataset.py:87-89 | count·frame_num indices, block i of frame_num being clip i's indices |
| Frames.SelectedInBounds | dataset.py:77-89 | with a non-negative stride every selected index is in [0, expected_length), so in bounds after padding |
| Frames.Gather | dataset.py:102-108 | reading frames at the indices succeeds iff every index is valid in Python, and reads exactly those frames |
| Frames.Group | dataset.py:101-108 | the groups concatenate back to the input, every group but the last has exactly frame_num frames, and the last has 1..frame_num |
| Frames.GroupExact | dataset.py:101-108 | count·frame_num frames make count groups, group g being frames `g*frame_num .. (g+1)*frame_num - 1` |
| Frames.Clips | dataset.py:101-108 | the clip list is the grouping of the gathered frames, and empty when nothing was gathered |
| Frames.ExactClipShape | dataset.py:101-108 | count·frame_num gathered frames give count clips of frame_num frames each |
| Frames.ClipsOfSelection | dataset.py:87-108 | grouping a selection read from a video gives count clips where clip g, position j, is frame `g*stride + j`, or the last frame past the end |
| Frames.ClipReadAt | dataset.py:87-108 | the same read, for one clip position |
| Frames.ClipsReadUnique | dataset.py:101-108 | the clip shape and the per-position reads determine the clips completely |
| Frames.HaaClips | dataset.py:71-111 | ZeroDivisionError when count is 1; IndexError when an empty video needs padding; ValueError from `np.transpose` when nothing is selected (count < 1 or frame_num < 1); any success has count ≥ 2 clips of frame_num ≥ 1 frames, and with a non-negative stride clip g, position j, is frame `min(g*stride + j, last)` |
| Frames.HaaFacts | dataset.py:75-108 | pad, select, gather and group give that clip shape and those reads |
| Frames.Subsample | dataset.py:203 | `xs[::scale]` has ceil(n/scale) items, item k being `xs[k*scale]` |
| Frames.Clamp | dataset.py:211-213 | indices below length are kept; the others become length - 1 |
| Frames.ClampInRange | dataset.py:211-213 | for non-negative indices and a non-empty video every clamped index is in [0, length) and equals min(index, length-1) |
| Frames.ClampIdempotent | dataset.py:211-213 | clamping twice is clamping once |
| Frames.ClampedClips | dataset.py:205-239 | ZeroDivisionError when count is 1; ValueError from `np.transpose` when nothing is selected; any success has count ≥ 2 clips of frame_num ≥ 1 frames, and with a non-negative stride clip g, position j, is frame `min(g*stride + j, last)` |
| Frames.KineticsClips | dataset.py:201-239 | ZeroDivisionError when count is 1; ValueError when nothing is selected; with a non-negative stride, clip g, position j, is raw frame `min(g*stride + j, n-1) * scale`, n = ceil(raw/scale) |
| Frames.KineticsReads | dataset.py:203-237 | a clip read from the subsampled video reads raw frame `min(g*stride + j, n-1) * scale` of the original video |
| Frames.PaddingMatchesClamping | dataset.py:80-85 | HAA's padding and Kinetics' clamping build the same clips from the same frame list whenever the stride is non-negative |
| Frames.KineticsStrideNonNegative | dataset.py:163 | a video that passed the filter of at least FRAME_NUM frames still has at least 3 frames after a scale of 2 to 4, so the stride for FRAME_NUM frames and CLIP_NUM·WINDOW_NUM clips stays non-negative |
| Episodes.LabelMap | dataset.py:32-34 | the label dictionary's keys are exactly the class names |
| Episodes.LabelMapLast | dataset.py:32-34 | each name's label is base plus its last position in the list: in range, the name sits there, and no later position holds it |
| Episodes.LabelMapStep | dataset.py:33-34 | one loop iteration extends the labelling of the names before it |
| Episodes.LabelMapDistinct | dataset.py:33-34 | for distinct names, name i gets label base + i |
| Episodes.RandomStretch | dataset.py:46-47 | `max(0, randint(1,5)-3)` is a folder in {0,1,2}, and it is 0 iff the roll is at most 3 |
| Episodes.StretchReachesEveryFolder | dataset.py:46-48 | every folder 0..2 is produced by some roll |
| Episodes.HaaSplit | dataset.py:18-30 | "train" reads split 0, "test" reads split 1, and "val" fails the mode assertion |
| Episodes.HaaClasses | dataset.py:31 | ValueError unless 0 ≤ class_num ≤ population; otherwise class_num classes from the split, distinct when the split is |
| Episodes.HaaLabels | dataset.py:30-34 | the chosen HAA classes get labels 1..class_num in order |
| Episodes.HaaClassVideos | dataset.py:38-50 | min(inst_num, listing) videos of the class listing, each labelled with the class and placed in folder 0..2; distinct when the listing is |
| Episodes.PickedNames | dataset.py:41-43 | shuffling then cutting to inst_num keeps min(inst_num, n) names of the listing, without repetition |
| Episodes.ClassLabels | dataset.py:38-39 | the label looked up for class c is in range, and equals base + c for distinct names |
| Episodes.HaaVideosUpTo | dataset.py:36-50 | every video so far carries a label of a class already visited, and a folder in 0..2 |
| Episodes.HaaVideos | dataset.py:36-50 | every HAA video has a label in 1..class_num and a folder in 0..2 |
| Episodes.HaaVideoBlocks | dataset.py:38-50 | the videos of class c are appended as one block after those of earlier classes, all labelled c + 1 |
| Episodes.KineticsClasses | dataset.py:135-142 | the split of the mode (train, val or test) shuffled and cut: min(class_num + 1, n) of its classes, without repetition |
| Episodes.KineticsLabels | dataset.py:144-147 | the chosen Kinetics classes get labels 0..class_num in order |
| Episodes.Qualifying | dataset.py:157-165 | the kept candidates all have at least frame_num frames |
| Episodes.QualifyingMembers | dataset.py:161-165 | a candidate is kept iff it is listed and has at least frame_num frames |
| Episodes.PickCandidates | dataset.py:167-170 | the cut of the shuffled candidates has Python-prefix length and only listed paths |
| Episodes.KineticsClassVideos | dataset.py:152-171 | ValueError exactly when the cut leaves nothing to unzip; otherwise min(inst_num, qualifying) entries, all with the class label and a qualifying path |
| Episodes.ClassBlocks | dataset.py:152-174 | each class's block succeeds iff the class is usable, fails with ValueError otherwise, and carries labels from the label list |
| Episodes.Collect | dataset.py:150-174 | a failure of the whole loop is the failure of some class |
| Episodes.CollectOk | dataset.py:152-174 | the loop succeeds iff every class succeeds |
| Episodes.CollectLabels | dataset.py:173-174 | the concatenated entries carry labels from the list when each class's do |
| Episodes.KineticsVideos | dataset.py:150-174 | ValueError iff some class has no usable video; otherwise every label is in 0..class_num |
| Episodes.Kept | dataset.py:367-368 | a block keeps min(num_per_class, inst_num) indices |
| Episodes.SamplerBlock | dataset.py:364-368 | block j keeps that many distinct indices, all in `[j*inst_num, (j+1)*inst_num)` |
| Episodes.CutShuffledRange | dataset.py:364-368 | shuffling a range and cutting it keeps distinct members of the range |
| Episodes.ClassBounds | dataset.py:366 | an index of block j, 1 ≤ j ≤ class_num, lies in `[inst_num, (class_num+1)*inst_num)` |
| Episodes.KeptBlocks | dataset.py:363-371 | after dropping block 0, class_num blocks remain, block b holding distinct indices of class b + 1 |
| Episodes.KeptBlocksDisjoint | dataset.py:363-371 | no index is in two blocks |
| Episodes.KeptBlocksFacts | dataset.py:363-372 | the flattened batch is distinct and lies in `[inst_num, (class_num+1)*inst_num)`, so block 0 is never yielded |
| Episodes.SamplerBatch | dataset.py:360-377 | class_num·min(num_per_class, inst_num) distinct indices, all outside block 0, a permutation of the kept blocks; without shuffle the blocks appear in class order |
| Episodes.SamplerAscending | dataset.py:371-375 | without shuffle the class of the indices never decreases along the batch |
| Episodes.SamplerBlockMembers | dataset.py:360-377 | for every class j the batch's indices of class j are exactly block j's kept indices, shuffled or not |
| Episodes.BatchSize | dataset.py:382-389 | num_per_class·(class_num+1) iff mode is "train" and not support; num_per_class·class_num otherwise |
| Episodes.OneBatchHoldsEpisode | dataset.py:379-389 | one batch holds the sampler's whole output. Outside training queries it is exactly full when num_per_class ≤ inst_num; for training queries it is at least num_per_class short |
| Split.RangeMembers | train.py:147 | `list(range(start, end))` is distinct and holds exactly start..end-1 |
| Split.Complement | train.py:149 | `set(index) - set(q)` holds exactly the index members not picked, without repetition |
| Split.ComplementSize | train.py:149 | removing Q distinct picks from a distinct block leaves |block| - Q indices |
| Split.PickAndRest | train.py:148-149 | the pick and the rest, in any order, split the block: both distinct, disjoint, covering it |
| Split.ClassPick | train.py:145-149 | class i's query pick has QUERY_NUM indices and its support SAMPLE_NUM, and together they split `[(S+Q)*i, (S+Q)*(i+1))` |
| Split.Picks | train.py:144-151 | one pick per class, part i splitting class i's block |
| Split.SplitEpisode | train.py:142-152 | C·Q query and C·S support indices; the query list is a permutation of the concatenated per-class picks |
| Split.SupportInClassOrder | train.py:150-151 | the support list holds class i's support as its block i, so support index k belongs to class k // SAMPLE_NUM, which the reshape to [class, sample] relies on |
| Split.SupportOrder | train.py:150-151 | concatenated supports are laid out class by class |
| Split.SplitDisjoint | train.py:142-152 | no index is both query and support, and neither list repeats an index |
| Split.SplitCovers | train.py:142-152 | an index is query or support iff it is in `[0, CLASS_NUM*(S+Q))` |
| Split.FlatCovers | train.py:144-151 | the per-class parts together cover exactly the class blocks |
| Split.InputLengths | train.py:111 | one input length WINDOW_NUM per query |
| Split.TargetLengths | train.py:112 | one target length 1 per query |
| Split.TargetsAreLabels | train.py:111-112 | the target lengths sum to the number of labels, and cutting the labels by them gives segment n = [label n] |
| Split.TargetsFitInputs | train.py:111-112 | every target fits its input when WINDOW_NUM ≥ 1 |
| Split.OneHot | train.py:201 | a RuntimeError unless every label is in 1..CLASS_NUM; otherwise one row of CLASS_NUM per label |
| Split.OneHotRoundTrip | train.py:201 | row n has a 1 exactly at column label-1 (0 elsewhere), so its first argmax plus one is the label again |
| Split.MseRewards | train.py:305-306 | IndexError iff there are more predictions than labels; otherwise at most one point per prediction, all points iff each prediction is its 0-based label |
| Split.CtcRewards | train.py:307-308 | at most one point per zipped pair, all points iff each prediction equals its 1-based label |
| Split.ScoreSumCounts | train.py:307-308 | the sum of scalar scores counts the agreeing positions |
| Split.RewardsAgree | train.py:299-308 | when the CTC prediction is the MSE prediction plus one, both rewards are equal |
| Split.Accuracy | train.py:305-310 | accuracy·covered = max(mse, ctc) whenever covered ≠ 0; a zero cover gives nan when both rewards are 0 and inf otherwise, never an error; in [0,1] when both rewards are at most covered, and 1 iff one of them is all covered |
| Split.EpisodeAccuracy | train.py:263-310 | fails with the CTC error first, then IndexError when predictions outnumber labels; the accuracy is finite iff CLASS_NUM·QUERY_NUM ≠ 0, nan for an empty episode; on a full non-empty episode it is in [0,1] and is 1 iff all MSE or all CTC predictions are right |
| Config.SlotIndex | config.py:78-94 | every variable reads one of the 15 result positions |
| Config.SlotNameAgrees | config.py:71-94 | the positional table is right: every variable reads the default file named after its own network and kind |
| Config.EncoderNamesAgree | config.py:71-94 | the encoder's model, optimizer and scheduler variables read positions 0, 4 and 8, named `encoder.pkl`, `encoder_optim.pkl` and `encoder_scheduler.pkl` |
| Config.RnNamesAgree | config.py:71-94 | the relation network's variables read positions 1, 5 and 9, named `rn.pkl`, `rn_optim.pkl` and `rn_scheduler.pkl` |
| Config.TcnNamesAgree | config.py:71-94 | the TCN's variables read positions 2, 6 and 10, named `tcn.pkl`, `tcn_optim.pkl` and `tcn_scheduler.pkl` |
| Config.Rn0NamesAgree | config.py:71-94 | the second relation network's variables read positions 3, 7 and 11, named `rn0.pkl`, `rn0_optim.pkl` and `rn0_scheduler.pkl` |
| Config.KnncNamesAgree | config.py:71-94 | the kNN classifier's variables read positions 12, 13 and 14, named `knnc.pkl`, `knnc_optim.pkl` and `knnc_scheduler.pkl` |
| Config.SlotAt | config.py:71-73 | every position is read by some variable |
| Config.SlotIndexBijective | config.py:78-94 | positions and variables correspond one to one |
| Config.Join | config.py:75 | the joined path ends in the file name and is non-empty |
| Config.Results | config.py:70-76 | one result per default name |
| Config.Resolve | config.py:69-94 | without a checkpoint folder all variables keep their values; with one, each takes the folder's file of its own name when that exists and keeps its value otherwise |
| Config.ResolveIdempotent | config.py:69-94 | resolving twice is resolving once |
| Config.RStrip | config.py:108 | the stripped line is a prefix ending in non-whitespace, and only whitespace was removed |
| Config.Lines | config.py:104 | the lines concatenate back to the text, are non-empty, and only the last may lack its newline |
| Config.ReadSplit | config.py:100-110 | a missing file gives []; otherwise one right-stripped entry per line |
| Config.ReadSplitRoundTrip | config.py:100-110 | names written one per line, none holding a newline or ending in whitespace, are read back unchanged |
| Config.LinesOfSplitFile | config.py:104 | such a file splits into one line per name, each with its newline |

## Left out

- `attention_pool.py`: it holds unresolved merge-conflict markers and is float tensor algebra through learned layers.
- The CTC forward algorithm (`ctcLabelingProb`) and `ctc_decode`/`ctc_predict`: that module is not part of this model. The labelling probability is the uninterpreted `Engine` parameter, and `ctc_predict` only forwards to the decoder.
- `mean_confidence_interval`, `PCA`, softmax, the MSE and CTC losses, optimisers, schedulers and gradient clipping: floating-point numerics with nothing integer to state.
- Image I/O and augmentation (`cv2` read/resize/flip, the `/127.5 - 1` scaling, Gaussian noise): frames are an abstract element type `T`.
- Directory listing, file existence, checkpoint saving and loading, and logging. The filesystem is a set of existing paths, or an `Option` of file text.
- `my_load` refers to an undefined `args`, and `weights_init` is layer initialisation. Neither is modelled.
- `AVADataset`, `__str__`, `print_dataset`, `get_classes` and `get_labels` are display or accessor code.
- The network calls of train.py, the training loop, DataParallel and GPU placement.
- train.py calls `StandardDataset`/`FinegymDataset` and calls `get_data_loader` without `support`. It also reads configuration names that config.py does not define. Each file's own logic is modelled, and those calls are not reconciled.
- Tensor shapes are sequences. A ragged input is outside `LengthMask`'s precondition, because a tensor is always rectangular.
- Python's `round` of a double is modelled as exact rational round-half-even. It can differ only when the double quotient is inexact next to a .5 tie.
- `readlines` in text mode (universal newlines) also ends a line at "\r\n" and at a lone "\r". The model splits on "\n" only, so `Config.ReadSplitRoundTrip` is stated for names without "\r".
- Frames.KineticsClips: the scale is any value ≥ 1. The per-video draw of `randint(2,4)` matters only for `Frames.KineticsStrideNonNegative`.
- Episodes.KineticsClasses: `random.shuffle` also reorders the caller's split list in place. That side effect is not modelled.
- Ctc.WinnerClasses: the `//` on the int tensor entry is modelled as truncation toward zero, as in PyTorch releases before 1.13 (those whose DataLoader iterator still has the `.next()` that train.py calls). From 1.13 it floors, and the two differ only for a negative sample_num.
- Split.MseRewards: the MSE predictions are inputs. `torch.max` over the softmax of the relation scores is float code.
- Split.SplitEpisode: SAMPLE_NUM and QUERY_NUM are natural numbers. Negative configuration counts are not modelled.
- `ClassBalancedSampler.__len__` returns the constant 1, which no member models. The loader draws batches from the sampler's iteration, and `Episodes.OneBatchHoldsEpisode` relates that to the batch size.
- Split.Accuracy: a zero cover gives the outcomes nan and inf. The RuntimeWarning numpy prints with them is output and is not modelled.
- Split.EpisodeAccuracy: the bounds are stated for a full episode of CLASS_NUM·QUERY_NUM predictions and labels, which is what the validation batch holds.
