# Segmentation post-processing and augmentation plan of image-segmentation-keras

This project models the two pieces of original logic in the repository.

**Inference post-processing** (`infer_model.py`):
- The H x W x C score tensor of a segmentation network becomes a class-index map by a per-cell arg-max. Ties go to the first channel.
- The distinct classes present are listed in ascending order, and each is counted.
- The classes are filtered against the fixed 21-name vocabulary. An id of 21 or more is silently skipped.
- A colour buffer of the original image's shape starts all black. It is painted in place through nearest-neighbour-resized class masks, in one of two modes:
  - "specific": the "road" class is painted green;
  - "all": every present known class gets its own random colour.

**Augmentation plan** (`create_augmented_images.py`, `augment_and_save`):
- A file whose image or mask cannot be decoded is skipped.
- Every other file is written once unchanged into the image and mask output directories.
- It is then written N more times under `<base>_aug_<i><ext>`.

## Layout

- `segmentation.dfy`, module `Segmentation`. Pure functions for:
  - the arg-max map;
  - `np.unique` and `Counter`;
  - the vocabulary filter and the logged legend;
  - `list.index`;
  - class masks;
  - nearest-neighbour resizing, as the explicit index map `src = floor(dst * srcLen / dstLen)`.

  It also holds the lemmas about them.
- `overlay.dfy`, module `Overlay`. Covers:
  - the colour buffer, an `array2<Bgr>` painted by a method with nested loops;
  - the two modes as methods;
  - value-level painting functions, which specify the methods;
  - the random palette, which is a parameter: `draws(k)` is the k-th `randint` triple.
- `pypath.dfy`, module `PyPath`. Python's POSIX `os.path.join` and `os.path.splitext`, and `str` on naturals, with their properties. These are library functions the script depends on. They are modelled from the standard POSIX behaviour of Python's `posixpath` and `genericpath`, whose sources are not part of this model.
- `augment.dfy`, module `AugmentedImages`:
  - `augment_and_save` as a method whose loop over the listing calls `SaveAugmentations`, the inner loop over the augmentations; the method is proved equal to the write plan `Plan`;
  - the properties of the plan and of the names.

## Model

| member | source | states |
|---|---|---|
| Segmentation.ArgMax | image-segmentation-keras/infer_model.py:49 | the result indexes a maximal score, and every earlier score is strictly smaller (first index on ties) |
| Segmentation.SegmentationMap | image-segmentation-keras/infer_model.py:49 | the map has the H x W shape; every cell is below C and is the first arg-max of its score vector |
| Segmentation.FlattenValues | image-segmentation-keras/infer_model.py:53 | a value occurs in the flattened map iff some cell holds it |
| Segmentation.FlattenLength | image-segmentation-keras/infer_model.py:53 | an H x W grid flattens to H*W values |
| Segmentation.FlattenCell | image-segmentation-keras/infer_model.py:53 | cell (i, j) of an H x W grid is at row-major position i*W + j of the flattened map |
| Segmentation.FlattenAt | image-segmentation-keras/infer_model.py:53 | flattening an H x W grid gives H*W values, cell (i, j) at row-major position i*W + j |
| Segmentation.Unique | image-segmentation-keras/infer_model.py:52 | the distinct values are strictly ascending, and a value is listed iff it occurs |
| Segmentation.Counts | image-segmentation-keras/infer_model.py:53 | the counter's keys are exactly the values that occur, and each maps to its number of occurrences |
| Segmentation.ClassCountsAddUp | image-segmentation-keras/infer_model.py:52-53 | the unique classes are ascending and are exactly the classes of the map's cells; their counts add up to H*W |
| Segmentation.CountOfIsOccurrences | image-segmentation-keras/infer_model.py:86 | a logged count is the number of occurrences of the class, and 0 for an absent class |
| Segmentation.KnownClasses | image-segmentation-keras/infer_model.py:83-84 | a class passes the filter iff it is present and below 21; ascending order is kept |
| Segmentation.KnownClassesStep | image-segmentation-keras/infer_model.py:136-137 | in an ascending list the next class has not been seen before, and the known classes so far grow by it iff it is below 21 |
| Segmentation.LegendReportsKnownClasses | image-segmentation-keras/infer_model.py:83-86 | every logged line is a present class below 21 with its vocabulary name and count; every present class below 21 gets a line; lines are in ascending class order |
| Segmentation.IndexOf | image-segmentation-keras/infer_model.py:94 | the first position of the name, and None iff the name is absent (where Python raises ValueError) |
| Segmentation.DesiredClassIndex | image-segmentation-keras/infer_model.py:93-94 | "road" is found at index 1 of the vocabulary |
| Segmentation.ClassMask | image-segmentation-keras/infer_model.py:97-99 | the mask has the map's shape, holds only 0 and 1, and holds 1 exactly where the map equals the class |
| Segmentation.ClassMasksDisjoint | image-segmentation-keras/infer_model.py:145 | the masks of two different classes never both hold 1 in one cell |
| Segmentation.SourceIndex | image-segmentation-keras/infer_model.py:102-106 | the nearest-neighbour source index of a destination index is in range |
| Segmentation.ResizeNearest | image-segmentation-keras/infer_model.py:102-106 | the result has the target shape, and each cell copies the source cell at the mapped indexes |
| Segmentation.ResizeCopiesSourceCells | image-segmentation-keras/infer_model.py:102-106 | every resized cell holds the value of some source cell |
| Segmentation.ResizeNoNewValues | image-segmentation-keras/infer_model.py:102-106 | every resized cell holds a value that occurs in the source map |
| Segmentation.ResizeKeepsBinary | image-segmentation-keras/infer_model.py:102-106 | resizing a 0/1 mask yields a 0/1 mask |
| Segmentation.ResizedClassMaskAt | image-segmentation-keras/infer_model.py:145-152 | the resized class mask holds 1 exactly where the resized map holds the class |
| Segmentation.ResizeClassMask | image-segmentation-keras/infer_model.py:145-152 | resizing a class mask equals taking the class mask of the resized map |
| Segmentation.ResizeDoubling | image-segmentation-keras/infer_model.py:102-106 | doubling both sides sends cell (i, j) to source cell (i/2, j/2) and keeps exactly the source values |
| Overlay.BlackImage | image-segmentation-keras/infer_model.py:111 | an image of the given shape whose every pixel is [0, 0, 0] |
| Overlay.Painted | image-segmentation-keras/infer_model.py:114 | masked assignment: pixels under a 1 take the colour, all others keep their value |
| Overlay.PaintDisjointCommutes | image-segmentation-keras/infer_model.py:145-155 | painting two disjoint masks gives the same image in either order |
| Overlay.PaintClasses | image-segmentation-keras/infer_model.py:136-155 | after painting a list of classes, a pixel has its class's colour if that class was painted, and is unchanged otherwise |
| Overlay.PaintOrderIrrelevant | image-segmentation-keras/infer_model.py:136-155 | two lists of the same classes, in any order, paint the same colour map |
| Overlay.ZerosLike | image-segmentation-keras/infer_model.py:111 | a fresh buffer of the original image's shape, all black |
| Overlay.Paint | image-segmentation-keras/infer_model.py:114 | in place: each pixel under a 1 of the mask takes the colour, and every other pixel keeps its old value |
| Overlay.ColorMapSpecific | image-segmentation-keras/infer_model.py:93-114 | a fresh buffer of the original shape; a pixel is green iff the resized map holds class 1 ("road") there, and black otherwise; the buffer equals the value-level painting |
| Overlay.AssignColors | image-segmentation-keras/infer_model.py:139-142 | `class_colors` holds exactly the classes handled, and every stored channel is at most 254 |
| Overlay.AssignColorsAt | image-segmentation-keras/infer_model.py:139-142 | the t-th known class holds the t-th random draw |
| Overlay.ClassColorsCoverKnownPixels | image-segmentation-keras/infer_model.py:136-155 | the keys of `class_colors` are exactly the present classes below 21; a pixel of the resized map has a colour iff its class is below 21 |
| Overlay.ShownIsPainted | image-segmentation-keras/infer_model.py:130-155 | a buffer where every pixel shows its class's colour (black for classes without one) equals painting the classes in turn onto a black image |
| Overlay.PaintClass | image-segmentation-keras/infer_model.py:142-155 | in place: stores the class's colour, paints exactly the pixels the resized map gives that class, leaves the rest, and keeps "every pixel shows its class's colour" |
| Overlay.PaintNext | image-segmentation-keras/infer_model.py:136-155 | one loop iteration keeps the loop's invariant: `class_colors` is the draws assigned to the known classes seen so far, and the buffer shows their colours |
| Overlay.ColorMapAll | image-segmentation-keras/infer_model.py:128-155 | a fresh buffer of the original shape; `class_colors` assigns the k-th known present class the k-th draw; every pixel shows `class_colors` of its resized class, or black (with ShownIsPainted, the buffer equals painting the known classes in turn) |
| PyPath.RFind | image-segmentation-keras/create_augmented_images.py:61 | the result is -1 or a position of the string |
| PyPath.RFindLast | image-segmentation-keras/create_augmented_images.py:61 | the position found holds the character and none follows it; -1 means it does not occur |
| PyPath.JoinInjective | image-segmentation-keras/create_augmented_images.py:36 | joining one directory with two relative names gives the same path only when the names are equal |
| PyPath.SplitExt | image-segmentation-keras/create_augmented_images.py:61 | base followed by extension is the original name |
| PyPath.SplitExtProperties | image-segmentation-keras/create_augmented_images.py:61 | an extension is a dot followed by no dot or separator, with some non-dot before it in the last component; there is none iff every dot of the last component has only dots before it |
| PyPath.ExtensionFound | image-segmentation-keras/create_augmented_images.py:61 | when the last dot follows a non-dot within the last component, the split there yields a dot-led extension with no further dot or separator |
| PyPath.NoExtension | image-segmentation-keras/create_augmented_images.py:61 | otherwise every dot of the last component has only dots before it |
| PyPath.NatToString | image-segmentation-keras/create_augmented_images.py:62 | a non-empty string of decimal digits without a leading zero |
| PyPath.ParseNatToString | image-segmentation-keras/create_augmented_images.py:62 | reading the decimal digits back gives the number |
| PyPath.NatToStringInjective | image-segmentation-keras/create_augmented_images.py:62 | distinct numbers are written differently |
| AugmentedImages.AugmentAndSave | image-segmentation-keras/create_augmented_images.py:30-69 | the writes issued, in order, are the plan of the file listing |
| AugmentedImages.SaveAugmentations | image-segmentation-keras/create_augmented_images.py:55-69 | the inner loop issues exactly the augmentation writes of the file, for i = 0..N-1 |
| AugmentedImages.PlanConcat | image-segmentation-keras/create_augmented_images.py:35 | the plan of two listings is the plan of the first followed by the plan of the second |
| AugmentedImages.PlanAt | image-segmentation-keras/create_augmented_images.py:44-48 | an unreadable file contributes no write, and the files after it are still processed (the skip is a `continue`) |
| AugmentedImages.AugWritesLength | image-segmentation-keras/create_augmented_images.py:55-69 | N augmentations issue 2N writes |
| AugmentedImages.AugWritesOfFile | image-segmentation-keras/create_augmented_images.py:55-69 | every augmentation write stores data derived from that file |
| AugmentedImages.AugWritesAt | image-segmentation-keras/create_augmented_images.py:55-69 | for each i < N, the image and then the mask of augmentation i, each under the i-th augmented name in its own output directory |
| AugmentedImages.FileWritesShape | image-segmentation-keras/create_augmented_images.py:51-69 | a readable file issues 2(1+N) writes: the original image and mask under the unchanged name, then the augmented pairs for i = 0..N-1 |
| AugmentedImages.PlanLength | image-segmentation-keras/create_augmented_images.py:35-69 | the plan has 2(1+N) writes per readable file |
| AugmentedImages.PlanWritesOnlyReadable | image-segmentation-keras/create_augmented_images.py:35-52 | every write belongs to a listed readable file; every listed readable file has its original image written under its own name |
| AugmentedImages.PlanDependsOnlyOnReads | image-segmentation-keras/create_augmented_images.py:36-45 | the plan depends only on whether each file's image and its mask under the same name, in the mask directory, can be read |
| AugmentedImages.AugmentedNameShape | image-segmentation-keras/create_augmented_images.py:61-63 | the augmented name is base + "_aug_" + str(i) + ext for a split of the original name into base + ext whose ext is empty or a dot followed by no dot or separator |
| AugmentedImages.DistinctNamesDistinctPaths | image-segmentation-keras/create_augmented_images.py:51-69 | two writes into one output directory under different relative names go to different paths |
| AugmentedImages.AugmentedNamesDistinct | image-segmentation-keras/create_augmented_images.py:62-63 | for one file, distinct i give distinct names, and no augmented name equals the original name |
| AugmentedImages.CrossFileNameClash | image-segmentation-keras/create_augmented_images.py:35-69 | for the readable listing ["a.png", "a_aug_0.png"], the plan writes the first augmented image of "a.png" and the original image of "a_aug_0.png" to the same path: names are not collision-free across files |

## Left out

- TFLite model loading, tensor I/O and `invoke`: a foreign runtime. The score tensor is an input, with its batch axis already dropped.
- SegmentationMap: `.squeeze()` after the arg-max drops every axis of length 1, not only the batch axis. The model is an H x W map throughout, so it matches the source only for H, W > 1; the exported networks give 257 x 257 maps (image-segmentation-keras/mobilenet_unet.py:48, image-segmentation-keras/mobilenet_bisenet.py:53).
- Scores are integers. Only their order matters to the arg-max; float scores and NaN are not modelled.
- `preprocess_image`, `cv2.imread` and the input resize: float arithmetic and foreign codec calls.
- SegmentationMap: requires at least one channel. numpy raises on an empty class axis, and that error path is not modelled.
- ResizeNearest: uses the index map floor(dst * srcLen / dstLen). It makes no claim of bit-exact agreement with OpenCV's rounding. An empty source map, on which `cv2.resize` raises, is excluded by the precondition.
- The colour buffer holds BGR triples of bytes. The `np.uint8` overflow of the `astype` calls does not arise, because masks hold only 0 and 1.
- `np.random.randint`: replaced by the `draws` parameter, a sequence of triples with each channel in 0..254.
- `cv2.addWeighted` blending, matplotlib display and `print`: float weighting inside OpenCV, and UI. The printed legend is modelled as the value `Legend`, not as output; it is printed in both modes, before the mode is read.
- The albumentations pipeline: opaque. Augmentation i of a file is identified only by the file and i, in the payload of its write.
- `os.makedirs`, `tqdm` and the actual image writes: I/O. The writes are returned as a plan. A later write to the same path replaces the earlier file; the plan keeps both writes.
- `os.listdir`: the listing is an input, in the order the file system gives it.
- `cv2.imread` for the augmentation script: two predicates on paths tell whether the image, and the mask read in grayscale, decode.
- `os.path.join` and `os.path.splitext` are modelled on their POSIX behaviour. The Windows flavour is not modelled.
- The script's top-level call with its fixed directories: the directories and `num_augmentations` (5 by default) are parameters of `AugmentAndSave`.
- AugmentAndSave: the plan is what a run writes when neither `augmentation(...)` nor `cv2.imwrite` raises. A raise in either ends the run after a prefix of the plan, and that path is not modelled.
- `keras_segmentation/models/bisenet.py`, `mobilenet_bisenet.py` and `mobilenet_unet.py` are framework graph and training glue, and are not part of this model.
