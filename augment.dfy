/**
 * `augment_and_save`: for every listed image file whose image and mask both
 * decode, the original pair is written under the unchanged name, followed by
 * N augmented pairs named `<base>_aug_<i><ext>`. A file whose image or mask
 * cannot be read is skipped. The writes are modelled as the sequence of
 * (directory, file name, payload) triples the function issues, in order.
 */
module AugmentedImages {
  import opened PyPath

  /** The four directories the function is called with. */
  datatype Directories = Directories(inputImages: string, inputMasks: string,
                                     outputImages: string, outputMasks: string)

  /**
   * What a write stores: the decoded image or mask of a source file, or the
   * image or mask half of its i-th augmentation (the transform is opaque, its
   * i-th application to the pair is identified by the file and i).
   */
  datatype Payload =
    | OriginalImage(file: string)
    | OriginalMask(file: string)
    | AugmentedImage(file: string, draw: nat)
    | AugmentedMask(file: string, draw: nat)

  /** `cv2.imwrite(os.path.join(dir, name), payload)`. */
  datatype Write = Write(dir: string, name: string, payload: Payload)

  /** The path a write goes to: `os.path.join(dir, name)`. */
  function PathOf(w: Write): string {
    Join(w.dir, w.name)
  }

  /**
   * Both reads of a file succeed: the image is read in its input directory and
   * the mask under the same file name in the mask directory. `imageReadable`
   * and `maskReadable` stand for `cv2.imread(path)` and `cv2.imread(path, 0)`
   * not returning None.
   */
  predicate Readable(dirs: Directories, imageReadable: string -> bool, maskReadable: string -> bool, file: string) {
    imageReadable(Join(dirs.inputImages, file)) && maskReadable(Join(dirs.inputMasks, file))
  }

  /** `f"{base_name}_aug_{i}{ext}"` with `base_name, ext = os.path.splitext(file)`. */
  function AugmentedName(file: string, i: nat): string {
    var (base, ext) := SplitExt(file);
    base + "_aug_" + NatToString(i) + ext
  }

  /** The writes of the first n augmentations of a file: image, then mask, for i = 0, 1, ... */
  function AugWrites(dirs: Directories, file: string, n: nat): seq<Write> {
    if n == 0 then []
    else
      AugWrites(dirs, file, n - 1) +
      [Write(dirs.outputImages, AugmentedName(file, n - 1), AugmentedImage(file, n - 1)),
       Write(dirs.outputMasks, AugmentedName(file, n - 1), AugmentedMask(file, n - 1))]
  }

  /** The writes for a readable file: the original pair, then its augmentations. */
  function FileWrites(dirs: Directories, file: string, n: nat): seq<Write> {
    [Write(dirs.outputImages, file, OriginalImage(file)), Write(dirs.outputMasks, file, OriginalMask(file))] +
    AugWrites(dirs, file, n)
  }

  /** The writes for a listing of files, one file after the other. */
  function Plan(dirs: Directories, files: seq<string>, imageReadable: string -> bool,
                maskReadable: string -> bool, n: nat): seq<Write>
  {
    if files == [] then []
    else
      var front, file := files[..|files| - 1], files[|files| - 1];
      Plan(dirs, front, imageReadable, maskReadable, n) +
      (if Readable(dirs, imageReadable, maskReadable, file) then FileWrites(dirs, file, n) else [])
  }

  /** How many files of the listing can be read. */
  function ReadableCount(dirs: Directories, files: seq<string>, imageReadable: string -> bool,
                         maskReadable: string -> bool): nat
  {
    if files == [] then 0
    else
      ReadableCount(dirs, files[..|files| - 1], imageReadable, maskReadable) +
      (if Readable(dirs, imageReadable, maskReadable, files[|files| - 1]) then 1 else 0)
  }

  /** The inner loop of the function: the augmented pairs of one file, for i = 0 .. n-1. */
  method SaveAugmentations(dirs: Directories, imageFile: string, n: nat) returns (writes: seq<Write>)
    ensures writes == AugWrites(dirs, imageFile, n)
  {
    writes := [];
    var i := 0;
    while i < n
      invariant 0 <= i <= n
      invariant writes == AugWrites(dirs, imageFile, i)
    {
      var split := SplitExt(imageFile);
      var baseName, ext := split.0, split.1;
      var augmentedImageName := baseName + "_aug_" + NatToString(i) + ext;
      var augmentedMaskName := baseName + "_aug_" + NatToString(i) + ext;
      writes := writes + [Write(dirs.outputImages, augmentedImageName, AugmentedImage(imageFile, i)),
                          Write(dirs.outputMasks, augmentedMaskName, AugmentedMask(imageFile, i))];
      i := i + 1;
    }
  }

  /**
   * The function itself: a loop over the listing, which skips a file that
   * cannot be read and otherwise writes its original pair and its augmentations.
   * `numAugmentations` is the caller's count; the function's default, used by
   * the script, is 5.
   */
  method AugmentAndSave(dirs: Directories, files: seq<string>, imageReadable: string -> bool,
                        maskReadable: string -> bool, numAugmentations: nat)
    returns (writes: seq<Write>)
    ensures writes == Plan(dirs, files, imageReadable, maskReadable, numAugmentations)
  {
    writes := [];
    var t := 0;
    while t < |files|
      invariant 0 <= t <= |files|
      invariant writes == Plan(dirs, files[..t], imageReadable, maskReadable, numAugmentations)
    {
      var imageFile := files[t];
      assert files[..t + 1][..t] == files[..t];
      var imagePath := Join(dirs.inputImages, imageFile);
      var maskPath := Join(dirs.inputMasks, imageFile);
      if !imageReadable(imagePath) || !maskReadable(maskPath) {
        t := t + 1;
        continue;
      }
      writes := writes + [Write(dirs.outputImages, imageFile, OriginalImage(imageFile)),
                          Write(dirs.outputMasks, imageFile, OriginalMask(imageFile))];
      var augmentedWrites := SaveAugmentations(dirs, imageFile, numAugmentations);
      writes := writes + augmentedWrites;
      t := t + 1;
    }
    assert files[..|files|] == files;
  }

  // ---------------------------------------------------------------------------
  // Properties of the plan
  // ---------------------------------------------------------------------------

  /** Processing two listings one after the other issues the writes of both, in order. */
  lemma {:induction false} PlanConcat(dirs: Directories, a: seq<string>, b: seq<string>,
                                      imageReadable: string -> bool, maskReadable: string -> bool, n: nat)
    ensures Plan(dirs, a + b, imageReadable, maskReadable, n) ==
            Plan(dirs, a, imageReadable, maskReadable, n) + Plan(dirs, b, imageReadable, maskReadable, n)
  {
    if b == [] {
      assert a + b == a;
    } else {
      var front := b[..|b| - 1];
      assert (a + b)[..|a + b| - 1] == a + front;
      PlanConcat(dirs, a, front, imageReadable, maskReadable, n);
    }
  }

  /**
   * A file in the middle of a listing contributes nothing when it cannot be
   * read, and its own writes otherwise; a failed read does not stop the files
   * after it from being processed.
   */
  lemma PlanAt(dirs: Directories, before: seq<string>, file: string, after: seq<string>,
               imageReadable: string -> bool, maskReadable: string -> bool, n: nat)
    ensures Plan(dirs, before + [file] + after, imageReadable, maskReadable, n) ==
            Plan(dirs, before, imageReadable, maskReadable, n) +
            (if Readable(dirs, imageReadable, maskReadable, file) then FileWrites(dirs, file, n) else []) +
            Plan(dirs, after, imageReadable, maskReadable, n)
  {
    PlanConcat(dirs, before + [file], after, imageReadable, maskReadable, n);
    assert (before + [file])[..|before|] == before;
  }

  /** Each augmentation contributes two writes. */
  lemma {:induction false} AugWritesLength(dirs: Directories, file: string, n: nat)
    ensures |AugWrites(dirs, file, n)| == 2 * n
  {
    if n > 0 {
      AugWritesLength(dirs, file, n - 1);
    }
  }

  /** Every augmentation write of a file stores something derived from that file. */
  lemma {:induction false} AugWritesOfFile(dirs: Directories, file: string, n: nat)
    ensures forall w :: w in AugWrites(dirs, file, n) ==> w.payload.file == file
  {
    if n > 0 {
      AugWritesOfFile(dirs, file, n - 1);
    }
  }

  /** The augmentation writes of one file: for each i < n, the image and then the mask, both under the i-th name. */
  lemma {:induction false} AugWritesAt(dirs: Directories, file: string, n: nat)
    ensures |AugWrites(dirs, file, n)| == 2 * n
    ensures forall i :: 0 <= i < n ==>
              AugWrites(dirs, file, n)[2 * i] == Write(dirs.outputImages, AugmentedName(file, i), AugmentedImage(file, i)) &&
              AugWrites(dirs, file, n)[2 * i + 1] == Write(dirs.outputMasks, AugmentedName(file, i), AugmentedMask(file, i))
  {
    if n > 0 {
      AugWritesAt(dirs, file, n - 1);
    }
  }

  /**
   * A readable file is written 1 + n times into each output directory: first
   * the original image and mask under the unchanged name, then the image and
   * the mask of augmentation i under one and the same augmented name.
   */
  lemma FileWritesShape(dirs: Directories, file: string, n: nat)
    ensures var ws := FileWrites(dirs, file, n);
            |ws| == 2 * (1 + n) &&
            ws[0] == Write(dirs.outputImages, file, OriginalImage(file)) &&
            ws[1] == Write(dirs.outputMasks, file, OriginalMask(file)) &&
            forall i :: 0 <= i < n ==>
              ws[2 + 2 * i] == Write(dirs.outputImages, AugmentedName(file, i), AugmentedImage(file, i)) &&
              ws[3 + 2 * i] == Write(dirs.outputMasks, AugmentedName(file, i), AugmentedMask(file, i))
  {
    AugWritesAt(dirs, file, n);
  }

  lemma MulSucc(a: nat, b: nat)
    ensures a * (b + 1) == a * b + a
  {
  }

  /** Every readable file issues the same number of writes, so the plan's length is proportional to their count. */
  lemma {:induction false} PlanLength(dirs: Directories, files: seq<string>, imageReadable: string -> bool,
                                      maskReadable: string -> bool, n: nat)
    ensures |Plan(dirs, files, imageReadable, maskReadable, n)| ==
            2 * (1 + n) * ReadableCount(dirs, files, imageReadable, maskReadable)
  {
    if files != [] {
      var front := files[..|files| - 1];
      PlanLength(dirs, front, imageReadable, maskReadable, n);
      AugWritesLength(dirs, files[|files| - 1], n);
      var file := files[|files| - 1];
      var size, count := 2 * (1 + n), ReadableCount(dirs, front, imageReadable, maskReadable);
      assert |FileWrites(dirs, file, n)| == size;
      if Readable(dirs, imageReadable, maskReadable, file) {
        assert ReadableCount(dirs, files, imageReadable, maskReadable) == count + 1;
        MulSucc(size, count);
      } else {
        assert ReadableCount(dirs, files, imageReadable, maskReadable) == count;
      }
    }
  }

  /**
   * Every write belongs to a listed file that could be read; conversely each
   * listed readable file has its original image written under its own name.
   */
  lemma {:induction false} PlanWritesOnlyReadable(dirs: Directories, files: seq<string>, imageReadable: string -> bool,
                                                  maskReadable: string -> bool, n: nat)
    ensures forall w :: w in Plan(dirs, files, imageReadable, maskReadable, n) ==>
              w.payload.file in files && Readable(dirs, imageReadable, maskReadable, w.payload.file)
    ensures forall f :: f in files && Readable(dirs, imageReadable, maskReadable, f) ==>
              Write(dirs.outputImages, f, OriginalImage(f)) in Plan(dirs, files, imageReadable, maskReadable, n)
  {
    if files != [] {
      var front, file := files[..|files| - 1], files[|files| - 1];
      PlanWritesOnlyReadable(dirs, front, imageReadable, maskReadable, n);
      AugWritesOfFile(dirs, file, n);
      assert forall f :: f in files <==> f in front || f == file;
      var p := Plan(dirs, files, imageReadable, maskReadable, n);
      var pf := Plan(dirs, front, imageReadable, maskReadable, n);
      assert forall w :: w in p ==> w in pf || (Readable(dirs, imageReadable, maskReadable, file) && w in FileWrites(dirs, file, n));
    }
  }

  /**
   * The plan depends on the file system only through the two reads per file:
   * the image under its name in the image directory and the mask under the
   * same name in the mask directory.
   */
  lemma {:induction false} PlanDependsOnlyOnReads(dirs: Directories, files: seq<string>,
                                                  ir1: string -> bool, mr1: string -> bool,
                                                  ir2: string -> bool, mr2: string -> bool, n: nat)
    requires forall f :: f in files ==>
               ir1(Join(dirs.inputImages, f)) == ir2(Join(dirs.inputImages, f)) &&
               mr1(Join(dirs.inputMasks, f)) == mr2(Join(dirs.inputMasks, f))
    ensures Plan(dirs, files, ir1, mr1, n) == Plan(dirs, files, ir2, mr2, n)
  {
    if files != [] {
      var front := files[..|files| - 1];
      assert forall f :: f in front ==> f in files;
      PlanDependsOnlyOnReads(dirs, front, ir1, mr1, ir2, mr2, n);
    }
  }

  // ---------------------------------------------------------------------------
  // Properties of the names
  // ---------------------------------------------------------------------------

  /**
   * The augmented name puts `_aug_<i>` between a base and an extension that
   * together make up the original name; the extension is empty or a dot
   * followed by neither dots nor separators.
   */
  lemma AugmentedNameShape(file: string, i: nat)
    ensures exists base, ext ::
              && base + ext == file
              && (ext == [] || (ext[0] == '.' && forall k :: 1 <= k < |ext| ==> ext[k] != '.' && ext[k] != '/'))
              && AugmentedName(file, i) == base + "_aug_" + NatToString(i) + ext
  {
    var (base, ext) := SplitExt(file);
    SplitExtProperties(file);
    assert base + ext == file;
    assert AugmentedName(file, i) == base + "_aug_" + NatToString(i) + ext;
  }

  /** Within one file, distinct augmentations get distinct names, and none is the original name. */
  lemma AugmentedNamesDistinct(file: string, i: nat, j: nat)
    ensures i != j ==> AugmentedName(file, i) != AugmentedName(file, j)
    ensures AugmentedName(file, i) != file
  {
    var (base, ext) := SplitExt(file);
    assert |AugmentedName(file, i)| > |file|;
    if AugmentedName(file, i) == AugmentedName(file, j) {
      var si, sj := NatToString(i), NatToString(j);
      var a, b := base + "_aug_" + si + ext, base + "_aug_" + sj + ext;
      assert |si| == |sj|;
      assert si == a[|base| + 5..|base| + 5 + |si|];
      assert sj == b[|base| + 5..|base| + 5 + |sj|];
      NatToStringInjective(i, j);
    }
  }

  /**
   * Within one output directory, two writes under different relative names go
   * to different paths; so do the augmentations of one file.
   */
  lemma DistinctNamesDistinctPaths(w1: Write, w2: Write)
    requires w1.dir == w2.dir && IsRelative(w1.name) && IsRelative(w2.name)
    ensures w1.name != w2.name ==> PathOf(w1) != PathOf(w2)
  {
    JoinInjective(w1.dir, w1.name, w2.name);
  }

  /** The first augmentation of "a.png" is named "a_aug_0.png". */
  lemma FirstAugmentedNameOfExample()
    ensures AugmentedName("a.png", 0) == "a_aug_0.png"
  {
    SplitExtOfExample();
    assert NatToString(0) == "0";
  }

  /**
   * Names are derived per file only, so they can collide across files: with
   * "a.png" and "a_aug_0.png" both listed and readable, the plan writes the
   * first augmentation of "a.png" and the original of "a_aug_0.png" under the
   * same name into the image output directory, the later write replacing the
   * earlier one.
   */
  lemma CrossFileNameClash(dirs: Directories, imageReadable: string -> bool, maskReadable: string -> bool, n: nat)
    requires n > 0
    requires Readable(dirs, imageReadable, maskReadable, "a.png")
    requires Readable(dirs, imageReadable, maskReadable, "a_aug_0.png")
    ensures var p := Plan(dirs, ["a.png", "a_aug_0.png"], imageReadable, maskReadable, n);
            && 2 < 2 + 2 * n < |p|
            && p[2] == Write(dirs.outputImages, "a_aug_0.png", AugmentedImage("a.png", 0))
            && p[2 + 2 * n] == Write(dirs.outputImages, "a_aug_0.png", OriginalImage("a_aug_0.png"))
            && PathOf(p[2]) == PathOf(p[2 + 2 * n])
  {
    var files := ["a.png", "a_aug_0.png"];
    var first, second := FileWrites(dirs, "a.png", n), FileWrites(dirs, "a_aug_0.png", n);
    assert files[..1] == ["a.png"] && files[1] == "a_aug_0.png";
    assert ["a.png"][..0] == [] && ["a.png"][0] == "a.png";
    assert Plan(dirs, ["a.png"], imageReadable, maskReadable, n) == first;
    assert Plan(dirs, files, imageReadable, maskReadable, n) == first + second;
    FileWritesShape(dirs, "a.png", n);
    FileWritesShape(dirs, "a_aug_0.png", n);
    FirstAugmentedNameOfExample();
    assert first[2 + 2 * 0] == Write(dirs.outputImages, AugmentedName("a.png", 0), AugmentedImage("a.png", 0));
  }

  /** "a.png" has its last dot at 1 and no separator. */
  lemma RFindOfExample()
    ensures RFind("a.png", '.') == 1 && RFind("a.png", '/') == -1
  {
    var p := "a.png";
    assert p[..4] == "a.pn" && p[..3] == "a.p" && p[..2] == "a." && p[..1] == "a";
    assert RFind("a.", '.') == 1;
    assert RFind("a.p", '.') == 1;
    assert RFind("a.pn", '.') == 1;
    assert "a"[..0] == [] && "a."[..1] == "a" && "a.p"[..2] == "a." && "a.pn"[..3] == "a.p";
    assert RFind("a", '/') == -1;
    assert RFind("a.", '/') == -1;
    assert RFind("a.p", '/') == -1;
    assert RFind("a.pn", '/') == -1;
  }

  /** "a.png" splits into "a" and ".png". */
  lemma SplitExtOfExample()
    ensures SplitExt("a.png") == ("a", ".png")
  {
    var p := "a.png";
    RFindOfExample();
    assert p[0..1] == "a" && p[..1] == "a" && p[1..] == ".png";
    assert p[0..1][0] != '.';
  }
}
