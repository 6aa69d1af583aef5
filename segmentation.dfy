/**
 * Post-processing of the model output in infer_model.py: the arg-max class map,
 * the distinct classes and their counts, the filter against the 21-name class
 * vocabulary, the per-class 0/1 mask and the nearest-neighbour resize.
 */
module Segmentation {

  datatype Option<T> = None | Some(value: T)

  /** A 2-D grid of integers: a class-index map or a 0/1 mask, row-major. */
  type Grid = seq<seq<nat>>

  /** The model output with its batch dimension dropped: H x W x C scores. */
  type Scores = seq<seq<seq<int>>>

  predicate IsGrid<T>(g: seq<seq<T>>, h: nat, w: nat) {
    |g| == h && forall i :: 0 <= i < h ==> |g[i]| == w
  }

  predicate IsTensor(t: Scores, h: nat, w: nat, c: nat) {
    |t| == h && forall i :: 0 <= i < h ==> IsGrid(t[i], w, c)
  }

  predicate StrictlyIncreasing(s: seq<nat>) {
    forall i, j :: 0 <= i < j < |s| ==> s[i] < s[j]
  }

  // ---------------------------------------------------------------------------
  // Arg-max over the class axis
  // ---------------------------------------------------------------------------

  /** k is the position of a maximal score, and the lowest such position. */
  predicate IsFirstMaximum(v: seq<int>, k: nat) {
    && k < |v|
    && (forall j :: 0 <= j < |v| ==> v[j] <= v[k])
    && (forall j :: 0 <= j < k ==> v[j] < v[k])
  }

  /** numpy's argmax over one score vector: ties go to the first index. */
  function ArgMax(v: seq<int>): (k: nat)
    requires |v| > 0
    ensures IsFirstMaximum(v, k)
    decreases |v|
  {
    if |v| == 1 then 0
    else
      var k := ArgMax(v[..|v| - 1]);
      if v[|v| - 1] > v[k] then |v| - 1 else k
  }

  /** `np.argmax(output_data, axis=-1)`: the class-index map of an H x W x C tensor. */
  function SegmentationMap(t: Scores, h: nat, w: nat, c: nat): (g: Grid)
    requires c > 0 && IsTensor(t, h, w, c)
    ensures IsGrid(g, h, w)
    ensures forall i, j :: 0 <= i < h && 0 <= j < w ==>
              g[i][j] < c && IsFirstMaximum(t[i][j], g[i][j])
  {
    seq(h, i requires 0 <= i < h => seq(w, j requires 0 <= j < w => ArgMax(t[i][j])))
  }

  // ---------------------------------------------------------------------------
  // Distinct classes (np.unique) and their counts (collections.Counter)
  // ---------------------------------------------------------------------------

  /** The row-major listing of a grid (`flatten()`). */
  function Flatten(g: Grid): seq<nat> {
    if g == [] then [] else Flatten(g[..|g| - 1]) + g[|g| - 1]
  }

  /** The flattened map holds exactly the values of the grid's cells. */
  lemma {:induction false} FlattenValues(g: Grid)
    ensures forall x :: x in Flatten(g) <==> exists i, j :: 0 <= i < |g| && 0 <= j < |g[i]| && g[i][j] == x
  {
    if g != [] {
      var front := g[..|g| - 1];
      FlattenValues(front);
      assert Flatten(g) == Flatten(front) + g[|g| - 1];
      forall x | x in Flatten(g)
        ensures exists i, j :: 0 <= i < |g| && 0 <= j < |g[i]| && g[i][j] == x
      {
        if x in Flatten(front) {
          var i, j :| 0 <= i < |front| && 0 <= j < |front[i]| && front[i][j] == x;
          assert g[i][j] == x;
        } else {
          var j :| 0 <= j < |g[|g| - 1]| && g[|g| - 1][j] == x;
        }
      }
      forall x | exists i, j :: 0 <= i < |g| && 0 <= j < |g[i]| && g[i][j] == x
        ensures x in Flatten(g)
      {
        var i, j :| 0 <= i < |g| && 0 <= j < |g[i]| && g[i][j] == x;
        if i < |g| - 1 {
          assert front[i][j] == x;
        } else {
          assert g[|g| - 1][j] == x;
        }
      }
    }
  }

  lemma MulMonotone(a: nat, b: nat, c: nat)
    requires a <= b
    ensures a * c <= b * c
  {
  }

  /** A grid of h rows of w cells flattens to h*w values. */
  lemma {:induction false} FlattenLength(g: Grid, h: nat, w: nat)
    requires IsGrid(g, h, w)
    ensures |Flatten(g)| == h * w
  {
    if h > 0 {
      assert IsGrid(g[..h - 1], h - 1, w);
      FlattenLength(g[..h - 1], h - 1, w);
      assert (h - 1) * w + w == h * w;
    }
  }

  /** Cell (i, j) of a grid of h rows of w cells sits at position i*w + j of the flattened map. */
  lemma {:induction false} FlattenCell(g: Grid, h: nat, w: nat, i: nat, j: nat)
    requires IsGrid(g, h, w) && i < h && j < w
    ensures i * w + j < |Flatten(g)| && Flatten(g)[i * w + j] == g[i][j]
  {
    var front := g[..h - 1];
    assert IsGrid(front, h - 1, w);
    FlattenLength(front, h - 1, w);
    var s := Flatten(front);
    assert Flatten(g) == s + g[h - 1];
    if i < h - 1 {
      FlattenCell(front, h - 1, w, i, j);
      assert (s + g[h - 1])[i * w + j] == s[i * w + j];
    } else {
      assert i * w == |s|;
      assert (s + g[h - 1])[i * w + j] == g[h - 1][j];
    }
  }

  /** A grid of h rows of w cells flattens to h*w values, cell (i, j) at position i*w + j. */
  lemma FlattenAt(g: Grid, h: nat, w: nat)
    requires IsGrid(g, h, w)
    ensures |Flatten(g)| == h * w
    ensures forall i, j :: 0 <= i < h && 0 <= j < w ==> Flatten(g)[i * w + j] == g[i][j]
  {
    FlattenLength(g, h, w);
    forall i, j | 0 <= i < h && 0 <= j < w
      ensures Flatten(g)[i * w + j] == g[i][j]
    {
      FlattenCell(g, h, w, i, j);
    }
  }

  /** A value below every element of an increasing sequence can be put in front of it. */
  lemma ConsIncreasing(x: nat, rest: seq<nat>)
    requires StrictlyIncreasing(rest)
    requires forall y :: y in rest ==> x < y
    ensures StrictlyIncreasing([x] + rest)
  {
    var r := [x] + rest;
    forall i, j | 0 <= i < j < |r|
      ensures r[i] < r[j]
    {
      assert r[j] == rest[j - 1];
      if i > 0 {
        assert r[i] == rest[i - 1];
      } else {
        assert rest[j - 1] in rest;
      }
    }
  }

  /** A value above every element of an increasing sequence can be put after it. */
  lemma SnocIncreasing(front: seq<nat>, x: nat)
    requires StrictlyIncreasing(front)
    requires forall y :: y in front ==> y < x
    ensures StrictlyIncreasing(front + [x])
  {
    var r := front + [x];
    forall i, j | 0 <= i < j < |r|
      ensures r[i] < r[j]
    {
      assert r[i] == front[i];
      if j < |front| {
        assert r[j] == front[j];
      } else {
        assert front[i] in front;
      }
    }
  }

  /** Inserts x into a strictly increasing sequence, keeping it strictly increasing. */
  function InsertSorted(u: seq<nat>, x: nat): (r: seq<nat>)
    requires StrictlyIncreasing(u)
    ensures StrictlyIncreasing(r)
    ensures forall y :: y in r <==> y in u || y == x
  {
    if u == [] then [x]
    else if x < u[0] then
      assert forall y :: y in u ==> x < y by {
        assert forall k :: 0 <= k < |u| ==> u[0] <= u[k];
      }
      ConsIncreasing(x, u);
      [x] + u
    else if x == u[0] then u
    else
      var tail := u[1..];
      assert StrictlyIncreasing(tail);
      var rest := InsertSorted(tail, x);
      assert forall y :: y in tail ==> u[0] < y;
      assert forall y :: y in u <==> y == u[0] || y in tail;
      ConsIncreasing(u[0], rest);
      [u[0]] + rest
  }

  /** `np.unique` on a flattened map: the distinct values, strictly ascending. */
  function Unique(s: seq<nat>): (u: seq<nat>)
    ensures StrictlyIncreasing(u)
    ensures forall x :: x in u <==> x in s
  {
    if s == [] then []
    else
      assert forall x :: x in s <==> x in s[..|s| - 1] || x == s[|s| - 1];
      InsertSorted(Unique(s[..|s| - 1]), s[|s| - 1])
  }

  /** `Counter(...)`: every value of s mapped to its number of occurrences. */
  function Counts(s: seq<nat>): (m: map<nat, nat>)
    ensures forall x :: x in m <==> x in s
    ensures forall x :: x in m ==> m[x] == multiset(s)[x]
  {
    if s == [] then map[]
    else
      var front, x := s[..|s| - 1], s[|s| - 1];
      assert s == front + [x];
      var m := Counts(front);
      m[x := (if x in m then m[x] else 0) + 1]
  }

  /** `class_counts[class_id]`: a Counter answers 0 for a value it has not seen. */
  function CountOf(counts: map<nat, nat>, c: nat): nat {
    if c in counts then counts[c] else 0
  }

  function SumCounts(u: seq<nat>, counts: map<nat, nat>): nat {
    if u == [] then 0 else CountOf(counts, u[0]) + SumCounts(u[1..], counts)
  }

  function SumOccurrences(u: seq<nat>, s: seq<nat>): nat {
    if u == [] then 0 else multiset(s)[u[0]] + SumOccurrences(u[1..], s)
  }

  lemma {:induction false} SumCountsIsSumOccurrences(u: seq<nat>, s: seq<nat>)
    ensures SumCounts(u, Counts(s)) == SumOccurrences(u, s)
  {
    if u != [] {
      SumCountsIsSumOccurrences(u[1..], s);
      if u[0] !in s {
        assert multiset(s)[u[0]] == 0;
      }
    }
  }

  lemma {:induction false} SumOccurrencesSnoc(u: seq<nat>, s: seq<nat>, y: nat)
    requires StrictlyIncreasing(u)
    ensures SumOccurrences(u, s + [y]) == SumOccurrences(u, s) + (if y in u then 1 else 0)
  {
    if u != [] {
      SumOccurrencesSnoc(u[1..], s, y);
      assert multiset(s + [y]) == multiset(s) + multiset{y};
      assert y in u <==> y == u[0] || y in u[1..];
      if y == u[0] {
        assert y !in u[1..];
      }
    }
  }

  /** With every value of s listed once, the per-value counts add up to |s|. */
  lemma {:induction false} SumOccurrencesCovers(u: seq<nat>, s: seq<nat>)
    requires StrictlyIncreasing(u)
    requires forall x :: x in s ==> x in u
    ensures SumOccurrences(u, s) == |s|
  {
    if s == [] {
      SumOccurrencesEmpty(u);
    } else {
      var front, y := s[..|s| - 1], s[|s| - 1];
      assert s == front + [y];
      assert forall x :: x in front ==> x in s;
      SumOccurrencesCovers(u, front);
      SumOccurrencesSnoc(u, front, y);
    }
  }

  lemma {:induction false} SumOccurrencesEmpty(u: seq<nat>)
    ensures SumOccurrences(u, []) == 0
  {
    if u != [] {
      SumOccurrencesEmpty(u[1..]);
    }
  }

  /**
   * The logged classes and counts describe the map: the unique classes are
   * strictly ascending and are exactly the values present, each count is the
   * number of cells holding that value, and the counts add up to H*W.
   */
  lemma ClassCountsAddUp(g: Grid, h: nat, w: nat)
    requires IsGrid(g, h, w)
    ensures var u := Unique(Flatten(g));
            && StrictlyIncreasing(u)
            && (forall c :: c in u <==> exists i, j :: 0 <= i < h && 0 <= j < w && g[i][j] == c)
            && SumCounts(u, Counts(Flatten(g))) == h * w
  {
    var s := Flatten(g);
    var u := Unique(s);
    FlattenLength(g, h, w);
    FlattenValues(g);
    SumCountsIsSumOccurrences(u, s);
    SumOccurrencesCovers(u, s);
  }

  /** A logged count is the number of occurrences of the class in the flattened map, 0 for an absent class. */
  lemma CountOfIsOccurrences(s: seq<nat>, c: nat)
    ensures CountOf(Counts(s), c) == multiset(s)[c]
  {
    if c !in s {
      assert multiset(s)[c] == 0;
    }
  }

  // ---------------------------------------------------------------------------
  // The class vocabulary
  // ---------------------------------------------------------------------------

  /** The 21 class names, positionally mapped to model output channels. */
  const ClassNames: seq<string> := [
    "sidewalk", "road", "pole", "egovehicle", "person", "sky", "vegetation",
    "trafficlight", "building", "trafficsign", "fence", "car", "guardrail",
    "static", "parking", "bus", "outofroi", "adversarial", "truck", "bridge",
    "terrain"
  ]

  /** The class ids that pass `class_id < len(class_names)`, in their original order. */
  function KnownClasses(u: seq<nat>): (k: seq<nat>)
    ensures forall c :: c in k <==> c in u && c < |ClassNames|
    ensures StrictlyIncreasing(u) ==> StrictlyIncreasing(k)
  {
    if u == [] then []
    else
      var front, c := u[..|u| - 1], u[|u| - 1];
      assert u == front + [c];
      var before := KnownClasses(front);
      if c < |ClassNames| then
        assert StrictlyIncreasing(u) ==> StrictlyIncreasing(before + [c]) by {
          if StrictlyIncreasing(u) {
            assert StrictlyIncreasing(front);
            assert forall x :: x in front ==> x < c;
            SnocIncreasing(before, c);
          }
        }
        before + [c]
      else before
  }

  /** Filtering one more class extends the known classes by that class exactly when it is known. */
  lemma KnownClassesSnoc(u: seq<nat>, c: nat)
    ensures KnownClasses(u + [c]) == KnownClasses(u) + (if c < |ClassNames| then [c] else [])
  {
    assert (u + [c])[..|u|] == u;
  }

  /**
   * Walking an ascending list of classes one step further: the next class is not
   * among the known classes seen so far, and is appended to them if it is known.
   */
  lemma KnownClassesStep(u: seq<nat>, k: nat)
    requires StrictlyIncreasing(u) && k < |u|
    ensures u[k] !in KnownClasses(u[..k])
    ensures KnownClasses(u[..k + 1]) == KnownClasses(u[..k]) + (if u[k] < |ClassNames| then [u[k]] else [])
  {
    assert u[..k + 1] == u[..k] + [u[k]];
    KnownClassesSnoc(u[..k], u[k]);
    assert forall t :: 0 <= t < k ==> u[..k][t] < u[k];
  }

  /** One logged line of the loop over the unique classes: id, name and count. */
  datatype LegendEntry = LegendEntry(classId: nat, name: string, count: nat)

  /** The lines logged for the classes u: one per class below 21, with its name and count. */
  function Legend(u: seq<nat>, counts: map<nat, nat>): seq<LegendEntry> {
    var known := KnownClasses(u);
    seq(|known|, k requires 0 <= k < |known| =>
      assert known[k] in known;
      LegendEntry(known[k], ClassNames[known[k]], CountOf(counts, known[k])))
  }

  /**
   * The lines the vocabulary filter lets through: every present class below 21 is
   * reported once, with its name and count; a larger id is silently dropped.
   */
  lemma LegendReportsKnownClasses(u: seq<nat>, counts: map<nat, nat>)
    requires StrictlyIncreasing(u)
    ensures var rows := Legend(u, counts);
            && (forall e :: e in rows ==>
                  e.classId in u && e.classId < |ClassNames| &&
                  e.name == ClassNames[e.classId] && e.count == CountOf(counts, e.classId))
            && (forall c :: c in u && c < |ClassNames| ==> exists k :: 0 <= k < |rows| && rows[k].classId == c)
            && (forall k1, k2 :: 0 <= k1 < k2 < |rows| ==> rows[k1].classId < rows[k2].classId)
  {
    var known := KnownClasses(u);
    var rows := Legend(u, counts);
    assert forall k :: 0 <= k < |rows| ==> rows[k].classId == known[k] && known[k] in known;
    assert forall c :: c in known ==> exists k :: 0 <= k < |known| && known[k] == c && rows[k].classId == c;
  }

  /** `list.index`: the first position of x, or None where Python raises ValueError. */
  function IndexOf(s: seq<string>, x: string): (r: Option<nat>)
    ensures r.None? <==> x !in s
    ensures r.Some? ==> r.value < |s| && s[r.value] == x && forall j :: 0 <= j < r.value ==> s[j] != x
  {
    if s == [] then None
    else if s[0] == x then Some(0)
    else match IndexOf(s[1..], x)
      case None => None
      case Some(k) => Some(k + 1)
  }

  /** The class the "specific" mode highlights. */
  const DesiredClass: string := "road"

  /** In the fixed vocabulary "road" sits at index 1. */
  lemma DesiredClassIndex()
    ensures IndexOf(ClassNames, DesiredClass) == Some(1)
  {
    assert ClassNames[0] != DesiredClass;
    assert ClassNames[1] == DesiredClass;
  }

  // ---------------------------------------------------------------------------
  // Class masks and nearest-neighbour resize
  // ---------------------------------------------------------------------------

  /** `np.where(map == k, 1, 0)` and `(map == k).astype(np.uint8)`. */
  function ClassMask(g: Grid, k: nat): (m: Grid)
    ensures |m| == |g| && forall i :: 0 <= i < |g| ==> |m[i]| == |g[i]|
    ensures forall i, j :: 0 <= i < |g| && 0 <= j < |g[i]| ==> m[i][j] <= 1 && (m[i][j] == 1 <==> g[i][j] == k)
  {
    seq(|g|, i requires 0 <= i < |g| => seq(|g[i]|, j requires 0 <= j < |g[i]| => if g[i][j] == k then 1 else 0))
  }

  /** The masks of two different classes never both hold 1 in the same cell. */
  lemma ClassMasksDisjoint(g: Grid, k1: nat, k2: nat, i: nat, j: nat)
    requires k1 != k2 && i < |g| && j < |g[i]|
    ensures ClassMask(g, k1)[i][j] == 0 || ClassMask(g, k2)[i][j] == 0
  {
  }

  /** The source index of a destination index: floor(dst * srcLen / dstLen). */
  function SourceIndex(dst: nat, srcLen: nat, dstLen: nat): (src: nat)
    requires dst < dstLen && srcLen > 0
    ensures src < srcLen
  {
    var src := dst * srcLen / dstLen;
    assert src < srcLen by {
      if src >= srcLen {
        MulMonotone(srcLen, src, dstLen);
        MulMonotone(dst + 1, dstLen, srcLen);
      }
    }
    src
  }

  /**
   * Nearest-neighbour resize (`cv2.INTER_NEAREST`) of an h0 x w0 grid to h1 x w1:
   * every destination cell copies one source cell.
   */
  function ResizeNearest(g: Grid, h0: nat, w0: nat, h1: nat, w1: nat): (r: Grid)
    requires IsGrid(g, h0, w0) && h0 > 0 && w0 > 0
    ensures IsGrid(r, h1, w1)
    ensures forall i, j :: 0 <= i < h1 && 0 <= j < w1 ==>
              r[i][j] == g[SourceIndex(i, h0, h1)][SourceIndex(j, w0, w1)]
  {
    seq(h1, i requires 0 <= i < h1 =>
      seq(w1, j requires 0 <= j < w1 => g[SourceIndex(i, h0, h1)][SourceIndex(j, w0, w1)]))
  }

  /** v is the value of some cell of the h0 x w0 grid g. */
  ghost predicate HeldBy(g: Grid, h0: nat, w0: nat, v: nat)
    requires IsGrid(g, h0, w0)
  {
    exists si, sj :: 0 <= si < h0 && 0 <= sj < w0 && g[si][sj] == v
  }

  /** Every resized cell copies some cell of the source grid. */
  lemma ResizeCopiesSourceCells(g: Grid, h0: nat, w0: nat, h1: nat, w1: nat)
    requires IsGrid(g, h0, w0) && h0 > 0 && w0 > 0
    ensures forall i, j :: 0 <= i < h1 && 0 <= j < w1 ==> HeldBy(g, h0, w0, ResizeNearest(g, h0, w0, h1, w1)[i][j])
  {
    var r := ResizeNearest(g, h0, w0, h1, w1);
    forall i, j | 0 <= i < h1 && 0 <= j < w1
      ensures HeldBy(g, h0, w0, r[i][j])
    {
      var si, sj := SourceIndex(i, h0, h1), SourceIndex(j, w0, w1);
      assert r[i][j] == g[si][sj];
    }
  }

  /** Resizing introduces no value that the source grid does not hold. */
  lemma ResizeNoNewValues(g: Grid, h0: nat, w0: nat, h1: nat, w1: nat)
    requires IsGrid(g, h0, w0) && h0 > 0 && w0 > 0
    ensures forall i, j :: 0 <= i < h1 && 0 <= j < w1 ==> ResizeNearest(g, h0, w0, h1, w1)[i][j] in Flatten(g)
  {
    var r := ResizeNearest(g, h0, w0, h1, w1);
    FlattenValues(g);
    forall i, j | 0 <= i < h1 && 0 <= j < w1
      ensures r[i][j] in Flatten(g)
    {
      var si, sj := SourceIndex(i, h0, h1), SourceIndex(j, w0, w1);
      assert r[i][j] == g[si][sj];
    }
  }

  /** A resized 0/1 mask is still a 0/1 mask. */
  lemma ResizeKeepsBinary(m: Grid, h0: nat, w0: nat, h1: nat, w1: nat)
    requires IsGrid(m, h0, w0) && h0 > 0 && w0 > 0
    requires forall i, j :: 0 <= i < h0 && 0 <= j < w0 ==> m[i][j] <= 1
    ensures forall i, j :: 0 <= i < h1 && 0 <= j < w1 ==> ResizeNearest(m, h0, w0, h1, w1)[i][j] <= 1
  {
    var r := ResizeNearest(m, h0, w0, h1, w1);
    forall i, j | 0 <= i < h1 && 0 <= j < w1
      ensures r[i][j] <= 1
    {
      assert r[i][j] == m[SourceIndex(i, h0, h1)][SourceIndex(j, w0, w1)];
    }
  }

  /** A resized class mask holds 1 exactly where the resized map holds the class. */
  lemma ResizedClassMaskAt(g: Grid, h0: nat, w0: nat, h1: nat, w1: nat, k: nat)
    requires IsGrid(g, h0, w0) && h0 > 0 && w0 > 0
    ensures forall i, j :: 0 <= i < h1 && 0 <= j < w1 ==>
              (ResizeNearest(ClassMask(g, k), h0, w0, h1, w1)[i][j] == 1 <==> ResizeNearest(g, h0, w0, h1, w1)[i][j] == k)
  {
  }

  /** Resizing a class mask is the same as taking the class mask of the resized map. */
  lemma ResizeClassMask(g: Grid, h0: nat, w0: nat, h1: nat, w1: nat, k: nat)
    requires IsGrid(g, h0, w0) && h0 > 0 && w0 > 0
    ensures ResizeNearest(ClassMask(g, k), h0, w0, h1, w1) == ClassMask(ResizeNearest(g, h0, w0, h1, w1), k)
  {
    var m := ClassMask(g, k);
    var lhs := ResizeNearest(m, h0, w0, h1, w1);
    var rhs := ClassMask(ResizeNearest(g, h0, w0, h1, w1), k);
    assert |lhs| == |rhs|;
    forall i | 0 <= i < h1
      ensures lhs[i] == rhs[i]
    {
      assert |lhs[i]| == |rhs[i]|;
      forall j | 0 <= j < w1
        ensures lhs[i][j] == rhs[i][j]
      {
        var si, sj := SourceIndex(i, h0, h1), SourceIndex(j, w0, w1);
        assert lhs[i][j] == m[si][sj];
      }
    }
  }

  lemma HalfIndex(i: nat, n: nat)
    requires n > 0
    ensures i * n / (2 * n) == i / 2
  {
    var q, r := i / 2, i % 2;
    assert i * n == q * (2 * n) + r * n;
    assert 0 <= r * n < 2 * n;
    DivUnique(i * n, 2 * n, q, r * n);
  }

  lemma DivUnique(a: nat, d: nat, q: nat, r: nat)
    requires d > 0 && a == q * d + r && r < d
    ensures a / d == q
  {
    var p, rr := a / d, a % d;
    assert a == p * d + rr;
    if p > q {
      MulMonotone(q + 1, p, d);
    } else if p < q {
      MulMonotone(p + 1, q, d);
    }
  }

  /**
   * Doubling both sides copies every source cell into a 2 x 2 block, so the
   * resized grid holds exactly the values of the source grid.
   */
  lemma ResizeDoubling(g: Grid, h0: nat, w0: nat)
    requires IsGrid(g, h0, w0) && h0 > 0 && w0 > 0
    ensures forall i, j :: 0 <= i < 2 * h0 && 0 <= j < 2 * w0 ==>
              ResizeNearest(g, h0, w0, 2 * h0, 2 * w0)[i][j] == g[i / 2][j / 2]
    ensures forall x :: x in Flatten(ResizeNearest(g, h0, w0, 2 * h0, 2 * w0)) <==> x in Flatten(g)
  {
    var r := ResizeNearest(g, h0, w0, 2 * h0, 2 * w0);
    forall i, j | 0 <= i < 2 * h0 && 0 <= j < 2 * w0
      ensures r[i][j] == g[i / 2][j / 2]
    {
      HalfIndex(i, h0);
      HalfIndex(j, w0);
      assert r[i][j] == g[SourceIndex(i, h0, 2 * h0)][SourceIndex(j, w0, 2 * w0)];
    }
    FlattenValues(g);
    FlattenValues(r);
    forall x | x in Flatten(g)
      ensures x in Flatten(r)
    {
      var si, sj :| 0 <= si < |g| && 0 <= sj < |g[si]| && g[si][sj] == x;
      assert r[2 * si][2 * sj] == x;
    }
    ResizeNoNewValues(g, h0, w0, 2 * h0, 2 * w0);
  }
}
