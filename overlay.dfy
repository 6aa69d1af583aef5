/**
 * The colour map of infer_model.py: a zero-initialised buffer with the original
 * image's shape, painted in place wherever a resized class mask holds 1, in the
 * "specific" mode (one class, green) and in the "all" mode (every present class
 * below 21, one random colour each).
 */
module Overlay {
  import opened Segmentation

  newtype byte = x: int | 0 <= x < 256

  /** One pixel of an OpenCV image: blue, green and red channels. */
  datatype Bgr = Bgr(b: byte, g: byte, r: byte)

  const Black: Bgr := Bgr(0, 0, 0)

  /** The colour of the "specific" mode, `[0, 255, 0]`. */
  const Green: Bgr := Bgr(0, 255, 0)

  /** `np.random.randint(0, 255, size=(3,))` never yields 255: its upper bound is exclusive. */
  predicate IsRandomColor(c: Bgr) {
    c.b < 255 && c.g < 255 && c.r < 255
  }

  type RandomColor = c: Bgr | IsRandomColor(c) witness Black

  type Image = seq<seq<Bgr>>

  /** The colour `class_colors` gives class c, and black for a class it does not hold. */
  function ColorOf(colors: map<nat, Bgr>, c: nat): Bgr {
    if c in colors then colors[c] else Black
  }

  predicate SameShape<A, B>(a: seq<seq<A>>, b: seq<seq<B>>) {
    |a| == |b| && forall i :: 0 <= i < |a| ==> |a[i]| == |b[i]|
  }

  /** `np.zeros_like(original_image)` as a value: an h x w image of black pixels. */
  function BlackImage(h: nat, w: nat): (p: Image)
    ensures IsGrid(p, h, w)
    ensures forall i, j :: 0 <= i < h && 0 <= j < w ==> p[i][j] == Black
  {
    seq(h, i => seq(w, j => Black))
  }

  /** `color_map[mask == 1] = color` as a value. */
  function Painted(p: Image, mask: Grid, color: Bgr): (q: Image)
    requires SameShape(p, mask)
    ensures SameShape(q, p)
    ensures forall i, j :: 0 <= i < |p| && 0 <= j < |p[i]| ==>
              q[i][j] == if mask[i][j] == 1 then color else p[i][j]
  {
    seq(|p|, i requires 0 <= i < |p| =>
      seq(|p[i]|, j requires 0 <= j < |p[i]| => if mask[i][j] == 1 then color else p[i][j]))
  }

  /** Painting two masks that never both hold 1 gives the same image in either order. */
  lemma PaintDisjointCommutes(p: Image, m1: Grid, c1: Bgr, m2: Grid, c2: Bgr)
    requires SameShape(p, m1) && SameShape(p, m2)
    requires forall i, j :: 0 <= i < |p| && 0 <= j < |p[i]| ==> m1[i][j] != 1 || m2[i][j] != 1
    ensures Painted(Painted(p, m1, c1), m2, c2) == Painted(Painted(p, m2, c2), m1, c1)
  {
    var a := Painted(Painted(p, m1, c1), m2, c2);
    var b := Painted(Painted(p, m2, c2), m1, c1);
    forall i | 0 <= i < |p|
      ensures a[i] == b[i]
    {
      assert |a[i]| == |b[i]|;
      forall j | 0 <= j < |p[i]|
        ensures a[i][j] == b[i][j]
      {
      }
    }
  }

  /**
   * The loop of the "all" mode as a value: the classes cs painted in order, each
   * with its colour, through the class mask of the resized map rm. A pixel ends
   * up with the colour of its class when that class is painted, and is left
   * alone otherwise.
   */
  function PaintClasses(p: Image, rm: Grid, cs: seq<nat>, colors: map<nat, Bgr>): (q: Image)
    requires SameShape(p, rm)
    requires forall c :: c in cs ==> c in colors
    ensures SameShape(q, p)
    ensures forall i, j :: 0 <= i < |p| && 0 <= j < |p[i]| ==>
              q[i][j] == if rm[i][j] in cs then colors[rm[i][j]] else p[i][j]
  {
    if cs == [] then p
    else
      var front, c := cs[..|cs| - 1], cs[|cs| - 1];
      assert cs == front + [c];
      var before := PaintClasses(p, rm, front, colors);
      Painted(before, ClassMask(rm, c), colors[c])
  }

  /** The order in which the classes are painted does not change the colour map. */
  lemma PaintOrderIrrelevant(p: Image, rm: Grid, cs1: seq<nat>, cs2: seq<nat>, colors: map<nat, Bgr>)
    requires SameShape(p, rm)
    requires forall c :: c in cs1 ==> c in colors
    requires forall c :: c in cs1 <==> c in cs2
    ensures PaintClasses(p, rm, cs1, colors) == PaintClasses(p, rm, cs2, colors)
  {
    var a := PaintClasses(p, rm, cs1, colors);
    var b := PaintClasses(p, rm, cs2, colors);
    forall i | 0 <= i < |p|
      ensures a[i] == b[i]
    {
      assert |a[i]| == |b[i]|;
      forall j | 0 <= j < |p[i]|
        ensures a[i][j] == b[i][j]
      {
      }
    }
  }

  // ---------------------------------------------------------------------------
  // The colour buffer
  // ---------------------------------------------------------------------------

  /** The pixels of a colour buffer as a value. */
  ghost function Pixels(cm: array2<Bgr>): (p: Image)
    reads cm
    ensures IsGrid(p, cm.Length0, cm.Length1)
    ensures forall i, j :: 0 <= i < cm.Length0 && 0 <= j < cm.Length1 ==> p[i][j] == cm[i, j]
  {
    seq(cm.Length0, i requires 0 <= i < cm.Length0 reads cm =>
      seq(cm.Length1, j requires 0 <= j < cm.Length1 reads cm => cm[i, j]))
  }

  /** A buffer holding the pixels of p pixel for pixel has p as its value. */
  lemma PixelsEqual(cm: array2<Bgr>, p: Image)
    requires IsGrid(p, cm.Length0, cm.Length1)
    requires forall i, j :: 0 <= i < cm.Length0 && 0 <= j < cm.Length1 ==> cm[i, j] == p[i][j]
    ensures Pixels(cm) == p
  {
    var q := Pixels(cm);
    forall i | 0 <= i < cm.Length0
      ensures q[i] == p[i]
    {
      assert |q[i]| == |p[i]|;
    }
  }

  /** `np.zeros_like(original_image)`: a fresh h x w buffer of black pixels. */
  method ZerosLike(h: nat, w: nat) returns (cm: array2<Bgr>)
    ensures fresh(cm) && cm.Length0 == h && cm.Length1 == w
    ensures forall i, j :: 0 <= i < h && 0 <= j < w ==> cm[i, j] == Black
  {
    cm := new Bgr[h, w]((i, j) => Black);
  }

  /** `color_map[mask == 1] = color`: every pixel under a 1 takes the colour, the rest keep theirs. */
  method Paint(cm: array2<Bgr>, mask: Grid, color: Bgr)
    requires IsGrid(mask, cm.Length0, cm.Length1)
    modifies cm
    ensures forall i, j :: 0 <= i < cm.Length0 && 0 <= j < cm.Length1 ==>
              cm[i, j] == if mask[i][j] == 1 then color else old(cm[i, j])
  {
    var i := 0;
    while i < cm.Length0
      invariant 0 <= i <= cm.Length0
      invariant forall a, b :: 0 <= a < i && 0 <= b < cm.Length1 ==>
                  cm[a, b] == if mask[a][b] == 1 then color else old(cm[a, b])
      invariant forall a, b :: i <= a < cm.Length0 && 0 <= b < cm.Length1 ==> cm[a, b] == old(cm[a, b])
    {
      var j := 0;
      while j < cm.Length1
        invariant 0 <= j <= cm.Length1
        invariant forall a, b :: 0 <= a < i && 0 <= b < cm.Length1 ==>
                    cm[a, b] == if mask[a][b] == 1 then color else old(cm[a, b])
        invariant forall b :: 0 <= b < j ==> cm[i, b] == if mask[i][b] == 1 then color else old(cm[i, b])
        invariant forall b :: j <= b < cm.Length1 ==> cm[i, b] == old(cm[i, b])
        invariant forall a, b :: i < a < cm.Length0 && 0 <= b < cm.Length1 ==> cm[a, b] == old(cm[a, b])
      {
        if mask[i][j] == 1 {
          cm[i, j] := color;
        }
        j := j + 1;
      }
      i := i + 1;
    }
  }

  // ---------------------------------------------------------------------------
  // The two modes
  // ---------------------------------------------------------------------------

  /** `class_names.index(desired_class)`: the vocabulary holds "road", at index 1. */
  method DesiredClassLookup() returns (k: nat)
    ensures k == 1
  {
    var found := IndexOf(ClassNames, DesiredClass);
    DesiredClassIndex();
    k := found.value;
  }

  /**
   * The "specific" mode: "road" is looked up in the vocabulary, its mask is
   * resized to the original image's h1 x w1 and painted green into a black
   * buffer. A pixel is green exactly where the resized map holds class 1, and
   * black everywhere else.
   */
  method ColorMapSpecific(seg: Grid, h0: nat, w0: nat, h1: nat, w1: nat) returns (cm: array2<Bgr>)
    requires IsGrid(seg, h0, w0) && h0 > 0 && w0 > 0
    ensures fresh(cm) && cm.Length0 == h1 && cm.Length1 == w1
    ensures forall i, j :: 0 <= i < h1 && 0 <= j < w1 ==>
              cm[i, j] == if ResizeNearest(seg, h0, w0, h1, w1)[i][j] == 1 then Green else Black
    ensures Pixels(cm) == Painted(BlackImage(h1, w1), ClassMask(ResizeNearest(seg, h0, w0, h1, w1), 1), Green)
  {
    var desired := DesiredClassLookup();
    var mask := ClassMask(seg, desired);
    var resized := ResizeNearest(mask, h0, w0, h1, w1);
    ResizedClassMaskAt(seg, h0, w0, h1, w1, desired);
    cm := ZerosLike(h1, w1);
    Paint(cm, resized, Green);
    ghost var expected := Painted(BlackImage(h1, w1), ClassMask(ResizeNearest(seg, h0, w0, h1, w1), desired), Green);
    assert forall i, j :: 0 <= i < h1 && 0 <= j < w1 ==> cm[i, j] == expected[i][j];
    PixelsEqual(cm, expected);
  }

  /**
   * `class_colors` after the loop has handled the known classes in `order`:
   * the t-th of them received the t-th random draw.
   */
  function AssignColors(order: seq<nat>, draws: nat -> RandomColor): (colors: map<nat, Bgr>)
    ensures forall c :: c in colors <==> c in order
    ensures forall c :: c in colors ==> IsRandomColor(colors[c])
  {
    if order == [] then map[]
    else
      var front, c := order[..|order| - 1], order[|order| - 1];
      assert forall x :: x in order <==> x in front || x == c;
      AssignColors(front, draws)[c := draws(|order| - 1)]
  }

  /** With every class listed once, each class holds the draw of its own position. */
  lemma {:induction false} AssignColorsAt(order: seq<nat>, draws: nat -> RandomColor)
    requires StrictlyIncreasing(order)
    ensures forall t :: 0 <= t < |order| ==> AssignColors(order, draws)[order[t]] == draws(t)
  {
    if order != [] {
      var front, c := order[..|order| - 1], order[|order| - 1];
      assert StrictlyIncreasing(front);
      AssignColorsAt(front, draws);
      forall t | 0 <= t < |order|
        ensures AssignColors(order, draws)[order[t]] == draws(t)
      {
        if t < |order| - 1 {
          assert order[t] == front[t] && order[t] != c;
        }
      }
    }
  }

  /** Both sides of one more class: its colour is the next draw. */
  lemma AssignColorsSnoc(order: seq<nat>, c: nat, draws: nat -> RandomColor)
    ensures AssignColors(order + [c], draws) == AssignColors(order, draws)[c := draws(|order|)]
  {
    assert (order + [c])[..|order|] == order;
  }

  /** Every pixel of the buffer shows the colour `colors` gives its class in rm. */
  ghost predicate ShowsColors(cm: array2<Bgr>, rm: Grid, colors: map<nat, Bgr>)
    reads cm
  {
    IsGrid(rm, cm.Length0, cm.Length1) &&
    forall i, j :: 0 <= i < cm.Length0 && 0 <= j < cm.Length1 ==> cm[i, j] == ColorOf(colors, rm[i][j])
  }

  /**
   * The known classes of the map are exactly the classes that receive a colour,
   * and so a pixel of the resized map gets a colour exactly when its class is
   * below 21: resizing copies cells and brings in no class of its own.
   */
  lemma ClassColorsCoverKnownPixels(seg: Grid, h0: nat, w0: nat, h1: nat, w1: nat, draws: nat -> RandomColor)
    requires IsGrid(seg, h0, w0) && h0 > 0 && w0 > 0
    ensures var colors := AssignColors(KnownClasses(Unique(Flatten(seg))), draws);
            (forall c :: c in colors <==> c in Flatten(seg) && c < |ClassNames|) &&
            forall i, j :: 0 <= i < h1 && 0 <= j < w1 ==>
              (ResizeNearest(seg, h0, w0, h1, w1)[i][j] in colors <==>
               ResizeNearest(seg, h0, w0, h1, w1)[i][j] < |ClassNames|)
  {
    ResizeNoNewValues(seg, h0, w0, h1, w1);
  }

  /**
   * A buffer that shows the colour of every pixel's class is the value obtained
   * by painting the classes one after the other onto a black image.
   */
  lemma ShownIsPainted(cm: array2<Bgr>, rm: Grid, cs: seq<nat>, colors: map<nat, Bgr>)
    requires ShowsColors(cm, rm, colors)
    requires forall c :: c in colors <==> c in cs
    ensures Pixels(cm) == PaintClasses(BlackImage(cm.Length0, cm.Length1), rm, cs, colors)
  {
    var painted := PaintClasses(BlackImage(cm.Length0, cm.Length1), rm, cs, colors);
    PixelsEqual(cm, painted);
  }

  /**
   * One pass of the "all" mode's loop for a known class c: its colour is saved in
   * `class_colors`, its mask is built on the model's map, resized to the buffer's
   * h1 x w1 and painted with that colour, which is the same as painting through
   * the class mask of the resized map. A buffer that showed every pixel in the
   * colour of its class so far still does so with c added.
   */
  method PaintClass(cm: array2<Bgr>, seg: Grid, h0: nat, w0: nat, ghost rm: Grid,
                    classColors: map<nat, Bgr>, c: nat, color: Bgr)
    returns (updated: map<nat, Bgr>)
    requires IsGrid(seg, h0, w0) && h0 > 0 && w0 > 0
    requires rm == ResizeNearest(seg, h0, w0, cm.Length0, cm.Length1)
    requires c !in classColors
    requires ShowsColors(cm, rm, classColors)
    modifies cm
    ensures updated == classColors[c := color]
    ensures forall i, j :: 0 <= i < cm.Length0 && 0 <= j < cm.Length1 ==>
              cm[i, j] == if rm[i][j] == c then color else old(cm[i, j])
    ensures ShowsColors(cm, rm, updated)
  {
    updated := classColors[c := color];
    var mask := ClassMask(seg, c);
    var resized := ResizeNearest(mask, h0, w0, cm.Length0, cm.Length1);
    ResizedClassMaskAt(seg, h0, w0, cm.Length0, cm.Length1, c);
    Paint(cm, resized, color);
  }

  /**
   * One iteration of the "all" mode's loop over the ascending unique classes u:
   * the k-th class, when known, takes the next draw and is painted.
   */
  method PaintNext(cm: array2<Bgr>, seg: Grid, h0: nat, w0: nat, ghost rm: Grid, u: seq<nat>, k: nat,
                   ghost order: seq<nat>, classColors: map<nat, Bgr>, drawn: nat, draws: nat -> RandomColor)
    returns (ghost order': seq<nat>, classColors': map<nat, Bgr>, drawn': nat)
    requires IsGrid(seg, h0, w0) && h0 > 0 && w0 > 0
    requires rm == ResizeNearest(seg, h0, w0, cm.Length0, cm.Length1)
    requires StrictlyIncreasing(u) && k < |u|
    requires order == KnownClasses(u[..k]) && drawn == |order|
    requires classColors == AssignColors(order, draws)
    requires ShowsColors(cm, rm, classColors)
    modifies cm
    ensures order' == KnownClasses(u[..k + 1]) && drawn' == |order'|
    ensures classColors' == AssignColors(order', draws)
    ensures ShowsColors(cm, rm, classColors')
  {
    var c := u[k];
    KnownClassesStep(u, k);
    order', classColors', drawn' := order, classColors, drawn;
    if c < |ClassNames| {
      var color := draws(drawn);
      AssignColorsSnoc(order, c, draws);
      classColors' := PaintClass(cm, seg, h0, w0, rm, classColors, c, color);
      order' := order + [c];
      drawn' := drawn + 1;
    }
  }

  /**
   * The "all" mode: every distinct class of the map below 21 receives the next
   * random colour, is recorded in `class_colors`, and its resized mask is painted
   * with that colour. A pixel ends up with the colour of the class the resized
   * map assigns it when that class is known, and black otherwise.
   */
  method ColorMapAll(seg: Grid, h0: nat, w0: nat, h1: nat, w1: nat, draws: nat -> RandomColor)
    returns (cm: array2<Bgr>, classColors: map<nat, Bgr>)
    requires IsGrid(seg, h0, w0) && h0 > 0 && w0 > 0
    ensures fresh(cm) && cm.Length0 == h1 && cm.Length1 == w1
    ensures classColors == AssignColors(KnownClasses(Unique(Flatten(seg))), draws)
    ensures ShowsColors(cm, ResizeNearest(seg, h0, w0, h1, w1), classColors)
  {
    var u := Unique(Flatten(seg));
    ghost var rm := ResizeNearest(seg, h0, w0, h1, w1);
    cm := ZerosLike(h1, w1);
    classColors := map[];
    var drawn := 0;
    ghost var order: seq<nat> := [];
    var k := 0;
    while k < |u|
      invariant 0 <= k <= |u|
      invariant order == KnownClasses(u[..k]) && drawn == |order|
      invariant classColors == AssignColors(order, draws)
      invariant ShowsColors(cm, rm, classColors)
    {
      order, classColors, drawn := PaintNext(cm, seg, h0, w0, rm, u, k, order, classColors, drawn, draws);
      k := k + 1;
    }
    assert u[..|u|] == u;
  }
}
