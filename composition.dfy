/**
 * The arithmetic of combining one group: the canvas size measured from the
 * images as loaded, and the vertical position at which each resized image
 * is drawn. Image decoding, resizing and drawing are not modelled; the
 * sizes the library reports are inputs.
 */
module Composition {
  import Int32

  /** A width or height the imaging library reports: at least one pixel, a C# `int`. */
  type Dim = x: int | 1 <= x <= Int32.MAX witness 1

  /** The size of an image as loaded from disk. */
  datatype Size = Size(width: Dim, height: Dim)

  /** One `DrawImage` call: the image of `file`, `width` by `height` after resizing, at (`x`, `y`). */
  datatype Draw = Draw(file: string, x: int, y: int, width: int, height: int)

  /** `Math.Max`. */
  function Max(a: int, b: int): int {
    if a >= b then a else b
  }

  /** The sizes of the group's images, as `Image.Load` reports them. */
  function SizesOf(group: seq<string>, load: string -> Size): seq<Size> {
    seq(|group|, k requires 0 <= k < |group| => load(group[k]))
  }

  /** The heights of the group's images as `Image.Load` reports them. */
  function LoadedHeights(group: seq<string>, load: string -> Size): seq<Dim> {
    seq(|group|, k requires 0 <= k < |group| => load(group[k]).height)
  }

  /** The heights of the group's images after resizing them to the target width. */
  function ResizedHeights(group: seq<string>, load: string -> Size, resize: Size -> Dim): seq<Dim> {
    seq(|group|, k requires 0 <= k < |group| => resize(load(group[k])))
  }

  /** The widest of the images, or 0 for none. */
  function MaxWidth(sizes: seq<Size>): (w: int)
    ensures forall i :: 0 <= i < |sizes| ==> sizes[i].width <= w
    ensures sizes == [] ==> w == 0
    ensures sizes != [] ==> exists i :: 0 <= i < |sizes| && w == sizes[i].width
    decreases |sizes|
  {
    if sizes == [] then 0
    else
      var init := sizes[..|sizes| - 1];
      var w := Max(MaxWidth(init), sizes[|sizes| - 1].width);
      assert forall i :: 0 <= i < |init| ==> init[i] == sizes[i];
      w
  }

  /** The exact sum of a sequence of heights. */
  function Sum(heights: seq<Dim>): int
    decreases |heights|
  {
    if heights == [] then 0 else Sum(heights[..|heights| - 1]) + heights[|heights| - 1]
  }

  /** One round of the first loop on the width: `Math.Max` with this image's width. */
  lemma MeasureStep(sizes: seq<Size>, i: nat)
    requires i < |sizes|
    ensures MaxWidth(sizes[..i + 1]) == Max(MaxWidth(sizes[..i]), sizes[i].width)
  {
    assert sizes[..i + 1][..i] == sizes[..i];
  }

  /** The wrapped sum of the first `k` heights: where the `k`-th image of a stack starts. */
  function Offset(heights: seq<Dim>, k: nat): int
    requires k <= |heights|
  {
    Int32.Wrap(Sum(heights[..k]))
  }

  /** One step of `totalHeight += image.Height` or `y += image.Height`: add this height, wrapped. */
  lemma OffsetStep(heights: seq<Dim>, i: nat)
    requires i < |heights|
    ensures Offset(heights, i + 1) == Int32.Add(Offset(heights, i), heights[i])
  {
    assert heights[..i + 1][..i] == heights[..i];
    Int32.AddWrapped(Sum(heights[..i]), heights[i]);
  }

  /**
   * The first loop over a group: `maxWidth = Math.Max(maxWidth, image.Width)`
   * and `totalHeight += image.Height` for every image loaded. The canvas is
   * sized from these, the images' original sizes.
   */
  method MeasureGroup(group: seq<string>, load: string -> Size) returns (maxWidth: int, totalHeight: int)
    ensures maxWidth == MaxWidth(SizesOf(group, load))
    ensures totalHeight == Int32.Wrap(Sum(LoadedHeights(group, load)))
    ensures forall i :: 0 <= i < |group| ==> load(group[i]).width <= maxWidth
    ensures group != [] ==> exists i :: 0 <= i < |group| && maxWidth == load(group[i]).width
    ensures group == [] ==> maxWidth == 0 && totalHeight == 0
  {
    ghost var sizes := SizesOf(group, load);
    ghost var heights := LoadedHeights(group, load);
    maxWidth := 0;
    totalHeight := 0;
    for i := 0 to |group|
      invariant maxWidth == MaxWidth(sizes[..i])
      invariant totalHeight == Offset(heights, i)
    {
      var image := load(group[i]);
      MeasureStep(sizes, i);
      OffsetStep(heights, i);
      maxWidth := Max(maxWidth, image.width);
      totalHeight := Int32.Add(totalHeight, image.height);
    }
    assert sizes[..|group|] == sizes;
    assert heights[..|group|] == heights;
    assert forall i :: 0 <= i < |group| ==> sizes[i] == load(group[i]);
  }

  /**
   * The second loop over a group: each image, resized to `desiredWidth`, is
   * drawn at x = 0 and y = the running total of the resized heights before
   * it (`y += image.Height`, unchecked).
   */
  method StackImages(group: seq<string>, load: string -> Size, resize: Size -> Dim, desiredWidth: int)
      returns (draws: seq<Draw>)
    ensures |draws| == |group|
    ensures forall k :: 0 <= k < |group| ==>
              draws[k] == Draw(group[k], 0, Offset(ResizedHeights(group, load, resize), k),
                               desiredWidth, resize(load(group[k])))
  {
    ghost var heights := ResizedHeights(group, load, resize);
    draws := [];
    var y := 0;
    for i := 0 to |group|
      invariant |draws| == i
      invariant y == Offset(heights, i)
      invariant forall k :: 0 <= k < i ==>
                  draws[k] == Draw(group[k], 0, Offset(heights, k), desiredWidth, heights[k])
    {
      var image := load(group[i]);
      var resizedHeight := resize(image);
      assert resizedHeight == heights[i];
      draws := draws + [Draw(group[i], 0, y, desiredWidth, resizedHeight)];
      OffsetStep(heights, i);
      y := Int32.Add(y, resizedHeight);
    }
  }

  lemma {:induction false} SumPrefix(heights: seq<Dim>, k: nat)
    requires k <= |heights|
    ensures Sum(heights[..k]) + (|heights| - k) <= Sum(heights)
    ensures k <= Sum(heights[..k])
    decreases |heights|
  {
    if k < |heights| {
      var init := heights[..|heights| - 1];
      assert heights[..k] == init[..k];
      SumPrefix(init, k);
    } else {
      assert heights[..k] == heights;
      if heights != [] {
        SumPrefix(heights[..|heights| - 1], |heights| - 1);
        assert heights[..|heights| - 1][..|heights| - 1] == heights[..|heights| - 1];
      }
    }
  }

  /**
   * When the resized heights add up to a valid `int`, the images tile the
   * strip [0, Sum) top to bottom: the first is drawn at 0, each next one
   * starts where the previous one ends, and the last ends at the sum.
   */
  lemma StackTiles(heights: seq<Dim>, k: nat)
    requires k < |heights|
    requires Sum(heights) <= Int32.MAX
    ensures Int32.Wrap(Sum(heights[..k])) == Sum(heights[..k])
    ensures k == 0 ==> Sum(heights[..k]) == 0
    ensures Sum(heights[..k]) + heights[k] == Int32.Wrap(Sum(heights[..k + 1]))
    ensures Sum(heights[..k]) + heights[k] <= Sum(heights)
  {
    SumPrefix(heights, k);
    SumPrefix(heights, k + 1);
    assert heights[..k + 1][..k] == heights[..k];
    Int32.WrapInRange(Sum(heights[..k]));
    Int32.WrapInRange(Sum(heights[..k + 1]));
  }

  /** When the heights add up to a valid `int`, the measured canvas height is exactly that sum. */
  lemma CanvasOfGroup(heights: seq<Dim>)
    requires Sum(heights) <= Int32.MAX
    ensures Int32.Wrap(Sum(heights)) == Sum(heights)
  {
    TotalHeightPositive(heights);
    Int32.WrapInRange(Sum(heights));
  }

  /** The height sum is at least the number of images, each being at least one pixel tall. */
  lemma TotalHeightPositive(heights: seq<Dim>)
    ensures Sum(heights) >= |heights|
  {
    SumPrefix(heights, |heights|);
    assert heights[..|heights|] == heights;
  }

  /**
   * The canvas is sized from the original images while the images drawn are
   * the resized ones: a single 1800 x 1200 photo resized to 900 x 600 lands
   * on an 1800 x 1200 canvas, covering a quarter of it.
   */
  lemma CanvasUsesOriginalSize(path: string, load: string -> Size, resize: Size -> Dim)
    requires load(path) == Size(1800, 1200) && resize(Size(1800, 1200)) == 600
    ensures MaxWidth(SizesOf([path], load)) == 1800
    ensures Int32.Wrap(Sum(LoadedHeights([path], load))) == 1200
    ensures Sum(ResizedHeights([path], load, resize)) == 600
  {
    var sizes := SizesOf([path], load);
    assert sizes == [Size(1800, 1200)];
    assert sizes[..0] == [];
    var loaded := LoadedHeights([path], load);
    assert loaded == [1200];
    assert loaded[..0] == [];
    var heights := ResizedHeights([path], load, resize);
    assert heights == [600];
    assert heights[..0] == [];
    Int32.WrapInRange(1200);
  }
}
