/**
 * Main: list, sort, group, and for every group measure the canvas, stack the
 * resized images and save the result as `combined_<index>.jpg`, the index
 * counting from 1. Reading the directory, decoding, resizing, drawing and
 * saving are the imaging library's and the file system's: the listed file
 * names, the loaded sizes and the resized heights are inputs, and the saved
 * images are returned as values.
 */
module Pipeline {
  import opened Wrappers
  import opened DigitKey
  import Int32
  import FileOrder
  import Grouping
  import Composition

  const INPUT_DIR: string := "./imagens/"
  const OUTPUT_DIR: string := "./output/"
  const DESIRED_WIDTH: int := 900
  const GROUP_SIZE: nat := 5

  /** One combined image as saved: where, how large the canvas, and what was drawn on it. */
  datatype Combined = Combined(path: string, width: int, height: int, draws: seq<Composition.Draw>)

  /** `Path.Combine(dir, name)` for a relative `name`. */
  function PathCombine(dir: string, name: string): string {
    if dir == [] then name
    else if dir[|dir| - 1] == FileOrder.DIRECTORY_SEPARATOR then dir + name
    else dir + [FileOrder.DIRECTORY_SEPARATOR] + name
  }

  /** `$"combined_{imageIndex}.jpg"`. */
  function OutputName(imageIndex: nat): string {
    "combined_" + ToDecimal(imageIndex) + ".jpg"
  }

  function OutputPath(imageIndex: nat): string {
    PathCombine(OUTPUT_DIR, OutputName(imageIndex))
  }

  /** The `DrawImage` calls for one group: each resized image at x = 0, below the ones before it. */
  function Stacked(group: seq<string>, load: string -> Composition.Size,
                   resize: Composition.Size -> Composition.Dim): seq<Composition.Draw>
  {
    var heights := Composition.ResizedHeights(group, load, resize);
    seq(|group|, k requires 0 <= k < |group| =>
      Composition.Draw(group[k], 0, Composition.Offset(heights, k), DESIRED_WIDTH, heights[k]))
  }

  /** What one group becomes: the canvas from the loaded sizes, the images stacked after resizing. */
  function CombineGroup(group: seq<string>, imageIndex: nat, load: string -> Composition.Size,
                        resize: Composition.Size -> Composition.Dim): Combined
  {
    var sizes := Composition.SizesOf(group, load);
    Combined(OutputPath(imageIndex), Composition.MaxWidth(sizes),
             Int32.Wrap(Composition.Sum(Composition.LoadedHeights(group, load))), Stacked(group, load, resize))
  }

  /** Every group combined, the `k`-th (from 0) under image index `k + 1`. */
  function CombineGroups(groups: seq<seq<string>>, load: string -> Composition.Size,
                         resize: Composition.Size -> Composition.Dim): (outputs: seq<Combined>)
    ensures |outputs| == |groups|
    decreases |groups|
  {
    if groups == [] then []
    else
      CombineGroups(groups[..|groups| - 1], load, resize)
        + [CombineGroup(groups[|groups| - 1], |groups|, load, resize)]
  }

  lemma {:induction false} CombineGroupsAt(groups: seq<seq<string>>, load: string -> Composition.Size,
                                           resize: Composition.Size -> Composition.Dim, k: nat)
    requires k < |groups|
    ensures CombineGroups(groups, load, resize)[k] == CombineGroup(groups[k], k + 1, load, resize)
    decreases |groups|
  {
    if k < |groups| - 1 {
      var init := groups[..|groups| - 1];
      CombineGroupsAt(init, load, resize, k);
      assert init[k] == groups[k];
    }
  }

  /** The files drawn into the combined images, in saving order and top to bottom. */
  function DrawnFiles(outputs: seq<Combined>): seq<string>
    decreases |outputs|
  {
    if outputs == [] then [] else DrawnFiles(outputs[..|outputs| - 1]) + FilesOf(outputs[|outputs| - 1])
  }

  function FilesOf(c: Combined): seq<string> {
    seq(|c.draws|, k requires 0 <= k < |c.draws| => c.draws[k].file)
  }

  /** Each combined image draws exactly the files of its group, in order. */
  lemma FilesOfCombined(group: seq<string>, imageIndex: nat, load: string -> Composition.Size,
                        resize: Composition.Size -> Composition.Dim)
    ensures FilesOf(CombineGroup(group, imageIndex, load, resize)) == group
  {
  }

  /** Reading the combined images in order gives back the groups laid end to end. */
  lemma {:induction false} DrawnFilesOfGroups(groups: seq<seq<string>>, load: string -> Composition.Size,
                                              resize: Composition.Size -> Composition.Dim)
    ensures DrawnFiles(CombineGroups(groups, load, resize)) == Grouping.Concat(groups)
    decreases |groups|
  {
    if groups != [] {
      var outputs := CombineGroups(groups, load, resize);
      assert outputs[..|outputs| - 1] == CombineGroups(groups[..|groups| - 1], load, resize);
      DrawnFilesOfGroups(groups[..|groups| - 1], load, resize);
      FilesOfCombined(groups[|groups| - 1], |groups|, load, resize);
    }
  }

  /** The body of the loop over groups: measure, stack, and name the output `imageIndex`. */
  method CombineOne(group: seq<string>, imageIndex: nat, load: string -> Composition.Size,
                    resize: Composition.Size -> Composition.Dim) returns (combined: Combined)
    ensures combined == CombineGroup(group, imageIndex, load, resize)
  {
    var maxWidth, totalHeight := Composition.MeasureGroup(group, load);
    var draws := Composition.StackImages(group, load, resize, DESIRED_WIDTH);
    assert draws == Stacked(group, load, resize);
    combined := Combined(OutputPath(imageIndex), maxWidth, totalHeight, draws);
  }

  /**
   * Grouping and the loop over groups, for an already sorted list: one
   * combined image per group, the `i`-th (from 0) saved under index `i + 1`,
   * and the files drawn, read in that order, are the list itself.
   */
  method CombineAll(sorted: seq<string>, load: string -> Composition.Size,
                    resize: Composition.Size -> Composition.Dim) returns (outputs: seq<Combined>)
    ensures |outputs| == Grouping.CeilDiv(|sorted|, GROUP_SIZE)
    ensures DrawnFiles(outputs) == sorted
    ensures forall i :: 0 <= i < |outputs| ==>
              i * GROUP_SIZE < |sorted| &&
              outputs[i] == CombineGroup(Grouping.Chunk(sorted, GROUP_SIZE, i), i + 1, load, resize)
  {
    var groupedImages := Grouping.GroupFiles(sorted, GROUP_SIZE);
    outputs := [];
    var imageIndex := 1;
    for i := 0 to |groupedImages|
      invariant imageIndex == i + 1
      invariant outputs == CombineGroups(groupedImages[..i], load, resize)
    {
      var combined := CombineOne(groupedImages[i], imageIndex, load, resize);
      assert groupedImages[..i + 1][..i] == groupedImages[..i];
      outputs := outputs + [combined];
      imageIndex := imageIndex + 1;
    }
    assert groupedImages[..|groupedImages|] == groupedImages;
    DrawnFilesOfGroups(groupedImages, load, resize);
    forall i | 0 <= i < |outputs|
      ensures outputs[i] == CombineGroup(Grouping.Chunk(sorted, GROUP_SIZE, i), i + 1, load, resize)
    {
      CombineGroupsAt(groupedImages, load, resize, i);
    }
  }

  /**
   * The whole run. It fails only where `Array.Sort` throws; otherwise there
   * is one combined image per group (none for no files), saved under
   * `combined_1.jpg`, `combined_2.jpg`, ... in group order, and the images
   * drawn, read in that order, are exactly the sorted file list.
   */
  method Run(imageFiles: seq<string>, load: string -> Composition.Size,
             resize: Composition.Size -> Composition.Dim)
      returns (r: Result<seq<Combined>, ParseError>)
    ensures r.Err? <==> FileOrder.SortFiles(imageFiles).Err?
    ensures r.Err? ==> r.error == FileOrder.SortFiles(imageFiles).error
    ensures r.Ok? ==>
              var sorted := FileOrder.SortFiles(imageFiles).value;
              && |r.value| == Grouping.CeilDiv(|imageFiles|, GROUP_SIZE)
              && DrawnFiles(r.value) == sorted
              && forall i :: 0 <= i < |r.value| ==>
                   i * GROUP_SIZE < |sorted| &&
                   r.value[i] == CombineGroup(Grouping.Chunk(sorted, GROUP_SIZE, i), i + 1, load, resize)
  {
    var sorting := FileOrder.SortFiles(imageFiles);
    if sorting.Err? {
      return Err(sorting.error);
    }
    var outputs := CombineAll(sorting.value, load, resize);
    r := Ok(outputs);
  }

  /** A file listed from the input directory is keyed by its own name: "./imagens/img7.jpg" has key 7. */
  lemma ListedFileKey(n: nat)
    requires n <= Int32.MAX
    ensures FileOrder.FileKey(INPUT_DIR + "img" + ToDecimal(n) + ".jpg") == Ok(n)
  {
    FileOrder.KeyOfNumberedName(INPUT_DIR, n);
  }

  /**
   * The canvas of one combined image, saved under `combined_<index>.jpg`: as
   * wide as the widest loaded image and, when the loaded heights fit in an
   * `int`, as tall as their sum.
   */
  lemma CanvasLayout(group: seq<string>, imageIndex: nat, load: string -> Composition.Size,
                     resize: Composition.Size -> Composition.Dim)
    ensures var c := CombineGroup(group, imageIndex, load, resize);
            && c.path == OUTPUT_DIR + "combined_" + ToDecimal(imageIndex) + ".jpg"
            && (forall k :: 0 <= k < |group| ==> load(group[k]).width <= c.width)
            && (group != [] ==> exists k :: 0 <= k < |group| && c.width == load(group[k]).width)
            && (Composition.Sum(Composition.LoadedHeights(group, load)) <= Int32.MAX ==>
                  c.height == Composition.Sum(Composition.LoadedHeights(group, load)))
  {
    var sizes := Composition.SizesOf(group, load);
    assert forall k :: 0 <= k < |group| ==> sizes[k] == load(group[k]);
    var heights := Composition.LoadedHeights(group, load);
    if Composition.Sum(heights) <= Int32.MAX {
      Composition.CanvasOfGroup(heights);
    }
  }

  /**
   * The images drawn for one group: each one resized to the target width at
   * x = 0, in group order, the first at y = 0 and, when the resized heights
   * fit in an `int`, each next one exactly where the previous one ends.
   */
  lemma DrawLayout(group: seq<string>, load: string -> Composition.Size,
                   resize: Composition.Size -> Composition.Dim)
    ensures var draws := Stacked(group, load, resize);
            && |draws| == |group|
            && (forall k :: 0 <= k < |group| ==>
                  draws[k].file == group[k] && draws[k].x == 0 &&
                  draws[k].width == DESIRED_WIDTH && draws[k].height == resize(load(group[k])))
            && (group != [] ==> draws[0].y == 0)
            && (Composition.Sum(Composition.ResizedHeights(group, load, resize)) <= Int32.MAX ==>
                  forall k :: 0 <= k < |group| - 1 ==> draws[k + 1].y == draws[k].y + draws[k].height)
  {
    var draws := Stacked(group, load, resize);
    var heights := Composition.ResizedHeights(group, load, resize);
    if group != [] {
      assert heights[..0] == [];
      Int32.WrapInRange(0);
    }
    if Composition.Sum(heights) <= Int32.MAX {
      forall k | 0 <= k < |group| - 1 ensures draws[k + 1].y == draws[k].y + draws[k].height {
        Composition.StackTiles(heights, k);
        Composition.StackTiles(heights, k + 1);
      }
    }
  }

  /**
   * Output names carry their index: reading it back with the program's own
   * key gives the index, so the outputs sort numerically in saving order.
   */
  lemma OutputPathsIndexed(imageIndex: nat)
    requires imageIndex <= Int32.MAX
    ensures FileOrder.FileKey(OutputPath(imageIndex)) == Ok(imageIndex)
  {
    assert OutputPath(imageIndex) == OUTPUT_DIR + "combined_" + ToDecimal(imageIndex) + ".jpg";
    assert NoDigit("combined_") && FileOrder.DIRECTORY_SEPARATOR !in "combined_";
    FileOrder.KeyOfSpelledName(OUTPUT_DIR, "combined_", imageIndex);
  }

  /** No two saved images share a path, so none overwrites another. */
  lemma OutputPathsDistinct(i: nat, j: nat)
    requires i != j
    ensures OutputPath(i) != OutputPath(j)
  {
    if OutputPath(i) == OutputPath(j) {
      var a, b := ToDecimal(i), ToDecimal(j);
      assert OutputPath(i) == OUTPUT_DIR + "combined_" + a + ".jpg";
      assert OutputPath(j) == OUTPUT_DIR + "combined_" + b + ".jpg";
      assert |a| == |b|;
      var n := |OUTPUT_DIR + "combined_"|;
      assert a == OutputPath(i)[n..n + |a|];
      assert b == OutputPath(j)[n..n + |b|];
      DecimalInjective(i, j);
    }
  }
}
